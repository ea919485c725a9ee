/** Properties of the six-rule table the engine is built with, a few
    concrete example queries, and what callers of the engine can rely on. */
module RuleTableProperties {
  import opened ExpertSystem

  /** Every symptom token some rule of the table needs. */
  const TableTokens: set<string> :=
    {"nao_liga", "reinicia_sozinho", "superaquecendo", "lento", "uso_disco_alto",
     "pouca_memoria", "sem_video", "ruidos"}

  /** Every rule of the table needs at least one symptom, the tokens the
      rules need are exactly `TableTokens`. */
  lemma TableConditionsNonEmptyAndKnown()
    ensures |RuleTable| == 6
    ensures forall j :: 0 <= j < |RuleTable| ==> RuleTable[j].conditions != {}
    ensures forall j :: 0 <= j < |RuleTable| ==> RuleTable[j].conditions <= TableTokens
    ensures forall s :: s in TableTokens ==>
              exists j :: 0 <= j < |RuleTable| && s in RuleTable[j].conditions
  {
    forall s | s in TableTokens
      ensures exists j :: 0 <= j < |RuleTable| && s in RuleTable[j].conditions
    {
      var j := if s == "nao_liga" then 0
        else if s in {"reinicia_sozinho", "superaquecendo"} then 1
        else if s in {"lento", "uso_disco_alto"} then 2
        else if s == "pouca_memoria" then 3
        else if s == "sem_video" then 4
        else 5;
      assert s in RuleTable[j].conditions;
    }
    assert "nao_liga" in NoPowerRule.conditions;
    assert "reinicia_sozinho" in OverheatRebootRule.conditions;
    assert "lento" in DiskBottleneckRule.conditions;
    assert "lento" in LowMemoryRule.conditions;
    assert "sem_video" in NoVideoRule.conditions;
    assert "ruidos" in NoiseRule.conditions;
  }

  /** The diagnoses of the table differ from the fallback's, by their first
      letter, and from each other, by their lengths. */
  lemma TableDiagnosesDistinct()
    ensures forall j :: 0 <= j < |RuleTable| ==> RuleTable[j].diagnosis != Fallback.diagnosis
    ensures forall i, j :: 0 <= i < j < |RuleTable| ==> RuleTable[i].diagnosis != RuleTable[j].diagnosis
  {
    assert Fallback.diagnosis[0] == 'N';
    assert NoPowerRule.diagnosis[0] == 'C' && |NoPowerRule.diagnosis| == 19;
    assert OverheatRebootRule.diagnosis[0] == 'R' && |OverheatRebootRule.diagnosis| == 42;
    assert DiskBottleneckRule.diagnosis[0] == 'D' && |DiskBottleneckRule.diagnosis| == 37;
    assert LowMemoryRule.diagnosis[0] == 'D' && |LowMemoryRule.diagnosis| == 41;
    assert NoVideoRule.diagnosis[0] == 'S' && |NoVideoRule.diagnosis| == 17;
    assert NoiseRule.diagnosis[0] == 'R' && |NoiseRule.diagnosis| == 34;
  }

  /** On the table, a rule's advice is answered if and only if the rule
      fires, and the fallback if and only if no rule does, alone. */
  lemma TableAnswers(symptoms: seq<string>)
    ensures forall j :: 0 <= j < |RuleTable| ==>
              (ResultOf(RuleTable[j]) in Diagnoses(RuleTable, symptoms)
               <==> Fires(RuleTable[j], SymptomSet(symptoms)))
    ensures Fallback in Diagnoses(RuleTable, symptoms) <==> NoneFire(RuleTable, SymptomSet(symptoms))
    ensures Fallback in Diagnoses(RuleTable, symptoms) ==> Diagnoses(RuleTable, symptoms) == [Fallback]
    ensures 1 <= |Diagnoses(RuleTable, symptoms)| <= 6
  {
    TableDiagnosesDistinct();
    FallbackExclusive(RuleTable, symptoms);
    DiagnosesCases(RuleTable, symptoms);
    var present := SymptomSet(symptoms);
    forall j | 0 <= j < |RuleTable|
      ensures ResultOf(RuleTable[j]) in Diagnoses(RuleTable, symptoms) <==> Fires(RuleTable[j], present)
    {
      MatchesMembership(RuleTable, present, j);
    }
  }

  /** A query made only of tokens no rule uses, the empty one among them,
      gets the fallback alone. */
  lemma UnknownTokensYieldFallback(symptoms: seq<string>)
    requires forall s :: s in symptoms ==> s !in TableTokens
    ensures Diagnoses(RuleTable, symptoms) == [Fallback]
  {
    TableConditionsNonEmptyAndKnown();
    UnknownSymptomsYieldFallback(RuleTable, symptoms);
  }

  lemma EmptyQueryYieldsFallback()
    ensures Diagnoses(RuleTable, []) == [Fallback]
  {
    UnknownTokensYieldFallback([]);
  }

  /** Reordering a query or repeating a token in it changes nothing. */
  lemma ReorderAndRepeat(a: string, b: string)
    ensures Diagnoses(RuleTable, [a, b]) == Diagnoses(RuleTable, [b, a, a])
  {
    SameTokensSameDiagnoses(RuleTable, [a, b], [b, a, a]);
  }

  // Concrete queries.

  lemma NoPowerQuery()
    ensures Diagnoses(RuleTable, ["nao_liga"]) == [ResultOf(NoPowerRule)]
  {
    var present := SymptomSet(["nao_liga"]);
    assert present == {"nao_liga"};
    ExpandTable(present);
  }

  lemma OverheatRebootQuery()
    ensures Diagnoses(RuleTable, ["reinicia_sozinho", "superaquecendo"]) == [ResultOf(OverheatRebootRule)]
  {
    var present := SymptomSet(["reinicia_sozinho", "superaquecendo"]);
    assert present == {"reinicia_sozinho", "superaquecendo"};
    ExpandTable(present);
  }

  lemma SlowDiskAndMemoryQuery()
    ensures Diagnoses(RuleTable, ["lento", "uso_disco_alto", "pouca_memoria"])
            == [ResultOf(DiskBottleneckRule), ResultOf(LowMemoryRule)]
  {
    var present := SymptomSet(["lento", "uso_disco_alto", "pouca_memoria"]);
    assert present == {"lento", "uso_disco_alto", "pouca_memoria"};
    ExpandTable(present);
  }

  lemma NoiseQuery()
    ensures Diagnoses(RuleTable, ["ruidos"]) == [ResultOf(NoiseRule)]
  {
    var present := SymptomSet(["ruidos"]);
    assert present == {"ruidos"};
    ExpandTable(present);
  }

  lemma UnknownTagQuery()
    ensures Diagnoses(RuleTable, ["unknown_tag"]) == [Fallback]
  {
    UnknownTokensYieldFallback(["unknown_tag"]);
  }

  /** The matches of the table, written out rule by rule. */
  lemma ExpandTable(present: set<string>)
    ensures Matches(RuleTable, present)
      == Contribution(NoPowerRule, present) + Contribution(OverheatRebootRule, present)
       + Contribution(DiskBottleneckRule, present) + Contribution(LowMemoryRule, present)
       + Contribution(NoVideoRule, present) + Contribution(NoiseRule, present)
  {
    var t := RuleTable;
    assert t[..1][..0] == [];
    assert Matches(t[..1], present) == Contribution(NoPowerRule, present);
    assert t[..2][..1] == t[..1];
    assert Matches(t[..2], present) == Matches(t[..1], present) + Contribution(OverheatRebootRule, present);
    assert t[..3][..2] == t[..2];
    assert Matches(t[..3], present) == Matches(t[..2], present) + Contribution(DiskBottleneckRule, present);
    assert t[..4][..3] == t[..3];
    assert Matches(t[..4], present) == Matches(t[..3], present) + Contribution(LowMemoryRule, present);
    assert t[..5][..4] == t[..4];
    assert Matches(t[..5], present) == Matches(t[..4], present) + Contribution(NoVideoRule, present);
    assert t[..5] == t[..|t| - 1];
  }

  /** The engine answers the same query the same way every time: `Diagnose`
      changes nothing. */
  method DiagnoseTwice(system: HardwareExpertSystem, symptoms: seq<string>)
    returns (first: seq<DiagnosisResult>, second: seq<DiagnosisResult>)
    ensures first == second
    ensures first == Diagnoses(system.rules, symptoms)
  {
    first := system.Diagnose(symptoms);
    second := system.Diagnose(symptoms);
  }

  /** A freshly built engine answers the slow-disk-and-low-memory query with
      the disk-bottleneck result followed by the low-memory result. */
  method SlowDiskAndMemoryOnNewEngine() returns (results: seq<DiagnosisResult>)
    ensures results == [ResultOf(DiskBottleneckRule), ResultOf(LowMemoryRule)]
  {
    var system := new HardwareExpertSystem();
    results := system.Diagnose(["lento", "uso_disco_alto", "pouca_memoria"]);
    SlowDiskAndMemoryQuery();
  }
}
