/** The rule-matching expert system for hardware diagnosis.

    A fixed, ordered table of rules maps a set of observed symptom tokens to
    plain-language diagnoses. `Diagnose` keeps, in table order, every rule
    whose required symptoms are all present, and answers a single fixed
    fallback entry when no rule matches.
 */
module ExpertSystem {

  /** A rule: the symptoms it needs (`condicoes`) and the advice it gives
      (`diagnostico`, `causa_provavel`, `recomendacao`). */
  datatype Rule = Rule(
    conditions: set<string>,
    diagnosis: string,
    probableCause: string,
    recommendation: string)

  /** One entry of the answer: a rule's advice without its conditions. */
  datatype DiagnosisResult = DiagnosisResult(
    diagnosis: string,
    probableCause: string,
    recommendation: string)

  function ResultOf(rule: Rule): (r: DiagnosisResult) {
    DiagnosisResult(rule.diagnosis, rule.probableCause, rule.recommendation)
  }

  /** The entry answered when no rule matches. */
  const Fallback: DiagnosisResult := DiagnosisResult(
    "Nenhuma causa específica identificada",
    "Os sintomas informados não bateram com nenhuma regra específica do sistema especialista.",
    "Verifique se os sintomas foram descritos corretamente, "
    + "atualize drivers e sistema operacional, e se o problema persistir, "
    + "considere uma análise mais detalhada por um técnico.")

  // The six rules of the table, in declaration order.

  const NoPowerRule: Rule := Rule(
    {"nao_liga"},
    "Computador não liga",
    "Possível problema na fonte de alimentação, cabo de energia ou botão power.",
    "Verifique se o cabo está conectado, teste em outra tomada, "
    + "confira a chave de tensão da fonte e, se possível, teste com outra fonte.")

  const OverheatRebootRule: Rule := Rule(
    {"reinicia_sozinho", "superaquecendo"},
    "Reinicializações devido a superaquecimento",
    "Temperatura alta de CPU ou GPU causando desligamento de segurança.",
    "Limpe ventoinhas e dissipadores, verifique se os coolers estão girando, "
    + "troque a pasta térmica se necessário e garanta boa circulação de ar no gabinete.")

  const DiskBottleneckRule: Rule := Rule(
    {"lento", "uso_disco_alto"},
    "Desempenho lento por gargalo em disco",
    "Disco rígido antigo, quase cheio ou com muitos acessos simultâneos.",
    "Considere usar um SSD, liberar espaço em disco, desinstalar programas desnecessários "
    + "e verificar programas iniciando junto com o sistema.")

  const LowMemoryRule: Rule := Rule(
    {"lento", "pouca_memoria"},
    "Desempenho lento por falta de memória RAM",
    "Aplicativos consumindo mais RAM do que o disponível.",
    "Feche programas em segundo plano, aumente a quantidade de RAM "
    + "ou use versões mais leves dos aplicativos.")

  const NoVideoRule: Rule := Rule(
    {"sem_video"},
    "Sem vídeo na tela",
    "Problemas na placa de vídeo, cabo de vídeo ou monitor.",
    "Teste com outro cabo/monitor, verifique se a placa de vídeo está bem encaixada, "
    + "e teste a saída de vídeo onboard (se houver).")

  const NoiseRule: Rule := Rule(
    {"ruidos"},
    "Ruídos estranhos (cliques/chiados)",
    "Possível falha em HD mecânico ou ventoinhas desgastadas.",
    "Faça backup imediato dos dados, verifique a origem do ruído e considere trocar o componente.")

  const RuleTable: seq<Rule> :=
    [NoPowerRule, OverheatRebootRule, DiskBottleneckRule, LowMemoryRule, NoVideoRule, NoiseRule]

  /** A rule fires when every symptom it needs is present. */
  predicate Fires(rule: Rule, present: set<string>)
    ensures Fires(rule, present) <==> forall s :: s in rule.conditions ==> s in present
  {
    rule.conditions <= present
  }

  /** What one rule contributes to the answer: its advice when it fires,
      nothing otherwise. */
  function Contribution(rule: Rule, present: set<string>): (c: seq<DiagnosisResult>)
    ensures |c| <= 1
    ensures c != [] <==> Fires(rule, present)
    ensures c != [] ==> c[0] == ResultOf(rule)
  {
    if Fires(rule, present) then [ResultOf(rule)] else []
  }

  /** No rule of `rules` fires on `present`. */
  predicate NoneFire(rules: seq<Rule>, present: set<string>) {
    forall j :: 0 <= j < |rules| ==> !Fires(rules[j], present)
  }

  /** The symptom list as a set: order and repetitions are forgotten. */
  function SymptomSet(symptoms: seq<string>): (present: set<string>)
    ensures forall s :: s in present <==> s in symptoms
  {
    set s | s in symptoms
  }

  /** The results of the rules that fire, in table order. Defined on the last
      rule, so that a loop over the table extends it one rule at a time. */
  function Matches(rules: seq<Rule>, present: set<string>): (m: seq<DiagnosisResult>)
    ensures |m| <= |rules|
  {
    if rules == [] then []
    else
      Matches(rules[..|rules| - 1], present) + Contribution(rules[|rules| - 1], present)
  }

  /** What `diagnose` answers for a symptom list on a given table. */
  function Diagnoses(rules: seq<Rule>, symptoms: seq<string>): (r: seq<DiagnosisResult>)
    ensures 1 <= |r| <= if |rules| == 0 then 1 else |rules|
  {
    var m := Matches(rules, SymptomSet(symptoms));
    if m == [] then [Fallback] else m
  }

  /** The positions of the rules that fire, in increasing order. */
  ghost function FiringPositions(rules: seq<Rule>, present: set<string>): (idx: seq<nat>) {
    if rules == [] then []
    else
      FiringPositions(rules[..|rules| - 1], present)
      + (if Fires(rules[|rules| - 1], present) then [|rules| - 1] else [])
  }

  /** `Matches` is exactly the ordered filter of the table: its k-th entry is
      the result of the k-th firing rule, the positions increase strictly, and
      a position is listed if and only if its rule fires. */
  lemma {:induction false} MatchesIsOrderedFilter(rules: seq<Rule>, present: set<string>)
    ensures var idx := FiringPositions(rules, present);
      && |Matches(rules, present)| == |idx|
      && (forall k :: 0 <= k < |idx| ==>
            idx[k] < |rules| && Matches(rules, present)[k] == ResultOf(rules[idx[k]]))
      && (forall k, l :: 0 <= k < l < |idx| ==> idx[k] < idx[l])
      && (forall j :: 0 <= j < |rules| ==> (j in idx <==> Fires(rules[j], present)))
  {
    if rules != [] {
      var n := |rules| - 1;
      var prefix := rules[..n];
      MatchesIsOrderedFilter(prefix, present);
      assert Matches(rules, present) == Matches(prefix, present) + Contribution(rules[n], present);
      var idx0 := FiringPositions(prefix, present);
      var idx := FiringPositions(rules, present);
      assert forall j :: 0 <= j < n ==> prefix[j] == rules[j];
      assert forall k :: 0 <= k < |idx0| ==> idx[k] == idx0[k];
      assert forall k :: 0 <= k < |idx0| ==> Matches(rules, present)[k] == Matches(prefix, present)[k];
      assert forall k :: 0 <= k < |idx0| ==> idx0[k] < n;
    }
  }

  /** Every entry of `Matches` comes from a rule that fires. */
  lemma MatchesSound(rules: seq<Rule>, present: set<string>, k: nat)
    requires k < |Matches(rules, present)|
    ensures exists j :: 0 <= j < |rules| && Fires(rules[j], present)
                        && Matches(rules, present)[k] == ResultOf(rules[j])
  {
    MatchesIsOrderedFilter(rules, present);
    var idx := FiringPositions(rules, present);
    assert idx[k] in idx;
  }

  /** Every rule that fires contributes, and two firing rules appear in the
      order of the table. */
  lemma MatchesCompleteAndOrdered(rules: seq<Rule>, present: set<string>, i: nat, j: nat)
    requires i < j < |rules|
    requires Fires(rules[i], present) && Fires(rules[j], present)
    ensures exists k, l :: 0 <= k < l < |Matches(rules, present)|
                           && Matches(rules, present)[k] == ResultOf(rules[i])
                           && Matches(rules, present)[l] == ResultOf(rules[j])
  {
    MatchesIsOrderedFilter(rules, present);
    var idx := FiringPositions(rules, present);
    assert i in idx && j in idx;
    var k :| 0 <= k < |idx| && idx[k] == i;
    var l :| 0 <= l < |idx| && idx[l] == j;
    assert k < l;
    assert Matches(rules, present)[k] == ResultOf(rules[i]);
    assert Matches(rules, present)[l] == ResultOf(rules[j]);
  }

  /** A rule that fires has its result among the matches; one that does not
      fire contributes nothing when its result is unlike every other rule's. */
  lemma MatchesMembership(rules: seq<Rule>, present: set<string>, j: nat)
    requires j < |rules|
    requires forall i :: 0 <= i < |rules| && i != j ==> ResultOf(rules[i]) != ResultOf(rules[j])
    ensures ResultOf(rules[j]) in Matches(rules, present) <==> Fires(rules[j], present)
  {
    MatchesIsOrderedFilter(rules, present);
    var m := Matches(rules, present);
    var idx := FiringPositions(rules, present);
    if Fires(rules[j], present) {
      var k :| 0 <= k < |idx| && idx[k] == j;
      assert m[k] == ResultOf(rules[j]);
    } else {
      forall k | 0 <= k < |m| ensures m[k] != ResultOf(rules[j]) {
        assert idx[k] in idx;
      }
    }
  }

  /** No match at all happens exactly when no rule fires. */
  lemma {:induction false} MatchesEmptyIffNoneFire(rules: seq<Rule>, present: set<string>)
    ensures Matches(rules, present) == [] <==> NoneFire(rules, present)
  {
    if rules != [] {
      var n := |rules| - 1;
      var prefix := rules[..n];
      MatchesEmptyIffNoneFire(prefix, present);
      assert Matches(rules, present) == Matches(prefix, present)
        + Contribution(rules[n], present);
      if NoneFire(rules, present) {
        assert NoneFire(prefix, present);
      } else {
        var j :| 0 <= j < |rules| && Fires(rules[j], present);
        if j < n {
          assert prefix[j] == rules[j];
          assert !NoneFire(prefix, present);
        }
        assert Matches(rules, present) != [];
      }
    }
  }

  /** `diagnose` answers the matches when some rule fires, and the single
      fallback entry when none does. */
  lemma DiagnosesCases(rules: seq<Rule>, symptoms: seq<string>)
    ensures NoneFire(rules, SymptomSet(symptoms)) ==> Diagnoses(rules, symptoms) == [Fallback]
    ensures !NoneFire(rules, SymptomSet(symptoms)) ==>
              Diagnoses(rules, symptoms) == Matches(rules, SymptomSet(symptoms))
  {
    MatchesEmptyIffNoneFire(rules, SymptomSet(symptoms));
  }

  /** The fallback is answered if and only if no rule fires, and then alone:
      it never mixes with real matches as long as no rule carries the
      fallback's own advice. */
  lemma FallbackExclusive(rules: seq<Rule>, symptoms: seq<string>)
    requires forall j :: 0 <= j < |rules| ==> ResultOf(rules[j]) != Fallback
    ensures Fallback in Diagnoses(rules, symptoms) <==> NoneFire(rules, SymptomSet(symptoms))
    ensures Fallback in Diagnoses(rules, symptoms) ==> Diagnoses(rules, symptoms) == [Fallback]
  {
    var present := SymptomSet(symptoms);
    DiagnosesCases(rules, symptoms);
    var m := Matches(rules, present);
    forall k | 0 <= k < |m| ensures m[k] != Fallback {
      MatchesSound(rules, present, k);
      var j :| 0 <= j < |rules| && Fires(rules[j], present) && m[k] == ResultOf(rules[j]);
    }
  }

  /** The answer depends on the symptom list only through the set of its
      tokens: reordering it or repeating tokens changes nothing. */
  lemma SameTokensSameDiagnoses(rules: seq<Rule>, a: seq<string>, b: seq<string>)
    requires forall s :: s in a <==> s in b
    ensures Diagnoses(rules, a) == Diagnoses(rules, b)
  {
    assert SymptomSet(a) == SymptomSet(b);
  }

  /** When every rule needs at least one symptom and no listed symptom is
      needed by any rule, only the fallback is answered. */
  lemma UnknownSymptomsYieldFallback(rules: seq<Rule>, symptoms: seq<string>)
    requires forall j :: 0 <= j < |rules| ==> rules[j].conditions != {}
    requires forall j, s :: 0 <= j < |rules| && s in rules[j].conditions ==> s !in symptoms
    ensures Diagnoses(rules, symptoms) == [Fallback]
  {
    var present := SymptomSet(symptoms);
    forall j | 0 <= j < |rules| ensures !Fires(rules[j], present) {
      var s :| s in rules[j].conditions;
    }
    MatchesEmptyIffNoneFire(rules, present);
  }

  /** The engine: it holds the rule table and answers queries against it. */
  class HardwareExpertSystem {
    var rules: seq<Rule>

    constructor ()
      ensures rules == RuleTable
    {
      rules := RuleTable;
    }

    /** Keeps, in table order, the result of every rule whose conditions are
        all among `symptoms`; answers `[Fallback]` when none is. It changes
        nothing, so the same query always gets the same answer. */
    method Diagnose(symptoms: seq<string>) returns (results: seq<DiagnosisResult>)
      ensures results == Diagnoses(rules, symptoms)
    {
      var present := SymptomSet(symptoms);
      results := [];
      for i := 0 to |rules|
        invariant results == Matches(rules[..i], present)
      {
        var rule := rules[i];
        if Fires(rule, present) {
          results := results + [ResultOf(rule)];
        }
        assert rules[..i + 1][..i] == rules[..i];
      }
      assert rules[..|rules|] == rules;
      if results == [] {
        results := results + [Fallback];
      }
    }
  }
}
