# Hardware diagnosis expert system — Dafny model

This project models the rule-matching expert system `HardwareExpertSystem`
of a small hardware-diagnosis web application. The engine holds a fixed,
ordered table of six rules. Each rule names the symptom tokens it needs
(`condicoes`) and gives a diagnosis, a probable cause and a recommendation.
`diagnose` turns the caller's symptom list into a set. It walks the table in
declaration order and keeps the advice of every rule whose conditions are a
subset of that set. When no rule matched, it answers a single fixed fallback
entry ("Nenhuma causa específica identificada").

Files:

- `expert_system.dfy`, module `ExpertSystem`: the `Rule` and
  `DiagnosisResult` datatypes, the six rules and the fallback as constants
  (the Portuguese texts kept verbatim), and the specification functions.
  `Matches` is the ordered filter of the table and `Diagnoses` adds the
  fallback. The lemmas about them are general over any rule table. The class
  `HardwareExpertSystem` holds the table in its `rules` field. Its `Diagnose`
  method is the source's loop, which appends to a result sequence, proved
  equal to `Diagnoses`.
- `rule_table_properties.dfy`, module `RuleTableProperties`: what holds of
  the six-rule table itself, the concrete queries, and two client methods
  that show what callers of the class can rely on.

## Model

| member | source | states |
|---|---|---|
| ExpertSystem.SymptomSet | expert_system.py:80 | a token is in the set exactly when it occurs in the symptom list |
| ExpertSystem.Fires | expert_system.py:85 | a rule fires exactly when every one of its conditions is among the present symptoms (the `issubset` test); used by `Matches` and `Diagnose` |
| ExpertSystem.ResultOf | expert_system.py:86-91 | builds a result from a rule's diagnosis, probable cause and recommendation; no contract of its own, used by `Matches` and `Diagnose` |
| ExpertSystem.Contribution | expert_system.py:85-92 | one step of the loop: a rule contributes its result, and only it, exactly when it fires, and nothing otherwise; `Matches` is built from it |
| ExpertSystem.Matches | expert_system.py:83-92 | the filter never yields more entries than the table has rules |
| ExpertSystem.Diagnoses | expert_system.py:80-109 | the answer always has at least one entry, and never more than the number of rules (one when the table is empty) |
| ExpertSystem.MatchesIsOrderedFilter | expert_system.py:83-92 | the k-th match is the advice of the k-th firing rule; firing positions strictly increase; a position is listed if and only if its rule's conditions are a subset of the symptoms |
| ExpertSystem.MatchesSound | expert_system.py:83-92 | every match is the advice of some rule whose conditions are all present |
| ExpertSystem.MatchesCompleteAndOrdered | expert_system.py:83-92 | of two firing rules, both contribute, and the earlier rule's advice comes before the later rule's |
| ExpertSystem.MatchesMembership | expert_system.py:83-92 | a rule's advice (distinct from the other rules') is among the matches if and only if the rule fires |
| ExpertSystem.MatchesEmptyIffNoneFire | expert_system.py:83-94 | there are no matches if and only if no rule fires |
| ExpertSystem.DiagnosesCases | expert_system.py:94-109 | the answer is the single fallback when no rule fires, and exactly the matches otherwise |
| ExpertSystem.FallbackExclusive | expert_system.py:94-107 | the fallback appears if and only if no rule fires, and when it appears it is the only entry |
| ExpertSystem.SameTokensSameDiagnoses | expert_system.py:80 | two symptom lists with the same tokens, whatever their order or repetitions, get the same answer |
| ExpertSystem.UnknownSymptomsYieldFallback | expert_system.py:83-107 | when every rule needs some symptom and no listed symptom is needed by any rule, the answer is the fallback alone |
| ExpertSystem.HardwareExpertSystem.constructor | expert_system.py:14-74 | a new engine holds the six-rule table in declaration order |
| ExpertSystem.HardwareExpertSystem.Diagnose | expert_system.py:76-109 | the loop over the rules, with the fallback appended after it, returns exactly `Diagnoses` of the engine's rules and changes nothing |
| RuleTableProperties.TableConditionsNonEmptyAndKnown | expert_system.py:20-74 | the table has six rules, no condition set is empty, and the tokens the rules need are exactly the eight of `TableTokens` |
| RuleTableProperties.TableDiagnosesDistinct | expert_system.py:20-107 | no rule's diagnosis equals the fallback's, and no two rules share a diagnosis |
| RuleTableProperties.TableAnswers | expert_system.py:83-107 | on the table, each rule's advice is answered if and only if the rule fires; the fallback if and only if none fires, and then alone; between one and six entries |
| RuleTableProperties.UnknownTokensYieldFallback | expert_system.py:94-107 | a query made only of tokens outside the table's vocabulary gets the fallback alone |
| RuleTableProperties.EmptyQueryYieldsFallback | expert_system.py:94-107 | the empty query gets the fallback alone |
| RuleTableProperties.ReorderAndRepeat | expert_system.py:80 | the query `[a, b]` and the query `[b, a, a]` get the same answer for any tokens |
| RuleTableProperties.NoPowerQuery | expert_system.py:22-28 | `["nao_liga"]` gets exactly the no-power advice |
| RuleTableProperties.OverheatRebootQuery | expert_system.py:31-37 | `["reinicia_sozinho", "superaquecendo"]` gets exactly the overheating-reboot advice |
| RuleTableProperties.SlowDiskAndMemoryQuery | expert_system.py:40-56 | `["lento", "uso_disco_alto", "pouca_memoria"]` gets the disk-bottleneck advice followed by the low-memory advice |
| RuleTableProperties.NoiseQuery | expert_system.py:67-72 | `["ruidos"]` gets exactly the noise advice |
| RuleTableProperties.UnknownTagQuery | expert_system.py:94-107 | a query with one unknown token gets the fallback alone |
| RuleTableProperties.ExpandTable | expert_system.py:20-92 | the matches of the table are the contributions of its six rules, concatenated in declaration order |
| RuleTableProperties.DiagnoseTwice | expert_system.py:76-109 | two calls of `Diagnose` with the same symptoms on one engine return identical answers, equal to `Diagnoses` of its rules |
| RuleTableProperties.SlowDiskAndMemoryOnNewEngine | expert_system.py:14-109 | a freshly built engine answers the slow-disk-and-low-memory query with the disk-bottleneck advice followed by the low-memory advice |

## Left out

- The web layer of the application (`app.py`): request routing, page rendering and environment loading. It is I/O around the engine.
- Collection of host metrics (platform, CPU frequencies and percentages, memory, disk partitions, uptime). It calls the operating system and works with floating-point values.
- Upload of the diagnosis log to cloud storage, its wall-clock timestamp, and the status-string handling around a failed upload. These are network I/O and a clock.
- The catalogue of symptom choices offered to the user. The engine does not validate tokens against it, so the model treats symptoms as arbitrary strings.
- The dictionaries with string keys that the source uses for rules and results are modelled as the fields of the `Rule` and `DiagnosisResult` datatypes.
- Concurrent calls of `diagnose` from several request handlers. The model has no concurrency; `Diagnose` has no `modifies` clause, so it changes no state.
