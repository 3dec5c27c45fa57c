# Fraud rule engine and rule-set governance, in Dafny

This project models the deterministic core of a transaction-screening tool
and proves properties of that model:

- **The rule engine** (`src/rule_engine.py`). It has a closed table of
  eight comparison operators and evaluates one condition against a
  transaction record. Rules combine their conditions with AND, OR or
  ALWAYS. `evaluate` returns the outcome of the first matching rule in list
  order; `evaluate_batch` maps `evaluate` over a list of records.
- **The result models** (`stage2_streamlit/src/models.py`). These are the
  `Decision` and `Confidence` enumerations and the `RuleResult` record,
  whose `risk_score` must lie in 0..100.
- **Rule-set governance** (`stage2_streamlit/src/config_manager.py`):
  - the per-rule and per-document validators;
  - generation of fresh `RULE_nnn` ids;
  - the list edits behind `add_rule`, `update_rule`, `delete_rule` and `reorder_rules`;
  - a versioned document store that backs up the live document before overwriting it.
- **Transaction-record validation** (`stage2_streamlit/src/data_validator.py`):
  - presence, type and range checks;
  - the quick required-field check;
  - sanitising: filtering to known fields, type conversion and boolean normalisation;
  - the field-information table.

Python values are a tagged datatype, `Values.Scalar`. It is `None`, `bool`,
`int`, `float` (as a Dafny `real`) or `str`. A record is a map from field
names to scalars. In a rule document every key that may be absent is an
`Option`: `None` means the key is not in the dictionary. The values a
present key may hold are narrower than YAML allows; "## Left out" says
which ones are represented. Every exception the
Python code raises is a `Failure` value of a `Result`. Every error message
is a datatype value that carries the data the message interpolates.

The central theorem joins the two halves. When `validate_config` returns
no problems, exactly one rule is ALWAYS and it is last. Then `evaluate`
never reaches its "no matching rule" error, and it returns the outcome of
the first matching rule (`Governance.AcceptedAlwaysMatches`,
`Governance.AcceptedReportsFirstMatch`). Some gaps the validators leave
open are stated as lemmas too:

- an operator name is only checked for presence, so an accepted rule set
  can still raise on an unknown operator;
- a `reason` is only checked for presence;
- `reorder_rules` can drop the ALWAYS rule.

Three behaviours of the engine matter for what the lemmas can promise:

- An ordering comparison between incompatible types (a number against a
  string, say) raises `TypeError`; it does not yield `false`.
- A condition that lacks its `field`, `operator` or `value` key raises
  `KeyError` before the record is consulted, so evaluating a condition can
  raise.
- `in` and `not_in` against a string value test for a substring.

A `rules` entry that is not a list is still iterated by
`get_next_rule_id`, `update_rule`, `delete_rule` and `reorder_rules`. An
empty string or an empty mapping iterates as an empty list, so those four
behave as on `[]`. Only `add_rule`, which calls `insert`, fails on it.

`src/rule_engine.py` imports `src/models.py`, which is not part of this
model. The model uses `stage2_streamlit/src/models.py` in its place.

Files, one module each:

- `wrappers.dfy`: `Option` and `Result`.
- `values.dfy`: Python scalars, equality, ordering, membership and ASCII `lower()`.
- `numerals.dfy`: `int()` on text and the `{n:03d}` format.
- `models.dfy`: the `models.py` types.
- `rules.dfy`: rule documents.
- `rule_engine.dfy`: the engine.
- `config_validation.dfy`: `validate_rule` and `validate_config`.
- `rule_ids.dfy`: `get_next_rule_id`.
- `rule_edits.dfy`: the list edits.
- `config_store.dfy`: the versioned store and the four editing operations.
- `governance.dfy`: validator and engine together.
- `data_validator.dfy`: the record validator.

## Model

| member | source | states |
|---|---|---|
| Values.PyEq | src/rule_engine.py:11-12 | Python `==` holds of equal values, and never between a string and a non-string or between `None` and a non-`None` value |
| Values.PyLess | src/rule_engine.py:7-10 | Python `<` on comparable values never holds of two equal values |
| Values.Contains | src/rule_engine.py:13-14 | the empty string is in every string, and a string longer than the text is never in it |
| Values.Lower | stage2_streamlit/src/data_validator.py:122 | `str.lower()` keeps the length and lower-cases each character (ASCII letters only) |
| Values.StrLessTrichotomy | src/rule_engine.py:7-10 | string ordering is total and asymmetric, so `>=` on strings is the negation of `<` |
| Values.ContainsAtOffset | src/rule_engine.py:13-14 | `a in b` for strings holds exactly when `a` occurs in `b` at some offset |
| Numerals.Format03 | stage2_streamlit/src/config_manager.py:143 | `{n:03d}` is at least three characters, all digits for `n >= 0`, and a minus sign before digits for negative `n` |
| Numerals.ParseInt | stage2_streamlit/src/config_manager.py:136 | `int()` rejects blank text, and a negative result comes from text whose first non-blank character is `-` |
| Numerals.DigitsRoundTrip | stage2_streamlit/src/config_manager.py:143 | the decimal digits rendered for `n` denote `n` |
| Numerals.ZeroPadValue | stage2_streamlit/src/config_manager.py:143 | zero padding does not change the value a digit string denotes |
| Numerals.ParseUnsigned | stage2_streamlit/src/config_manager.py:136 | `int()` reads a non-empty digit string as the number it denotes |
| Numerals.ParseFormat03 | stage2_streamlit/src/config_manager.py:136-143 | `int(f"{n:03d}") == n` for every integer `n`, negative ones included |
| Models.DecisionOf | stage2_streamlit/src/models.py:5-8 | `Decision(v)` succeeds exactly for the strings ALLOW, REVIEW, BLOCK and gives the member with that value |
| Models.ConfidenceOf | stage2_streamlit/src/models.py:10-13 | `Confidence(s)` succeeds exactly for HIGH, MEDIUM, LOW and gives the member with that value |
| Models.MakeRuleResult | stage2_streamlit/src/models.py:15-22 | a `RuleResult` is built exactly when the transaction id and reason are strings and the risk score is an integer in 0..100; it then carries the six inputs; otherwise the error names exactly the failing fields |
| RuleEngine.LookupOperator | src/rule_engine.py:6-15 | the table answers exactly for the eight symbols, and the operator found has that symbol |
| RuleEngine.Apply | src/rule_engine.py:6-15 | ordering operators succeed exactly on comparable operands; `==` and `!=` never raise; every failure is `TypeError` |
| RuleEngine.NegatedOperators | src/rule_engine.py:11-14 | `!=` is the negation of `==`; `not_in` raises exactly when `in` does and otherwise negates it |
| RuleEngine.OrderingOperators | src/rule_engine.py:7-10 | on comparable operands `>=` is `not <` and `<=` is `not >` |
| RuleEngine.EvaluateCondition | src/rule_engine.py:23-36 | absent keys raise `KeyError` in the order field, operator, value; an absent or `None` field gives `false` before the operator is looked up; a present field with an unknown operator raises `UnknownOperator`; a present field with a known operator gives that operator's comparison of the record value with the condition value |
| RuleEngine.EvaluateAll | src/rule_engine.py:46 | every condition is evaluated in order; on success value `k` is condition `k`'s result; on failure the error is that of some condition all of whose predecessors succeeded |
| RuleEngine.EvaluateRule | src/rule_engine.py:38-52 | ALWAYS matches; no conditions gives `false`; otherwise it raises exactly when some condition raises, and the error is that of the first raising condition (all before it evaluated); AND means all true, OR means some true, any other logic gives `false` |
| RuleEngine.FirstMatch | src/rule_engine.py:58-59 | the loop stops at the first matching rule, whichever rule that is; `None` exactly when every rule gives `false`; a failure is the error of a rule all of whose predecessors gave `false` |
| RuleEngine.BuildResult | src/rule_engine.py:60-68 | a result is built exactly when every key it reads is present and valid, and it then reports the rule's id, name and outcome; otherwise the first failing read raises, in the order `outcome`, `id`, `name`, `risk_score`, `decision`, `Decision(...)`, `reason`, and only then can `RuleResult` validation fail |
| RuleEngine.Evaluate | src/rule_engine.py:54-71 | on any rule list, `evaluate` gives what the first matching rule's `RuleResult(...)` gives, so a reportable first match is returned and reports that rule; the no-match error arises exactly when every rule gives `false`; any other failure is raised by a rule the loop reached or by building the first match's result |
| RuleEngine.EvaluateReturnsFirstMatch | src/rule_engine.py:58-68 | a first matching rule whose keys are present and valid is returned and reported, on any rule list |
| RuleEngine.EvaluateBatch | src/rule_engine.py:73-75 | one result per record, element `k` being `evaluate(records[k])`; a failure is the first failing record's error |
| ConfigValidation.MissingFieldIssues | stage2_streamlit/src/config_manager.py:43-47 | one missing-field error exactly for each absent key of `id`, `name`, `logic`, `outcome` |
| ConfigValidation.ValidateRuleMissingKeys | stage2_streamlit/src/config_manager.py:43-47 | `validate_rule` reports each absent required key, and each only once |
| ConfigValidation.ConditionKeyIssues | stage2_streamlit/src/config_manager.py:54-60 | the condition loop reports only missing keys, and reports nothing exactly when every condition carries `field`, `operator` and `value` |
| ConfigValidation.ConditionKeyIssuesOf | stage2_streamlit/src/config_manager.py:55-60 | one error per absent key of one condition, under its index |
| ConfigValidation.ConditionKeyIssuesMembers | stage2_streamlit/src/config_manager.py:54-60 | each absent key of each condition is reported under the condition's 1-based index, and nothing else |
| ConfigValidation.ConditionIssues | stage2_streamlit/src/config_manager.py:49-60 | no condition problem exactly when the rule is ALWAYS or has conditions that all carry their three keys |
| ConfigValidation.ValidateRuleConditions | stage2_streamlit/src/config_manager.py:49-60 | a non-ALWAYS rule without conditions gets the missing-conditions error; otherwise each absent condition key is reported under its index |
| ConfigValidation.LogicIssues | stage2_streamlit/src/config_manager.py:62-64 | no logic problem exactly when the logic is absent or one of AND, OR, ALWAYS; a problem names the logic given |
| ConfigValidation.ValidateRuleLogic | stage2_streamlit/src/config_manager.py:62-64 | a present logic outside AND, OR, ALWAYS is reported, and only then |
| ConfigValidation.OutcomeIssues | stage2_streamlit/src/config_manager.py:66-84 | no outcome problem exactly when the outcome is absent or has an integer risk score in 0..100, a listed decision and some reason |
| ConfigValidation.ValidateRule | stage2_streamlit/src/config_manager.py:39-86 | no problem exactly for a rule satisfying the independent definition `WellFormedRule` |
| ConfigValidation.MisplacedIssues | stage2_streamlit/src/config_manager.py:104-107 | one error for each ALWAYS rule that is not last, naming its id and 1-based position |
| ConfigValidation.ValidateConfig | stage2_streamlit/src/config_manager.py:92-100 | a missing `rules` entry, or one that is not a non-empty list, gives exactly one error |
| ConfigValidation.RuleListIssues | stage2_streamlit/src/config_manager.py:102-123 | for a non-empty list: no ALWAYS rule gives the missing-default error, shared ids give the duplicate error naming them, and every per-rule problem is counted |
| ConfigValidation.ValidateConfigDefault | stage2_streamlit/src/config_manager.py:102-111 | the missing-default error appears exactly when no rule is ALWAYS |
| ConfigValidation.ValidateConfigMisplaced | stage2_streamlit/src/config_manager.py:102-108 | one error exactly for each ALWAYS rule before the last position |
| ConfigValidation.IdsCount | stage2_streamlit/src/config_manager.py:114-115 | `ids.count(x) > 1` exactly when two different rules carry `x` |
| ConfigValidation.NoDuplicatesIffDistinct | stage2_streamlit/src/config_manager.py:113-117 | the duplicate set is empty exactly when the present ids are pairwise distinct |
| ConfigValidation.ValidateConfigDuplicates | stage2_streamlit/src/config_manager.py:113-117 | a duplicate-id error appears exactly when two rules share an id, and it names exactly the shared ids |
| ConfigValidation.ValidateConfigRuleIssues | stage2_streamlit/src/config_manager.py:119-123 | every problem of every rule appears, prefixed with the rule's 1-based position and its id (or `unknown`), and nothing else of that kind |
| ConfigValidation.ValidateConfigAccepts | stage2_streamlit/src/config_manager.py:88-125 | no problem exactly when the rules form a non-empty list whose last rule is the only ALWAYS rule, whose ids are distinct and whose rules all pass `validate_rule` |
| RuleIds.FirstSegment | stage2_streamlit/src/config_manager.py:136 | applied to the text after `RULE_`, it is `rule_id.split('_')[1]`: a prefix of that text with no underscore, ended by an underscore or by the end of the text |
| RuleIds.MaxOrZero | stage2_streamlit/src/config_manager.py:142 | `max(numbers, default=0)`: an upper bound that is a member, or 0 for no numbers |
| RuleIds.NumbersMembers | stage2_streamlit/src/config_manager.py:129-139 | the numbers collected are exactly those parsed from some rule's `RULE_` id |
| Rules.IteratedRules | stage2_streamlit/src/config_manager.py:130 | iterating `rules` fails exactly for a value that is neither a list nor an empty string or mapping; those iterate as no rules |
| RuleIds.NextRuleId | stage2_streamlit/src/config_manager.py:127-130 | the id cannot be generated exactly when `rules` is neither a list nor an empty string or mapping |
| RuleIds.NextRuleIdOfEmptyValue | stage2_streamlit/src/config_manager.py:127-143 | an empty string or mapping under `rules` gives `RULE_001` |
| RuleIds.RuleNumberOfFormat | stage2_streamlit/src/config_manager.py:136-143 | the number read back from `RULE_` plus `{n:03d}` is `n` |
| RuleIds.NextRuleIdNumber | stage2_streamlit/src/config_manager.py:141-143 | the generated id carries the number one past the largest number found |
| RuleIds.NumbersBelowMax | stage2_streamlit/src/config_manager.py:133-142 | every number an existing id carries is at most the maximum taken |
| RuleIds.NextRuleIdFresh | stage2_streamlit/src/config_manager.py:127-143 | the generated id is not the id of any rule in the document |
| RuleIds.NextRuleIdFirst | stage2_streamlit/src/config_manager.py:141-143 | with no numbered id the result is `RULE_001` |
| RuleIds.NextRuleIdExample | stage2_streamlit/src/config_manager.py:127-143 | ids `RULE_001` and `RULE_003` give `RULE_004` |
| RuleEdits.DefaultIndex | stage2_streamlit/src/config_manager.py:150-155 | the default insertion index is that of the first ALWAYS rule, or the list length when there is none |
| RuleEdits.InsertIndex | stage2_streamlit/src/config_manager.py:158-159 | the index `list.insert` uses lies in 0..len: an in-range position is kept, a negative one counts from the end, and the rest are clamped to the nearer end |
| RuleEdits.InsertIndexCases | stage2_streamlit/src/config_manager.py:158-159 | `list.insert` puts an in-range position there, counts a negative one from the end, and clamps the rest to the ends |
| RuleEdits.InsertAt | stage2_streamlit/src/config_manager.py:159 | the list grows by one, with the new rule at the index and the others in order around it |
| RuleEdits.AddToList | stage2_streamlit/src/config_manager.py:150-159 | the saved list is one longer and holds the new rule at the insertion index |
| RuleEdits.AddToListShape | stage2_streamlit/src/config_manager.py:157-159 | `add_rule` grows the list by one, places the rule at its index and keeps the other rules in order |
| RuleEdits.AddBeforeDefault | stage2_streamlit/src/config_manager.py:150-159 | without a position the rule goes right before the first ALWAYS rule, or last when there is none |
| RuleEdits.FirstWithId | stage2_streamlit/src/config_manager.py:169-170 | the index of the first rule carrying the id, or none when no rule does |
| RuleEdits.ReplaceFirst | stage2_streamlit/src/config_manager.py:169-176 | the first rule carrying the id is replaced in place, the length and every other rule are kept, and nothing is produced when no rule carries it |
| RuleEdits.RemoveId | stage2_streamlit/src/config_manager.py:183 | the kept rules are exactly those not carrying the id |
| RuleEdits.RemoveIdAppend | stage2_streamlit/src/config_manager.py:183 | removal splits over concatenation, so the kept rules stay in order |
| RuleEdits.RemoveIdShrinks | stage2_streamlit/src/config_manager.py:183-189 | the list shrinks exactly when some rule carries the id |
| RuleEdits.RemoveIdAbsent | stage2_streamlit/src/config_manager.py:183-189 | when no rule carries the id, removal changes nothing |
| RuleEdits.LastWithId | stage2_streamlit/src/config_manager.py:197 | the id map keeps the last rule carrying each id |
| RuleEdits.Reorder | stage2_streamlit/src/config_manager.py:196-200 | the new list has at most one rule per requested id, and only rules of the old list |
| RuleEdits.ReorderSingle | stage2_streamlit/src/config_manager.py:196-200 | one requested id gives the last rule carrying it, or nothing when no rule does |
| RuleEdits.ReorderAppend | stage2_streamlit/src/config_manager.py:200 | the comprehension splits over concatenated id lists, so the result follows the requested order |
| RuleEdits.ReorderMembers | stage2_streamlit/src/config_manager.py:196-200 | a rule is kept exactly when its id was requested and it is the last rule with that id |
| RuleEdits.ReorderIdentity | stage2_streamlit/src/config_manager.py:196-200 | requesting a list's own distinct ids in order gives the list back |
| RuleEdits.ReorderRepeats | stage2_streamlit/src/config_manager.py:200 | a requested id given twice brings its rule twice |
| ConfigStore.Load | stage2_streamlit/src/config_manager.py:16-23 | loading fails, naming the version, exactly when the version has no live document |
| ConfigStore.Save | stage2_streamlit/src/config_manager.py:25-37 | the document becomes the live one for its version, and the set of versions gains only that version |
| ConfigStore.SaveLoad | stage2_streamlit/src/config_manager.py:25-37 | a saved document is what the next load of its version returns |
| ConfigStore.SaveOthers | stage2_streamlit/src/config_manager.py:25-37 | saving one version leaves every other version and its backups unchanged |
| ConfigStore.SaveBackup | stage2_streamlit/src/config_manager.py:29-33 | the backup log gains exactly the replaced document, and only when a backup was asked for and a document existed |
| ConfigStore.SaveKeepsBackups | stage2_streamlit/src/config_manager.py:29-33 | every backup log only grows at its end |
| ConfigStore.RulesOf | stage2_streamlit/src/config_manager.py:148-159 | the rules `add_rule` inserts into exist exactly when `config['rules']` is a list, and putting them back changes nothing |
| ConfigStore.LoopedRulesOf | stage2_streamlit/src/config_manager.py:167-169 | the rules the three loops see exist exactly when `config['rules']` is a list or an empty string or mapping; the latter give no rules; a failure is the missing or non-iterable entry |
| ConfigStore.AddRule | stage2_streamlit/src/config_manager.py:145-162 | `add_rule` succeeds exactly when the version loads with a rule list, and saves the list with the rule inserted |
| ConfigStore.AddRuleSaved | stage2_streamlit/src/config_manager.py:145-162 | after `add_rule` the version loads as the edited document, and the previous document is the newest backup |
| ConfigStore.UpdateRule | stage2_streamlit/src/config_manager.py:164-176 | `update_rule` succeeds exactly when the version loads with iterable rules; it reports `true` exactly when some rule carries the id, then saves the replaced list, and otherwise leaves the store unchanged |
| ConfigStore.DeleteRule | stage2_streamlit/src/config_manager.py:178-189 | `delete_rule` succeeds exactly when the version loads with iterable rules; it reports `true` exactly when some rule carries the id, then saves the filtered list, and otherwise leaves the store unchanged |
| ConfigStore.ReorderRules | stage2_streamlit/src/config_manager.py:191-203 | `reorder_rules` succeeds exactly when the version loads with iterable rules, and saves the rules the requested ids name, in that order (`RuleEdits.ReorderSingle`, `RuleEdits.ReorderAppend`) |
| ConfigStore.EmptyValueEdits | stage2_streamlit/src/config_manager.py:145-203 | with an empty string or mapping under `rules`, `add_rule` fails, `update_rule` and `delete_rule` report `false` and save nothing, and `reorder_rules` saves an empty list |
| Governance.AcceptedRules | stage2_streamlit/src/config_manager.py:88-125 | the rule list of an accepted document is certified |
| Governance.CertifiedAlwaysMatches | src/rule_engine.py:58-71 | on a certified rule set the last rule matches every record, so the no-match error is unreachable |
| Governance.AcceptedAlwaysMatches | src/rule_engine.py:54-71 | on a document `validate_config` accepts, `evaluate` never raises the no-match error |
| Governance.CertifiedReportsFirstMatch | src/rule_engine.py:54-68 | when no rule that `evaluate` reaches raises, some rule is the first match, and `evaluate` reports it exactly when its reason is a string |
| Governance.AcceptedReportsFirstMatch | src/rule_engine.py:54-68 | the same for a document `validate_config` accepts |
| Governance.UnknownOperatorAccepted | stage2_streamlit/src/config_manager.py:54-60 | an accepted rule set whose operator is unknown makes `evaluate` raise |
| Governance.ReasonOnlyPresenceChecked | stage2_streamlit/src/config_manager.py:82-84 | any present reason value, empty or not a string, is judged alike |
| Governance.ReorderWithoutDefaultRejected | stage2_streamlit/src/config_manager.py:191-203 | leaving the ALWAYS rule's id out of a reorder gives a document `validate_config` rejects |
| Governance.AddKeepsCertified | stage2_streamlit/src/config_manager.py:145-162 | adding a well-formed non-ALWAYS rule with a fresh id at the default position keeps a rule set certified |
| Governance.DeleteKeepsCertified | stage2_streamlit/src/config_manager.py:178-189 | deleting an id the ALWAYS rule does not carry keeps a rule set certified |
| Governance.RemoveIdDistinct | stage2_streamlit/src/config_manager.py:183 | deleting keeps ids distinct |
| DataValidator.ValidateTransaction | stage2_streamlit/src/data_validator.py:28-68 | the missing-field errors come first, and an error is a missing-field error exactly when it lies among them |
| DataValidator.MissingIssues | stage2_streamlit/src/data_validator.py:33-35 | the missing-field errors name exactly the absent fields |
| DataValidator.MissingReported | stage2_streamlit/src/data_validator.py:28-35 | `validate_transaction` reports a missing field exactly for the absent required fields |
| DataValidator.MissingReportedOnce | stage2_streamlit/src/data_validator.py:33-35 | no absent field is reported twice |
| DataValidator.NumberIssues | stage2_streamlit/src/data_validator.py:38-42 | a present non-number is flagged as such, else a negative number as negative |
| DataValidator.IntegerIssues | stage2_streamlit/src/data_validator.py:44-48 | a present non-integer is flagged as such, else a negative integer as negative |
| DataValidator.BooleanIssues | stage2_streamlit/src/data_validator.py:54-60 | a present value that is not a `bool` is flagged |
| DataValidator.AmountChecked | stage2_streamlit/src/data_validator.py:38-42 | the amount errors appear exactly for a non-number and for a negative number |
| DataValidator.VelocityChecked | stage2_streamlit/src/data_validator.py:44-48 | the velocity errors appear exactly for a non-integer and for a negative integer |
| DataValidator.CategoryChecked | stage2_streamlit/src/data_validator.py:50-52 | the category error appears exactly for a present value outside the five categories |
| DataValidator.FlagsChecked | stage2_streamlit/src/data_validator.py:54-60 | each flag error appears exactly for a present non-`bool` value |
| DataValidator.AccountAgeChecked | stage2_streamlit/src/data_validator.py:62-66 | the account-age errors appear exactly for a non-integer and for a negative integer |
| DataValidator.ValidateTransactionValues | stage2_streamlit/src/data_validator.py:28-68 | apart from missing fields, the errors are exactly the type and range problems |
| DataValidator.ValueIssuesReported | stage2_streamlit/src/data_validator.py:37-66 | each of the nine type and range errors of `validate_transaction` appears exactly under its condition |
| DataValidator.ValidateTransactionAccepts | stage2_streamlit/src/data_validator.py:28-68 | no error exactly for a record that has every required field and valid values |
| DataValidator.CheckRequiredFields | stage2_streamlit/src/data_validator.py:128-130 | `true` exactly when all six required fields are present |
| DataValidator.CheckRequiredAgrees | stage2_streamlit/src/data_validator.py:128-130 | the quick check holds exactly when `validate_transaction` reports no missing field |
| DataValidator.Truncate | stage2_streamlit/src/data_validator.py:107 | `int(x)` of a float truncates toward zero |
| DataValidator.ToFloat | stage2_streamlit/src/data_validator.py:99-103 | a successful conversion gives a float, and a number converts to its own value |
| DataValidator.ToInt | stage2_streamlit/src/data_validator.py:105-115 | a successful conversion gives an integer; an integer stays as it is; `None` cannot be converted |
| DataValidator.NormaliseBool | stage2_streamlit/src/data_validator.py:117-124 | strings and numbers become booleans, a number being true exactly when non-zero; other values are unchanged |
| DataValidator.SanitizeValue | stage2_streamlit/src/data_validator.py:99-124 | unconverted fields keep their value; the amount becomes a float (a number its own value) or is left as it was; a count becomes an integer or is left, an integer staying put; a flag becomes a boolean exactly when it was a string, number or boolean |
| DataValidator.Sanitize | stage2_streamlit/src/data_validator.py:89-126 | the keys kept are exactly the known fields present in the input, and unconverted fields keep their values |
| DataValidator.SanitizeIdempotent | stage2_streamlit/src/data_validator.py:89-126 | sanitising twice gives the same record as sanitising once |
| DataValidator.SanitizeBooleans | stage2_streamlit/src/data_validator.py:117-124 | a flag that held a string becomes true exactly when its lower-case form is one of the four words; one that held a number becomes true exactly when it is non-zero |
| DataValidator.SanitizeCounts | stage2_streamlit/src/data_validator.py:105-115 | a count field that `int()` accepts holds that integer and passes the integer check |
| DataValidator.FieldInfoMatchesFields | stage2_streamlit/src/data_validator.py:132-189 | the table describes exactly the required and optional fields, and marks exactly the required ones as required |

## Left out

- File I/O is not modelled: YAML loading and dumping, paths, `mkdir` and `shutil.copy2`. The store is an abstract map from version to document, plus a backup log per version.
- `RuleEngine.__init__`, which loads a file (`src/rule_engine.py:17-21`), and `ConfigManager.__init__` are not modelled, for the same reason.
- Backup file names carry a timestamp of one-second resolution, so two saves in one second overwrite one backup. The model keeps every backup, because it has no clock.
- Floats are Dafny reals: NaN, infinities and rounding are not modelled.
- DataValidator.ToFloat: reading a float from text is the parameter `parseFloat`, which the model does not define.
- `int()` on text accepts ASCII digits only. Python also accepts other Unicode decimal digits.
- `str.lower()` lower-cases ASCII letters only.
- Error messages are datatype values, not formatted strings. The text of the messages, including Python's rendering of a set of duplicate ids, is not modelled.
- Rules, conditions and outcomes are always mappings. A document where one of them is some other YAML value, such as `outcome: null`, makes the Python validators raise `TypeError`; the model does not represent such documents.
- Rule ids and names are strings or absent. Non-string ids, which Python would compare and hash as they are, are not modelled.
- Rule and condition keys hold only the values the validators and the engine are written for. `logic`, `field` and `operator` are strings or absent. `conditions` is a list of conditions, or absent (a `null` reads as absent). A condition's `value` is a scalar or a list of scalars. Documents such as `logic: null` (reported as "Invalid logic: None"), `operator: null` (the unknown operator `None`), `field: 5` (a record lookup that finds nothing) or `conditions: "abc"` (walked character by character, with substring tests for the keys) are not represented.
- Models.MakeRuleResult: pydantic's coercion of numeric strings such as `"50"` into the integer `risk_score` is not modelled; such a string is rejected. Pydantic is modelled only through the constraints on `RuleResult` fields; its lax mode accepts an integral float or a bool for the integer field, and the model follows that.
- RuleIds.NextRuleId: an empty string or mapping under `rules` iterates as no rules; any other non-list value is one failure. The Python error depends on the value (a non-empty string or mapping fails on `.get`, a number or `None` is not iterable), and the model does not distinguish the cases. A non-empty list-like value such as a tuple is not represented.
- `validate_dataframe` (`stage2_streamlit/src/data_validator.py:70-87`) is not modelled. It depends on pandas row conversion and NaN handling.
- `LLMExplanation`, `FinalDecisionOutput`, the UI pages, the visualiser, the data generator and the LLM explainer are outside the modelled core.
