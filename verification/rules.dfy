/** Rule documents as loaded from a rule-set YAML file. Every key a rule,
    condition or outcome may lack is an `Option`: `None` is "the key is not
    in the dictionary". */
module Rules {
  import opened Wrappers
  import opened Values

  const ALWAYS := "ALWAYS"
  const AND := "AND"
  const OR := "OR"

  /** The logic values `validate_rule` accepts. */
  const Logics: set<string> := {AND, OR, ALWAYS}

  datatype Condition = Condition(field: Option<string>, operator: Option<string>, value: Option<Operand>)

  datatype Outcome = Outcome(riskScore: Option<Scalar>, decision: Option<Scalar>, reason: Option<Scalar>)

  /** One rule. An absent `conditions` key, `conditions: null` and
      `conditions: []` behave alike everywhere and are all `None` or
      `Some([])` here. */
  datatype Rule = Rule(
    id: Option<string>,
    name: Option<string>,
    logic: Option<string>,
    conditions: Option<seq<Condition>>,
    outcome: Option<Outcome>)

  /** The value under the `rules` key: a list of rules, or some other YAML
      value. `emptyIterable` holds of an empty string and an empty mapping,
      which a `for` loop walks through without a single step; `null`,
      numbers, booleans and non-empty strings or mappings make such a loop
      raise (on the iteration itself, or on the `.get` called on its first
      element). */
  datatype RulesEntry = NotAList(emptyIterable: bool) | RuleList(rules: seq<Rule>)

  /** The rules a loop `for r in rules: ... r.get(...)` visits: the list's
      rules, none for an empty string or mapping, and `None` where the loop
      raises. */
  function IteratedRules(e: RulesEntry): (r: Option<seq<Rule>>)
    ensures r.None? <==> e.NotAList? && !e.emptyIterable
    ensures r.Some? && e.NotAList? ==> r.value == []
  {
    match e
    case RuleList(rules) => Some(rules)
    case NotAList(empty) => if empty then Some([]) else None
  }

  /** A rule-set document. */
  datatype Config = Config(version: Option<string>, rules: Option<RulesEntry>)

  /** `rule.get('logic') == 'ALWAYS'`. */
  predicate IsAlways(r: Rule) {
    r.logic == Some(ALWAYS)
  }

  /** A condition carrying all three keys `field`, `operator`, `value`. */
  predicate HasAllKeys(c: Condition) {
    c.field.Some? && c.operator.Some? && c.value.Some?
  }

  /** `rule.get('conditions', [])`, with `null` read as empty. */
  function ConditionsOf(r: Rule): seq<Condition> {
    r.conditions.GetOr([])
  }

  /** The same document with its rule list replaced (`config['rules'] = rules`). */
  function WithRules(c: Config, rules: seq<Rule>): Config {
    c.(rules := Some(RuleList(rules)))
  }
}
