/** The rule engine of `src/rule_engine.py`: the operator table, condition
    and rule matching, first-match-wins evaluation and batch evaluation.
    Exceptions the Python code raises are `Failure` values. */
module RuleEngine {
  import opened Wrappers
  import opened Values
  import opened Models
  import opened Rules

  datatype Operator = Gt | Lt | Ge | Le | Eq | Ne | In | NotIn

  /** The keys of the `OPERATORS` table. */
  const OperatorSymbols: set<string> := {">", "<", ">=", "<=", "==", "!=", "in", "not_in"}

  function Symbol(op: Operator): string {
    match op
    case Gt => ">"
    case Lt => "<"
    case Ge => ">="
    case Le => "<="
    case Eq => "=="
    case Ne => "!="
    case In => "in"
    case NotIn => "not_in"
  }

  /** `OPERATORS.get(symbol)`: the table maps exactly the eight symbols. */
  function LookupOperator(symbol: string): (r: Option<Operator>)
    ensures r.Some? <==> symbol in OperatorSymbols
    ensures r.Some? ==> Symbol(r.value) == symbol
  {
    match symbol
    case ">" => Some(Gt)
    case "<" => Some(Lt)
    case ">=" => Some(Ge)
    case "<=" => Some(Le)
    case "==" => Some(Eq)
    case "!=" => Some(Ne)
    case "in" => Some(In)
    case "not_in" => Some(NotIn)
    case _ => None
  }

  /** What evaluation can raise. `KeyError` names the dictionary key that was
      absent; `ValidationError` is the `RuleResult` constructor rejecting
      its inputs. */
  datatype EngineError =
    | KeyError(key: string)
    | UnknownOperator(symbol: string)
    | TypeError
    | InvalidDecision(value: Scalar)
    | ValidationError(fields: seq<ResultField>)
    | NoMatchingRule

  /** Python `a in b`: membership in a list, a substring test in a string,
      and `TypeError` for any other right-hand side. */
  function Membership(a: Scalar, b: Operand): Result<bool, EngineError> {
    match b
    case Many(items) => Success(InList(a, items))
    case Single(v) =>
      if v.Str? && a.Str? then Success(Contains(v.s, a.s)) else Failure(TypeError)
  }

  /** The entry of the `OPERATORS` table for `op`, applied to the record's
      value `a` and the condition's value `b`. */
  function Apply(op: Operator, a: Scalar, b: Operand): (r: Result<bool, EngineError>)
    ensures r.Failure? ==> r.error == TypeError
    ensures op in {Gt, Lt, Ge, Le} ==> (r.Success? <==> b.Single? && Comparable(a, b.v))
    ensures op in {Eq, Ne} ==> r.Success?
  {
    match op
    case Gt => if b.Single? && Comparable(a, b.v) then Success(PyLess(b.v, a)) else Failure(TypeError)
    case Lt => if b.Single? && Comparable(a, b.v) then Success(PyLess(a, b.v)) else Failure(TypeError)
    case Ge =>
      if b.Single? && Comparable(a, b.v) then Success(PyLess(b.v, a) || PyEq(a, b.v)) else Failure(TypeError)
    case Le =>
      if b.Single? && Comparable(a, b.v) then Success(PyLess(a, b.v) || PyEq(a, b.v)) else Failure(TypeError)
    case Eq => Success(b.Single? && PyEq(a, b.v))
    case Ne => Success(!(b.Single? && PyEq(a, b.v)))
    case In => Membership(a, b)
    case NotIn =>
      match Membership(a, b)
      case Success(m) => Success(!m)
      case Failure(e) => Failure(e)
  }

  /** `record.get(field) is None`. */
  predicate Missing(record: Record, field: string) {
    field !in record || record[field] == Null
  }

  /** `evaluate_condition`. The three keys are read first, then a missing or
      null field gives `false` before the operator is looked up. */
  function EvaluateCondition(c: Condition, record: Record): (r: Result<bool, EngineError>)
    ensures c.field.None? ==> r == Failure(KeyError("field"))
    ensures c.field.Some? && c.operator.None? ==> r == Failure(KeyError("operator"))
    ensures c.field.Some? && c.operator.Some? && c.value.None? ==> r == Failure(KeyError("value"))
    ensures HasAllKeys(c) && Missing(record, c.field.value) ==> r == Success(false)
    ensures HasAllKeys(c) && !Missing(record, c.field.value) && c.operator.value !in OperatorSymbols
      ==> r == Failure(UnknownOperator(c.operator.value))
    ensures HasAllKeys(c) && !Missing(record, c.field.value) && LookupOperator(c.operator.value).Some?
      ==> r == Apply(LookupOperator(c.operator.value).value, record[c.field.value], c.value.value)
    ensures r.Failure? ==> r.error.KeyError? || r.error.UnknownOperator? || r.error == TypeError
  {
    if c.field.None? then Failure(KeyError("field"))
    else if c.operator.None? then Failure(KeyError("operator"))
    else if c.value.None? then Failure(KeyError("value"))
    else if Missing(record, c.field.value) then Success(false)
    else match LookupOperator(c.operator.value)
      case None => Failure(UnknownOperator(c.operator.value))
      case Some(op) => Apply(op, record[c.field.value], c.value.value)
  }

  /** The conditions before index `k` all evaluate without raising. */
  predicate ConditionsSucceedBefore(conds: seq<Condition>, record: Record, k: int)
    requires k <= |conds|
  {
    forall j :: 0 <= j < k ==> EvaluateCondition(conds[j], record).Success?
  }

  /** `[self.evaluate_condition(c, record) for c in conditions]`: every
      condition is evaluated, in order; the first exception propagates. */
  function EvaluateAll(conds: seq<Condition>, record: Record): (r: Result<seq<bool>, EngineError>)
    ensures r.Success? ==>
      && |r.value| == |conds|
      && forall k :: 0 <= k < |conds| ==> EvaluateCondition(conds[k], record) == Success(r.value[k])
    ensures r.Failure? ==>
      exists k :: 0 <= k < |conds| && EvaluateCondition(conds[k], record) == Failure(r.error)
        && ConditionsSucceedBefore(conds, record, k)
    decreases |conds|
  {
    if |conds| == 0 then Success([])
    else
      var first :- EvaluateCondition(conds[0], record);
      SucceedShift(conds, record);
      var rest :- EvaluateAll(conds[1..], record);
      Success([first] + rest)
  }

  /** Past a first condition that evaluates without raising, "the
      conditions before" read the same on the rest of the list. */
  lemma SucceedShift(conds: seq<Condition>, record: Record)
    requires |conds| > 0 && EvaluateCondition(conds[0], record).Success?
    ensures forall k :: 0 < k < |conds| ==> conds[1..][k - 1] == conds[k]
    ensures forall k :: 0 <= k < |conds| ==>
      (ConditionsSucceedBefore(conds, record, k + 1) <==> ConditionsSucceedBefore(conds[1..], record, k))
  {
  }

  /** `evaluate_rule`. */
  function EvaluateRule(rule: Rule, record: Record): (r: Result<bool, EngineError>)
    ensures IsAlways(rule) ==> r == Success(true)
    ensures !IsAlways(rule) && |ConditionsOf(rule)| == 0 ==> r == Success(false)
    ensures !IsAlways(rule) && |ConditionsOf(rule)| > 0 ==>
      var conds := ConditionsOf(rule);
      && (r.Failure? <==> exists k :: 0 <= k < |conds| && EvaluateCondition(conds[k], record).Failure?)
      && (r.Success? ==>
           (r.value <==>
              || (rule.logic == Some(AND) && forall k :: 0 <= k < |conds| ==> EvaluateCondition(conds[k], record) == Success(true))
              || (rule.logic == Some(OR) && exists k :: 0 <= k < |conds| && EvaluateCondition(conds[k], record) == Success(true))))
    ensures r.Failure? ==>
      exists k :: 0 <= k < |ConditionsOf(rule)| && EvaluateCondition(ConditionsOf(rule)[k], record) == Failure(r.error)
        && ConditionsSucceedBefore(ConditionsOf(rule), record, k)
    ensures r.Failure? ==> r.error.KeyError? || r.error.UnknownOperator? || r.error == TypeError
  {
    if IsAlways(rule) then Success(true)
    else
      var conds := ConditionsOf(rule);
      if |conds| == 0 then Success(false)
      else
        var results :- EvaluateAll(conds, record);
        if rule.logic == Some(AND) then Success(forall k :: 0 <= k < |results| ==> results[k])
        else if rule.logic == Some(OR) then Success(exists k :: 0 <= k < |results| && results[k])
        else Success(false)
  }

  /** No rule before index `i` matches, and none of them raises. */
  predicate NoMatchBefore(rules: seq<Rule>, record: Record, i: int)
    requires i <= |rules|
  {
    forall j :: 0 <= j < i ==> EvaluateRule(rules[j], record) == Success(false)
  }

  /** Rule `i` is the first rule in list order that matches. */
  predicate IsFirstMatch(rules: seq<Rule>, record: Record, i: int) {
    0 <= i < |rules| && EvaluateRule(rules[i], record) == Success(true) && NoMatchBefore(rules, record, i)
  }

  /** The scan of `evaluate`'s `for` loop: the index of the first matching
      rule, `None` when no rule matches, or the first exception a rule
      raises on the way. */
  function FirstMatch(rules: seq<Rule>, record: Record): (r: Result<Option<nat>, EngineError>)
    ensures r.Success? && r.value.Some? ==> IsFirstMatch(rules, record, r.value.value)
    ensures r == Success(None) <==> NoMatchBefore(rules, record, |rules|)
    ensures r.Failure? ==>
      exists k :: 0 <= k < |rules| && EvaluateRule(rules[k], record) == Failure(r.error)
        && NoMatchBefore(rules, record, k)
    ensures forall i :: IsFirstMatch(rules, record, i) ==> r == Success(Some(i))
    decreases |rules|
  {
    if |rules| == 0 then Success(None)
    else match EvaluateRule(rules[0], record)
      case Failure(e) => Failure(e)
      case Success(true) => Success(Some(0))
      case Success(false) =>
        NoMatchShift(rules, record);
        FirstMatchShift(rules, record);
        match FirstMatch(rules[1..], record)
        case Failure(e) => Failure(e)
        case Success(None) => Success(None)
        case Success(Some(i)) => Success(Some(i + 1))
  }

  /** Past a first rule that evaluates to `false`, the first match of the
      list is the first match of the rest, one index earlier. */
  lemma FirstMatchShift(rules: seq<Rule>, record: Record)
    requires |rules| > 0 && EvaluateRule(rules[0], record) == Success(false)
    ensures forall i :: IsFirstMatch(rules, record, i) ==> i > 0 && IsFirstMatch(rules[1..], record, i - 1)
  {
    forall i | IsFirstMatch(rules, record, i)
      ensures i > 0 && IsFirstMatch(rules[1..], record, i - 1)
    {
      assert rules[1..][i - 1] == rules[i];
      assert forall j :: 0 <= j < i - 1 ==> rules[1..][j] == rules[j + 1];
    }
  }

  /** Past a first rule that evaluates to `false`, "no match before" reads
      the same on the rest of the list. */
  lemma NoMatchShift(rules: seq<Rule>, record: Record)
    requires |rules| > 0 && EvaluateRule(rules[0], record) == Success(false)
    ensures forall i :: 0 <= i < |rules| ==>
      (NoMatchBefore(rules, record, i + 1) <==> NoMatchBefore(rules[1..], record, i))
  {
    assert forall j :: 0 < j < |rules| ==> rules[1..][j - 1] == rules[j];
  }

  /** `record.get('transaction_id', 'unknown')`. */
  function TransactionIdOf(record: Record): Scalar {
    if "transaction_id" in record then record["transaction_id"] else Str("unknown")
  }

  /** `res` reports rule `rule` for the transaction id `txId`: its id, its
      name and its outcome's score, decision and reason. */
  predicate Reports(res: RuleResult, rule: Rule, txId: Scalar) {
    && txId == Str(res.transactionId)
    && rule.id == Some(res.matchedRuleId)
    && rule.name == Some(res.matchedRuleName)
    && rule.outcome.Some?
    && rule.outcome.value.riskScore.Some?
    && IsNumber(rule.outcome.value.riskScore.value)
    && NumericValue(rule.outcome.value.riskScore.value) == res.riskScore as real
    && rule.outcome.value.decision == Some(Str(DecisionName(res.decision)))
    && rule.outcome.value.reason == Some(Str(res.ruleReason))
  }

  /** Every key `evaluate` reads from a matched rule is present, the decision
      names a `Decision` member, and `RuleResult` accepts the values. */
  predicate Reportable(rule: Rule, txId: Scalar) {
    && rule.outcome.Some? && rule.id.Some? && rule.name.Some?
    && rule.outcome.value.riskScore.Some?
    && rule.outcome.value.decision.Some?
    && DecisionOf(rule.outcome.value.decision.value).Some?
    && rule.outcome.value.reason.Some?
    && txId.Str?
    && ValidRiskInput(rule.outcome.value.riskScore.value)
    && rule.outcome.value.reason.value.Str?
  }

  /** The `RuleResult(...)` expression built from a matched rule; its
      arguments are read left to right, so the first absent key raises. */
  function BuildResult(txId: Scalar, rule: Rule): (r: Result<RuleResult, EngineError>)
    ensures r.Success? <==> Reportable(rule, txId)
    ensures r.Success? ==> Reports(r.value, rule, txId)
    ensures rule.outcome.None? ==> r == Failure(KeyError("outcome"))
    ensures rule.outcome.Some? && rule.id.None? ==> r == Failure(KeyError("id"))
    ensures rule.outcome.Some? && rule.id.Some? && rule.name.None? ==> r == Failure(KeyError("name"))
    ensures rule.outcome.Some? && rule.id.Some? && rule.name.Some? && rule.outcome.value.riskScore.None?
      ==> r == Failure(KeyError("risk_score"))
    ensures rule.outcome.Some? && rule.id.Some? && rule.name.Some? && rule.outcome.value.riskScore.Some?
      && rule.outcome.value.decision.None?
      ==> r == Failure(KeyError("decision"))
    ensures rule.outcome.Some? && rule.id.Some? && rule.name.Some? && rule.outcome.value.riskScore.Some?
      && rule.outcome.value.decision.Some? && DecisionOf(rule.outcome.value.decision.value).None?
      ==> r == Failure(InvalidDecision(rule.outcome.value.decision.value))
    ensures rule.outcome.Some? && rule.id.Some? && rule.name.Some? && rule.outcome.value.riskScore.Some?
      && rule.outcome.value.decision.Some? && DecisionOf(rule.outcome.value.decision.value).Some?
      && rule.outcome.value.reason.None?
      ==> r == Failure(KeyError("reason"))
    ensures r.Failure? && r.error.ValidationError? ==>
      && rule.outcome.Some? && rule.id.Some? && rule.name.Some?
      && rule.outcome.value.riskScore.Some? && rule.outcome.value.decision.Some?
      && DecisionOf(rule.outcome.value.decision.value).Some? && rule.outcome.value.reason.Some?
    ensures r.Failure? ==> r.error != NoMatchingRule
  {
    if rule.outcome.None? then Failure(KeyError("outcome"))
    else if rule.id.None? then Failure(KeyError("id"))
    else if rule.name.None? then Failure(KeyError("name"))
    else
      var o := rule.outcome.value;
      if o.riskScore.None? then Failure(KeyError("risk_score"))
      else if o.decision.None? then Failure(KeyError("decision"))
      else match DecisionOf(o.decision.value)
        case None => Failure(InvalidDecision(o.decision.value))
        case Some(d) =>
          if o.reason.None? then Failure(KeyError("reason"))
          else match MakeRuleResult(txId, rule.id.value, rule.name.value, o.riskScore.value, d, o.reason.value)
            case Failure(fields) => Failure(ValidationError(fields))
            case Success(res) => Success(res)
  }

  /** `evaluate`: the result of the first matching rule. It raises
      `NoMatchingRule` exactly when every rule evaluates to `false`. */
  function Evaluate(rules: seq<Rule>, record: Record): (r: Result<RuleResult, EngineError>)
    ensures r.Success? ==>
      exists i :: IsFirstMatch(rules, record, i) && Reports(r.value, rules[i], TransactionIdOf(record))
    ensures r == Failure(NoMatchingRule) <==> NoMatchBefore(rules, record, |rules|)
    ensures forall i :: IsFirstMatch(rules, record, i) ==> r == BuildResult(TransactionIdOf(record), rules[i])
    ensures r.Failure? ==>
      || r.error == NoMatchingRule
      || (exists k :: 0 <= k < |rules| && EvaluateRule(rules[k], record) == Failure(r.error)
           && NoMatchBefore(rules, record, k))
      || (exists i :: IsFirstMatch(rules, record, i) && BuildResult(TransactionIdOf(record), rules[i]) == Failure(r.error))
  {
    match FirstMatch(rules, record)
    case Failure(e) => Failure(e)
    case Success(None) => Failure(NoMatchingRule)
    case Success(Some(i)) => BuildResult(TransactionIdOf(record), rules[i])
  }

  /** A first match whose keys are present and valid is returned: `evaluate`
      succeeds and reports that rule, whether or not the rule set would pass
      `validate_config`. */
  lemma EvaluateReturnsFirstMatch(rules: seq<Rule>, record: Record, i: int)
    requires IsFirstMatch(rules, record, i) && Reportable(rules[i], TransactionIdOf(record))
    ensures Evaluate(rules, record).Success?
    ensures Reports(Evaluate(rules, record).value, rules[i], TransactionIdOf(record))
  {
  }

  /** `evaluate_batch`: one result per record, in input order; the first
      record whose evaluation raises makes the whole batch raise. */
  method EvaluateBatch(rules: seq<Rule>, records: seq<Record>) returns (r: Result<seq<RuleResult>, EngineError>)
    ensures r.Success? ==>
      && |r.value| == |records|
      && forall k :: 0 <= k < |records| ==> Evaluate(rules, records[k]) == Success(r.value[k])
    ensures r.Failure? ==>
      exists k :: 0 <= k < |records| && Evaluate(rules, records[k]) == Failure(r.error)
        && forall j :: 0 <= j < k ==> Evaluate(rules, records[j]).Success?
  {
    r := MapUntilFailure(record => Evaluate(rules, record), records);
  }

  /** Applies `f` to each element in order and collects the values; the
      first failure ends the loop and is the result. */
  method MapUntilFailure<T, U, E>(f: T -> Result<U, E>, xs: seq<T>) returns (r: Result<seq<U>, E>)
    ensures r.Success? ==> |r.value| == |xs| && forall k :: 0 <= k < |xs| ==> f(xs[k]) == Success(r.value[k])
    ensures r.Failure? ==>
      exists k :: 0 <= k < |xs| && f(xs[k]) == Failure(r.error) && forall j :: 0 <= j < k ==> f(xs[j]).Success?
  {
    var values: seq<U> := [];
    var i := 0;
    while i < |xs|
      invariant 0 <= i <= |xs|
      invariant |values| == i
      invariant forall k :: 0 <= k < i ==> f(xs[k]) == Success(values[k])
    {
      var one := f(xs[i]);
      if one.Failure? {
        return Failure(one.error);
      }
      values := values + [one.value];
      i := i + 1;
    }
    return Success(values);
  }

  /** `!=` is the negation of `==`, and `not_in` of `in`: `not_in` raises
      exactly when `in` does. */
  lemma NegatedOperators(a: Scalar, b: Operand)
    ensures Apply(Ne, a, b) == Success(!Apply(Eq, a, b).value)
    ensures Apply(NotIn, a, b).Failure? <==> Apply(In, a, b).Failure?
    ensures Apply(In, a, b).Success? ==> Apply(NotIn, a, b) == Success(!Apply(In, a, b).value)
  {
  }

  /** On a comparable pair the non-strict comparisons are the negations of
      the strict ones: `a >= b` is `not a < b` and `a <= b` is `not a > b`. */
  lemma OrderingOperators(a: Scalar, b: Scalar)
    requires Comparable(a, b)
    ensures Apply(Ge, a, Single(b)) == Success(!Apply(Lt, a, Single(b)).value)
    ensures Apply(Le, a, Single(b)) == Success(!Apply(Gt, a, Single(b)).value)
  {
    if a.Str? {
      StrLessTrichotomy(a.s, b.s);
    }
  }
}
