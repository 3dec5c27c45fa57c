/** The result types of the rule engine: the `Decision` and `Confidence`
    enumerations and the `RuleResult` record, whose construction validates
    its fields the way the pydantic model does. */
module Models {
  import opened Wrappers
  import opened Values

  datatype Decision = ALLOW | REVIEW | BLOCK

  const DecisionNames: set<string> := {"ALLOW", "REVIEW", "BLOCK"}

  /** The string value of each member (`Decision.ALLOW.value == "ALLOW"`). */
  function DecisionName(d: Decision): string {
    match d
    case ALLOW => "ALLOW"
    case REVIEW => "REVIEW"
    case BLOCK => "BLOCK"
  }

  /** `Decision(v)`: the member whose value equals `v`; `None` where the
      call raises `ValueError`. */
  function DecisionOf(v: Scalar): (r: Option<Decision>)
    ensures r.Some? <==> v.Str? && v.s in DecisionNames
    ensures r.Some? ==> v == Str(DecisionName(r.value))
  {
    if v == Str("ALLOW") then Some(ALLOW)
    else if v == Str("REVIEW") then Some(REVIEW)
    else if v == Str("BLOCK") then Some(BLOCK)
    else None
  }

  datatype Confidence = HIGH | MEDIUM | LOW

  const ConfidenceNames: set<string> := {"HIGH", "MEDIUM", "LOW"}

  function ConfidenceName(c: Confidence): string {
    match c
    case HIGH => "HIGH"
    case MEDIUM => "MEDIUM"
    case LOW => "LOW"
  }

  /** `Confidence(s)`: `None` where the call raises `ValueError`. */
  function ConfidenceOf(s: string): (r: Option<Confidence>)
    ensures r.Some? <==> s in ConfidenceNames
    ensures r.Some? ==> ConfidenceName(r.value) == s
  {
    if s == "HIGH" then Some(HIGH)
    else if s == "MEDIUM" then Some(MEDIUM)
    else if s == "LOW" then Some(LOW)
    else None
  }

  /** The `risk_score` field carries `Field(ge=0, le=100)`. */
  type RiskScore = x: int | 0 <= x <= 100

  datatype RuleResult = RuleResult(
    transactionId: string,
    matchedRuleId: string,
    matchedRuleName: string,
    riskScore: RiskScore,
    decision: Decision,
    ruleReason: string)

  /** A field of `RuleResult` whose input failed validation. */
  datatype ResultField = TransactionIdField | RiskScoreField | RuleReasonField

  /** The integer pydantic reads from an input for an `int` field in lax
      mode: an int, a bool, or a float with no fractional part. */
  function LaxInt(v: Scalar): Option<int> {
    match v
    case Bool(b) => Some(if b then 1 else 0)
    case Int(i) => Some(i)
    case Float(x) => if x.Floor as real == x then Some(x.Floor) else None
    case _ => None
  }

  predicate ValidRiskInput(v: Scalar) {
    LaxInt(v).Some? && 0 <= LaxInt(v).value <= 100
  }

  /** `RuleResult(...)` from the inputs the engine passes. The identifiers
      and the name are strings already; the decision is already a member. A
      failure lists every field that did not validate, in declaration order. */
  function MakeRuleResult(
    txId: Scalar, ruleId: string, ruleName: string, risk: Scalar, decision: Decision, reason: Scalar
  ): (r: Result<RuleResult, seq<ResultField>>)
    ensures r.Success? <==> txId.Str? && ValidRiskInput(risk) && reason.Str?
    ensures r.Success? ==>
      && r.value.transactionId == txId.s
      && r.value.matchedRuleId == ruleId
      && r.value.matchedRuleName == ruleName
      && r.value.riskScore as real == NumericValue(risk)
      && r.value.decision == decision
      && r.value.ruleReason == reason.s
    ensures r.Failure? ==>
      && |r.error| > 0
      && (TransactionIdField in r.error <==> !txId.Str?)
      && (RiskScoreField in r.error <==> !ValidRiskInput(risk))
      && (RuleReasonField in r.error <==> !reason.Str?)
  {
    var bad :=
      (if txId.Str? then [] else [TransactionIdField])
      + (if ValidRiskInput(risk) then [] else [RiskScoreField])
      + (if reason.Str? then [] else [RuleReasonField]);
    if |bad| > 0 then Failure(bad)
    else Success(RuleResult(txId.s, ruleId, ruleName, LaxInt(risk).value, decision, reason.s))
  }
}
