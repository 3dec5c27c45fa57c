/** The validators of `ConfigManager`: `validate_rule` checks one rule,
    `validate_config` a whole rule set. Each returns the list of problems it
    found; an empty list is the only success signal. Problems are modelled
    as values carrying what the error message reports. */
module ConfigValidation {
  import opened Wrappers
  import opened Values
  import opened Models
  import opened Rules

  /** One problem `validate_rule` reports. Condition indices are 1-based. */
  datatype RuleIssue =
    | MissingField(field: string)
    | NoConditions
    | ConditionMissing(index: nat, key: string)
    | InvalidLogic(logic: string)
    | MissingRiskScore
    | InvalidRiskScore
    | MissingDecision
    | InvalidDecisionValue(value: Scalar)
    | MissingReason

  /** The keys every rule must carry, in the order they are checked. */
  const RequiredRuleKeys: seq<string> := ["id", "name", "logic", "outcome"]

  /** The keys every condition must carry, in the order they are checked. */
  const ConditionKeys: seq<string> := ["field", "operator", "value"]

  predicate RuleLacks(rule: Rule, key: string) {
    || (key == "id" && rule.id.None?)
    || (key == "name" && rule.name.None?)
    || (key == "logic" && rule.logic.None?)
    || (key == "outcome" && rule.outcome.None?)
  }

  predicate ConditionLacks(c: Condition, key: string) {
    || (key == "field" && c.field.None?)
    || (key == "operator" && c.operator.None?)
    || (key == "value" && c.value.None?)
  }

  /** `isinstance(v, int) and 0 <= v <= 100`. */
  predicate IsScore(v: Scalar) {
    IsInteger(v) && 0.0 <= NumericValue(v) <= 100.0
  }

  // ---------------------------------------------------------------------
  // validate_rule

  function MissingFieldIssues(rule: Rule): (r: seq<RuleIssue>)
    ensures forall e :: e in r ==> e.MissingField?
    ensures forall f :: MissingField(f) in r <==> f in RequiredRuleKeys && RuleLacks(rule, f)
    ensures r == [] <==> rule.id.Some? && rule.name.Some? && rule.logic.Some? && rule.outcome.Some?
  {
    (if rule.id.None? then [MissingField("id")] else [])
    + (if rule.name.None? then [MissingField("name")] else [])
    + (if rule.logic.None? then [MissingField("logic")] else [])
    + (if rule.outcome.None? then [MissingField("outcome")] else [])
  }

  function ConditionKeyIssuesOf(c: Condition, index: nat): (r: seq<RuleIssue>)
    ensures forall i: nat, key :: ConditionMissing(i, key) in r <==> i == index && ConditionLacks(c, key)
    ensures forall e :: e in r ==> e.ConditionMissing?
    ensures r == [] <==> HasAllKeys(c)
  {
    (if c.field.None? then [ConditionMissing(index, "field")] else [])
    + (if c.operator.None? then [ConditionMissing(index, "operator")] else [])
    + (if c.value.None? then [ConditionMissing(index, "value")] else [])
  }

  /** Every condition carries `field`, `operator` and `value`. */
  predicate AllKeysPresent(conds: seq<Condition>) {
    forall c :: c in conds ==> HasAllKeys(c)
  }

  /** A list of conditions is complete when its first one and the rest are. */
  lemma AllKeysPresentCons(conds: seq<Condition>)
    requires |conds| > 0
    ensures AllKeysPresent(conds) <==> HasAllKeys(conds[0]) && AllKeysPresent(conds[1..])
  {
    assert forall c :: c in conds ==> c == conds[0] || c in conds[1..];
  }

  /** The missing-key problems of `conds`, whose first element has the
      1-based index `first`. */
  function ConditionKeyIssues(conds: seq<Condition>, first: nat): (r: seq<RuleIssue>)
    ensures forall e :: e in r ==> e.ConditionMissing?
    ensures |r| == 0 <==> AllKeysPresent(conds)
    decreases |conds|
  {
    if |conds| == 0 then []
    else
      AllKeysPresentCons(conds);
      ConditionKeyIssuesOf(conds[0], first) + ConditionKeyIssues(conds[1..], first + 1)
  }

  /** Each absent key of each condition is reported once under its index. */
  lemma {:induction false} ConditionKeyIssuesMembers(conds: seq<Condition>, first: nat)
    ensures forall i: nat, key {:trigger ConditionMissing(i, key) in ConditionKeyIssues(conds, first)} ::
      ConditionMissing(i, key) in ConditionKeyIssues(conds, first) <==>
        first <= i < first + |conds| && ConditionLacks(conds[i - first], key)
    decreases |conds|
  {
    if |conds| > 0 {
      var head := ConditionKeyIssuesOf(conds[0], first);
      var rest := ConditionKeyIssues(conds[1..], first + 1);
      assert ConditionKeyIssues(conds, first) == head + rest;
      ConditionKeyIssuesMembers(conds[1..], first + 1);
      forall i: nat, key
        ensures ConditionMissing(i, key) in head + rest <==>
          first <= i < first + |conds| && ConditionLacks(conds[i - first], key)
      {
        var inRest := first + 1 <= i < first + |conds| && ConditionLacks(conds[1..][i - (first + 1)], key);
        InConcat(ConditionMissing(i, key), head, rest, i == first && ConditionLacks(conds[0], key), inRest);
        if i > first && i < first + |conds| {
          assert conds[1..][i - (first + 1)] == conds[i - first];
        }
      }
    }
  }

  /** Membership in a concatenation, for membership facts already known of
      each part. */
  lemma InConcat(x: RuleIssue, head: seq<RuleIssue>, rest: seq<RuleIssue>, inHead: bool, inRest: bool)
    requires x in head <==> inHead
    requires x in rest <==> inRest
    ensures x in head + rest <==> inHead || inRest
  {
  }

  function ConditionIssues(rule: Rule): (r: seq<RuleIssue>)
    ensures forall e :: e in r ==> e.ConditionMissing? || e.NoConditions?
    ensures r == [] <==>
      IsAlways(rule) || (|ConditionsOf(rule)| > 0 && AllKeysPresent(ConditionsOf(rule)))
  {
    if IsAlways(rule) then []
    else if |ConditionsOf(rule)| == 0 then [NoConditions]
    else
      ConditionKeyIssues(ConditionsOf(rule), 1)
  }

  function LogicIssues(rule: Rule): (r: seq<RuleIssue>)
    ensures r == [] <==> rule.logic.None? || rule.logic.value in Logics
    ensures forall e :: e in r ==> e.InvalidLogic? && Some(e.logic) == rule.logic
  {
    if rule.logic.Some? && rule.logic.value !in Logics then [InvalidLogic(rule.logic.value)] else []
  }

  predicate IsOutcomeIssue(e: RuleIssue) {
    e.MissingRiskScore? || e.InvalidRiskScore? || e.MissingDecision? || e.InvalidDecisionValue? || e.MissingReason?
  }

  function OutcomeIssues(rule: Rule): (r: seq<RuleIssue>)
    ensures forall e :: e in r ==> IsOutcomeIssue(e)
    ensures r == [] <==> rule.outcome.None? || WellFormedOutcome(rule.outcome.value)
  {
    match rule.outcome
    case None => []
    case Some(o) =>
      (match o.riskScore
       case None => [MissingRiskScore]
       case Some(v) => if IsScore(v) then [] else [InvalidRiskScore])
      + (match o.decision
         case None => [MissingDecision]
         case Some(v) => if DecisionOf(v).Some? then [] else [InvalidDecisionValue(v)])
      + (if o.reason.None? then [MissingReason] else [])
  }

  /** A rule's outcome as `validate_rule` demands it. The reason only has
      to be present. */
  predicate WellFormedOutcome(o: Outcome) {
    && o.riskScore.Some? && IsScore(o.riskScore.value)
    && o.decision.Some? && o.decision.value.Str? && o.decision.value.s in DecisionNames
    && o.reason.Some?
  }

  /** The rules `validate_rule` accepts, stated independently of the order
      and wording of its checks. */
  predicate WellFormedRule(r: Rule) {
    && r.id.Some? && r.name.Some?
    && r.logic.Some? && r.logic.value in Logics
    && (r.logic.value != ALWAYS ==>
          |ConditionsOf(r)| > 0 && forall c :: c in ConditionsOf(r) ==> HasAllKeys(c))
    && r.outcome.Some? && WellFormedOutcome(r.outcome.value)
  }

  /** `validate_rule`: no problems exactly for a well-formed rule. */
  function ValidateRule(rule: Rule): (r: seq<RuleIssue>)
    ensures r == [] <==> WellFormedRule(rule)
  {
    MissingFieldIssues(rule) + (ConditionIssues(rule) + (LogicIssues(rule) + OutcomeIssues(rule)))
  }

  /** The four checks of `validate_rule`, joined in order. */
  lemma ValidateRuleParts(rule: Rule)
    ensures forall e :: e in ValidateRule(rule) <==>
      e in MissingFieldIssues(rule) || e in ConditionIssues(rule) || e in LogicIssues(rule) || e in OutcomeIssues(rule)
  {
  }

  /** No required key is reported twice. */
  lemma MissingFieldsDistinct(rule: Rule)
    ensures var m := MissingFieldIssues(rule);
      forall i, j :: 0 <= i < j < |m| ==> m[i] != m[j]
  {
  }

  /** `validate_rule` reports one error per absent required key, each once. */
  lemma ValidateRuleMissingKeys(rule: Rule)
    ensures var r := ValidateRule(rule);
      && (forall f :: MissingField(f) in r <==> f in RequiredRuleKeys && RuleLacks(rule, f))
      && (forall i, j :: 0 <= i < j < |r| && r[i].MissingField? ==> r[i] != r[j])
  {
    var m := MissingFieldIssues(rule);
    var rest := ConditionIssues(rule) + (LogicIssues(rule) + OutcomeIssues(rule));
    MissingFieldsDistinct(rule);
    assert forall e :: e in rest ==> !e.MissingField?;
    assert forall k :: |m| <= k < |m + rest| ==> (m + rest)[k] in rest;
  }

  /** What the condition check reports on its own. */
  lemma ConditionIssuesReport(rule: Rule)
    ensures var r := ConditionIssues(rule);
      && (NoConditions in r <==> !IsAlways(rule) && |ConditionsOf(rule)| == 0)
      && (forall i: nat, key :: ConditionMissing(i, key) in r <==>
            !IsAlways(rule) && 1 <= i <= |ConditionsOf(rule)| && ConditionLacks(ConditionsOf(rule)[i - 1], key))
  {
    ConditionKeyIssuesMembers(ConditionsOf(rule), 1);
  }

  /** A non-ALWAYS rule without conditions gets the missing-conditions
      error; otherwise each absent condition key gets its own error, tagged
      with the condition's 1-based index. */
  lemma ValidateRuleConditions(rule: Rule)
    ensures var r := ValidateRule(rule);
      && (NoConditions in r <==> !IsAlways(rule) && |ConditionsOf(rule)| == 0)
      && (forall i: nat, key :: ConditionMissing(i, key) in r <==>
            !IsAlways(rule) && 1 <= i <= |ConditionsOf(rule)| && ConditionLacks(ConditionsOf(rule)[i - 1], key))
  {
    ValidateRuleParts(rule);
    ConditionIssuesReport(rule);
  }

  /** A present logic outside AND / OR / ALWAYS is reported. */
  lemma ValidateRuleLogic(rule: Rule)
    ensures forall l :: InvalidLogic(l) in ValidateRule(rule) <==> rule.logic == Some(l) && l !in Logics
  {
    ValidateRuleParts(rule);
  }

  // ---------------------------------------------------------------------
  // validate_config

  /** One problem `validate_config` reports. Positions are 1-based;
      `InRule` carries a rule's problem prefixed with its position and its id
      (`"unknown"` when it has none). */
  datatype ConfigIssue =
    | MissingRules
    | RulesNotNonEmptyList
    | MisplacedAlways(ruleId: Option<string>, position: nat)
    | NoDefaultRule
    | DuplicateIds(ids: set<string>)
    | InRule(position: nat, id: string, issue: RuleIssue)

  /** `[r.get('id') for r in rules if 'id' in r]`. */
  function Ids(rules: seq<Rule>): seq<string>
    decreases |rules|
  {
    if |rules| == 0 then []
    else (if rules[0].id.Some? then [rules[0].id.value] else []) + Ids(rules[1..])
  }

  /** `set(id for id in ids if ids.count(id) > 1)`. */
  function DuplicateIdSet(rules: seq<Rule>): set<string> {
    var ids := Ids(rules);
    set x | x in ids && multiset(ids)[x] > 1
  }

  /** No two rules that carry an id carry the same one. */
  predicate DistinctIds(rules: seq<Rule>) {
    forall i, j :: 0 <= i < j < |rules| && rules[i].id.Some? ==> rules[i].id != rules[j].id
  }

  /** The ALWAYS rules at positions `k+1..` that are not last. */
  function MisplacedIssues(rules: seq<Rule>, k: nat): (r: seq<ConfigIssue>)
    ensures forall e :: e in r ==> e.MisplacedAlways?
    ensures forall id, p: nat :: MisplacedAlways(id, p) in r <==>
      k < p < |rules| && IsAlways(rules[p - 1]) && id == rules[p - 1].id
    decreases |rules| - k
  {
    if k >= |rules| then []
    else
      (if IsAlways(rules[k]) && k != |rules| - 1 then [MisplacedAlways(rules[k].id, k + 1)] else [])
      + MisplacedIssues(rules, k + 1)
  }

  /** The id a problem line names: `rule.get('id', 'unknown')`. */
  function IdOrUnknown(rule: Rule): string {
    rule.id.GetOr("unknown")
  }

  /** `f"Rule {position} ({id}): {err}"` for each problem `err` of one rule. */
  function Prefixed(position: nat, id: string, es: seq<RuleIssue>): (r: seq<ConfigIssue>)
    ensures |r| == |es|
    ensures forall j :: 0 <= j < |r| ==> r[j] == InRule(position, id, es[j])
  {
    seq(|es|, j requires 0 <= j < |es| => InRule(position, id, es[j]))
  }

  lemma PrefixedMembers(position: nat, id: string, es: seq<RuleIssue>)
    ensures forall e :: e in Prefixed(position, id, es) ==> e.InRule?
    ensures forall p: nat, i, e :: InRule(p, i, e) in Prefixed(position, id, es) <==>
      p == position && i == id && e in es
  {
    var r := Prefixed(position, id, es);
    forall e | e in es
      ensures InRule(position, id, e) in r
    {
      var j :| 0 <= j < |es| && es[j] == e;
      assert r[j] == InRule(position, id, e);
    }
  }

  /** `validate_rule` of each rule, in list order. */
  function PerRule(rules: seq<Rule>): (r: seq<seq<RuleIssue>>)
    ensures |r| == |rules|
    ensures forall j :: 0 <= j < |rules| ==> r[j] == ValidateRule(rules[j])
  {
    seq(|rules|, j requires 0 <= j < |rules| => ValidateRule(rules[j]))
  }

  /** The id each rule is reported under, in list order. */
  function IdsOrUnknown(rules: seq<Rule>): (r: seq<string>)
    ensures |r| == |rules|
    ensures forall j :: 0 <= j < |rules| ==> r[j] == IdOrUnknown(rules[j])
  {
    seq(|rules|, j requires 0 <= j < |rules| => IdOrUnknown(rules[j]))
  }

  /** The prefixed problem lists from position `k+1` on, joined in order:
      `issues[j]` are the problems of the rule at position `j+1`, reported
      under `ids[j]`. */
  function Collect(ids: seq<string>, issues: seq<seq<RuleIssue>>, k: nat): (r: seq<ConfigIssue>)
    requires |ids| == |issues|
    ensures k >= |issues| ==> r == []
    decreases |issues| - k
  {
    if k >= |issues| then []
    else Prefixed(k + 1, ids[k], issues[k]) + Collect(ids, issues, k + 1)
  }

  /** Every collected problem is a per-rule problem. */
  lemma {:induction false} CollectInRule(ids: seq<string>, issues: seq<seq<RuleIssue>>, k: nat)
    requires |ids| == |issues|
    ensures forall e :: e in Collect(ids, issues, k) ==> e.InRule?
    decreases |issues| - k
  {
    if k < |issues| {
      var here := Prefixed(k + 1, ids[k], issues[k]);
      assert Collect(ids, issues, k) == here + Collect(ids, issues, k + 1);
      CollectInRule(ids, issues, k + 1);
      assert forall e :: e in here ==> e.InRule?;
    }
  }

  /** Every collected problem names the position and id it was collected
      under, and every problem of every list from `k+1` on is collected. */
  lemma {:induction false} CollectReports(ids: seq<string>, issues: seq<seq<RuleIssue>>, k: nat)
    requires |ids| == |issues|
    ensures forall p: nat, id, e :: InRule(p, id, e) in Collect(ids, issues, k) <==>
      k < p <= |issues| && id == ids[p - 1] && e in issues[p - 1]
    decreases |issues| - k
  {
    if k < |issues| {
      CollectReports(ids, issues, k + 1);
      PrefixedMembers(k + 1, ids[k], issues[k]);
      var here := Prefixed(k + 1, ids[k], issues[k]);
      var rest := Collect(ids, issues, k + 1);
      assert forall e :: e in here + rest <==> e in here || e in rest;
    }
  }

  /** Nothing is collected exactly when every list from `k+1` on is empty. */
  lemma {:induction false} CollectEmpty(ids: seq<string>, issues: seq<seq<RuleIssue>>, k: nat)
    requires |ids| == |issues|
    ensures Collect(ids, issues, k) == [] <==> forall j :: k <= j < |issues| ==> issues[j] == []
    decreases |issues| - k
  {
    if k < |issues| {
      var here := Prefixed(k + 1, ids[k], issues[k]);
      assert Collect(ids, issues, k) == here + Collect(ids, issues, k + 1);
      CollectEmpty(ids, issues, k + 1);
    }
  }

  /** The per-rule problems of a rule list: each problem of each rule,
      prefixed with the rule's 1-based position and its id. */
  function RuleIssues(rules: seq<Rule>): seq<ConfigIssue> {
    Collect(IdsOrUnknown(rules), PerRule(rules), 0)
  }

  /** Every per-rule problem is reported as such. */
  lemma RuleIssuesInRule(rules: seq<Rule>)
    ensures forall e :: e in RuleIssues(rules) ==> e.InRule?
  {
    CollectInRule(IdsOrUnknown(rules), PerRule(rules), 0);
  }

  /** Every per-rule problem carries its rule's position and id. */
  lemma RuleIssuesReports(rules: seq<Rule>)
    ensures forall p: nat, id, e :: InRule(p, id, e) in RuleIssues(rules) <==>
      0 < p <= |rules| && id == IdOrUnknown(rules[p - 1]) && e in ValidateRule(rules[p - 1])
  {
    CollectReports(IdsOrUnknown(rules), PerRule(rules), 0);
  }

  /** No per-rule problem is reported exactly when every rule is well
      formed. */
  lemma RuleIssuesEmpty(rules: seq<Rule>)
    ensures RuleIssues(rules) == [] <==> AllWellFormed(rules)
  {
    CollectEmpty(IdsOrUnknown(rules), PerRule(rules), 0);
  }

  /** The rule sets `validate_config` accepts: at least one rule, exactly one
      ALWAYS rule and it is last, distinct ids, and every rule well formed. */
  predicate CertifiedRules(rules: seq<Rule>) {
    && |rules| > 0
    && DefaultLastOnly(rules)
    && DistinctIds(rules)
    && AllWellFormed(rules)
  }

  /** Every rule passes `validate_rule`. */
  predicate AllWellFormed(rules: seq<Rule>) {
    forall j :: 0 <= j < |rules| ==> WellFormedRule(rules[j])
  }

  /** The last rule is ALWAYS and no other rule is. */
  predicate DefaultLastOnly(rules: seq<Rule>)
    requires |rules| > 0
  {
    IsAlways(rules[|rules| - 1]) && forall i :: 0 <= i < |rules| - 1 ==> !IsAlways(rules[i])
  }

  predicate Certified(c: Config) {
    c.rules.Some? && c.rules.value.RuleList? && CertifiedRules(c.rules.value.rules)
  }

  predicate HasDefault(rules: seq<Rule>) {
    exists i :: 0 <= i < |rules| && IsAlways(rules[i])
  }

  /** The problems `validate_config` finds in a non-empty rule list, in the
      order it reports them. */
  function RuleListIssues(rules: seq<Rule>): (r: seq<ConfigIssue>)
    ensures !HasDefault(rules) ==> NoDefaultRule in r
    ensures DuplicateIdSet(rules) != {} ==> DuplicateIds(DuplicateIdSet(rules)) in r
    ensures |r| >= |RuleIssues(rules)|
  {
    var dups := DuplicateIdSet(rules);
    MisplacedIssues(rules, 0)
    + ((if HasDefault(rules) then [] else [NoDefaultRule])
       + ((if dups != {} then [DuplicateIds(dups)] else [])
          + RuleIssues(rules)))
  }

  /** `validate_config`. A missing, non-list or empty `rules` entry gives
      exactly one problem and nothing else is checked. */
  function ValidateConfig(c: Config): (r: seq<ConfigIssue>)
    ensures c.rules.None? ==> r == [MissingRules]
    ensures (c.rules.Some? && c.rules.value.NotAList?) || c.rules == Some(RuleList([])) ==> r == [RulesNotNonEmptyList]
  {
    match c.rules
    case None => [MissingRules]
    case Some(NotAList(_)) => [RulesNotNonEmptyList]
    case Some(RuleList(rules)) =>
      if |rules| == 0 then [RulesNotNonEmptyList] else RuleListIssues(rules)
  }

  /** The four parts of `RuleListIssues`, in the order it joins them. */
  lemma RuleListParts(rules: seq<Rule>)
    ensures var dups := DuplicateIdSet(rules);
      var n := if HasDefault(rules) then [] else [NoDefaultRule];
      var d := if dups != {} then [DuplicateIds(dups)] else [];
      var m := MisplacedIssues(rules, 0);
      var t := RuleIssues(rules);
      && (forall e :: e in RuleListIssues(rules) <==> e in m || e in n || e in d || e in t)
      && (RuleListIssues(rules) == [] <==> m == [] && n == [] && d == [] && t == [])
  {
  }

  /** A missing default is reported exactly when no rule is ALWAYS. */
  lemma RuleListDefault(rules: seq<Rule>)
    ensures NoDefaultRule in RuleListIssues(rules) <==> !HasDefault(rules)
  {
    RuleListParts(rules);
    RuleIssuesInRule(rules);
  }

  /** One misplaced-ALWAYS problem for each ALWAYS rule that is not last. */
  lemma RuleListMisplaced(rules: seq<Rule>)
    ensures forall id, p: nat :: MisplacedAlways(id, p) in RuleListIssues(rules) <==>
      0 < p < |rules| && IsAlways(rules[p - 1]) && id == rules[p - 1].id
  {
    RuleListParts(rules);
    RuleIssuesInRule(rules);
  }

  /** The only duplicate-id problem there can be names the shared ids. */
  lemma RuleListDuplicates(rules: seq<Rule>)
    ensures forall s :: DuplicateIds(s) in RuleListIssues(rules) <==>
      DuplicateIdSet(rules) != {} && s == DuplicateIdSet(rules)
  {
    RuleListParts(rules);
    RuleIssuesInRule(rules);
  }

  /** Every problem of every rule appears, prefixed with the rule's 1-based
      position and its id. */
  lemma RuleListRuleIssues(rules: seq<Rule>)
    ensures forall p: nat, id, e :: InRule(p, id, e) in RuleListIssues(rules) <==>
      0 < p <= |rules| && id == IdOrUnknown(rules[p - 1]) && e in ValidateRule(rules[p - 1])
  {
    RuleListParts(rules);
    RuleIssuesReports(rules);
    forall p: nat, id, e
      ensures InRule(p, id, e) in RuleListIssues(rules) <==> InRule(p, id, e) in RuleIssues(rules)
    {
    }
  }

  /** For a non-empty rule list: a missing default is reported exactly when
      no rule is ALWAYS. */
  lemma ValidateConfigDefault(c: Config)
    requires c.rules.Some? && c.rules.value.RuleList? && |c.rules.value.rules| > 0
    ensures NoDefaultRule in ValidateConfig(c) <==> !HasDefault(c.rules.value.rules)
  {
    var rules := c.rules.value.rules;
    assert ValidateConfig(c) == RuleListIssues(rules);
    RuleListDefault(rules);
  }

  /** For a non-empty rule list: one misplaced-ALWAYS problem for each ALWAYS
      rule that is not last, naming its id and 1-based position. */
  lemma ValidateConfigMisplaced(c: Config)
    requires c.rules.Some? && c.rules.value.RuleList? && |c.rules.value.rules| > 0
    ensures var rules := c.rules.value.rules;
      forall id, p: nat :: MisplacedAlways(id, p) in ValidateConfig(c) <==>
        0 < p < |rules| && IsAlways(rules[p - 1]) && id == rules[p - 1].id
  {
    var rules := c.rules.value.rules;
    assert ValidateConfig(c) == RuleListIssues(rules);
    RuleListMisplaced(rules);
  }

  /** For a non-empty rule list: a duplicate-id problem appears exactly when
      two rules share an id, and it names every shared id. */
  lemma ValidateConfigDuplicates(c: Config)
    requires c.rules.Some? && c.rules.value.RuleList? && |c.rules.value.rules| > 0
    ensures var rules := c.rules.value.rules;
      && ((exists s :: DuplicateIds(s) in ValidateConfig(c)) <==> !DistinctIds(rules))
      && (forall s :: DuplicateIds(s) in ValidateConfig(c) ==>
            forall x :: x in s <==> TwoCarry(rules, x))
  {
    var rules := c.rules.value.rules;
    assert ValidateConfig(c) == RuleListIssues(rules);
    RuleListDuplicates(rules);
    NoDuplicatesIffDistinct(rules);
    DuplicateIdSetMembers(rules);
  }

  /** The ids the duplicate-id problem names are those two rules share. */
  lemma DuplicateIdSetMembers(rules: seq<Rule>)
    ensures forall x :: x in DuplicateIdSet(rules) <==> TwoCarry(rules, x)
  {
    forall x
      ensures x in DuplicateIdSet(rules) <==> TwoCarry(rules, x)
    {
      IdsCount(rules, x);
      IdsMembership(rules, x);
    }
  }

  /** For a non-empty rule list: every problem of every rule, prefixed with
      the rule's 1-based position and its id. */
  lemma ValidateConfigRuleIssues(c: Config)
    requires c.rules.Some? && c.rules.value.RuleList? && |c.rules.value.rules| > 0
    ensures var rules := c.rules.value.rules;
      forall p: nat, id, e :: InRule(p, id, e) in ValidateConfig(c) <==>
        0 < p <= |rules| && id == IdOrUnknown(rules[p - 1]) && e in ValidateRule(rules[p - 1])
  {
    var rules := c.rules.value.rules;
    assert ValidateConfig(c) == RuleListIssues(rules);
    RuleListRuleIssues(rules);
  }

  /** `validate_config` returns no problems exactly for certified rule sets:
      the ALWAYS rule is last and unique, ids are distinct, and every rule
      passes `validate_rule`. */
  lemma ValidateConfigAccepts(c: Config)
    ensures ValidateConfig(c) == [] <==> Certified(c)
  {
    match c.rules
    case None =>
    case Some(NotAList(_)) =>
    case Some(RuleList(rules)) =>
      if |rules| > 0 {
        assert ValidateConfig(c) == RuleListIssues(rules);
        RuleListAccepts(rules);
      }
  }

  lemma RuleListAccepts(rules: seq<Rule>)
    requires |rules| > 0
    ensures RuleListIssues(rules) == [] <==> CertifiedRules(rules)
  {
    RuleListParts(rules);
    NoDuplicatesIffDistinct(rules);
    RuleIssuesEmpty(rules);
    MisplacedEmpty(rules);
  }

  /** No misplaced ALWAYS rule, together with some ALWAYS rule, means the
      last rule is the only ALWAYS rule. */
  lemma MisplacedEmpty(rules: seq<Rule>)
    requires |rules| > 0
    ensures MisplacedIssues(rules, 0) == [] && HasDefault(rules) <==> DefaultLastOnly(rules)
  {
    var m := MisplacedIssues(rules, 0);
    if m == [] {
      assert forall i :: 0 <= i < |rules| - 1 ==> MisplacedAlways(rules[i].id, i + 1) !in m;
    } else {
      assert m[0] in m;
    }
  }


  lemma {:induction false} IdsMembership(rules: seq<Rule>, x: string)
    ensures x in Ids(rules) <==> exists i :: 0 <= i < |rules| && rules[i].id == Some(x)
    decreases |rules|
  {
    if |rules| > 0 {
      IdsMembership(rules[1..], x);
      if exists i :: 0 <= i < |rules[1..]| && rules[1..][i].id == Some(x) {
        var i :| 0 <= i < |rules[1..]| && rules[1..][i].id == Some(x);
        assert rules[i + 1].id == Some(x);
      }
      if exists i :: 0 <= i < |rules| && rules[i].id == Some(x) {
        var i :| 0 <= i < |rules| && rules[i].id == Some(x);
        if i > 0 {
          assert rules[1..][i - 1].id == Some(x);
        }
      }
    }
  }

  /** Two different rules of `rules` carry the id `x`. */
  predicate TwoCarry(rules: seq<Rule>, x: string) {
    exists i, j :: 0 <= i < j < |rules| && rules[i].id == Some(x) && rules[j].id == Some(x)
  }

  /** Two rules carry `x` exactly when two later ones do, or the first one
      and a later one do. */
  lemma TwoCarryCons(rules: seq<Rule>, x: string)
    requires |rules| > 0
    ensures TwoCarry(rules, x) <==>
      TwoCarry(rules[1..], x) || (rules[0].id == Some(x) && exists i :: 0 <= i < |rules[1..]| && rules[1..][i].id == Some(x))
  {
    var tail := rules[1..];
    if TwoCarry(tail, x) {
      var i, j :| 0 <= i < j < |tail| && tail[i].id == Some(x) && tail[j].id == Some(x);
      assert rules[i + 1].id == Some(x) && rules[j + 1].id == Some(x);
    }
    if rules[0].id == Some(x) && exists i :: 0 <= i < |tail| && tail[i].id == Some(x) {
      var i :| 0 <= i < |tail| && tail[i].id == Some(x);
      assert rules[i + 1].id == Some(x);
    }
    if TwoCarry(rules, x) {
      var i, j :| 0 <= i < j < |rules| && rules[i].id == Some(x) && rules[j].id == Some(x);
      assert tail[j - 1].id == Some(x);
      if i > 0 {
        assert tail[i - 1].id == Some(x);
      }
    }
  }

  /** `ids.count(x) > 1` holds exactly when two different rules carry `x`. */
  lemma {:induction false} IdsCount(rules: seq<Rule>, x: string)
    ensures multiset(Ids(rules))[x] > 1 <==> TwoCarry(rules, x)
    decreases |rules|
  {
    if |rules| > 0 {
      var tail := rules[1..];
      var head := if rules[0].id.Some? then [rules[0].id.value] else [];
      assert Ids(rules) == head + Ids(tail);
      assert multiset(Ids(rules)) == multiset(head) + multiset(Ids(tail));
      assert multiset(head)[x] == if rules[0].id == Some(x) then 1 else 0;
      IdsCount(tail, x);
      IdsMembership(tail, x);
      TwoCarryCons(rules, x);
    }
  }

  /** The duplicate-id check finds nothing exactly when the ids are distinct. */
  lemma NoDuplicatesIffDistinct(rules: seq<Rule>)
    ensures DuplicateIdSet(rules) == {} <==> DistinctIds(rules)
  {
    if DuplicateIdSet(rules) != {} {
      var x :| x in DuplicateIdSet(rules);
      IdsCount(rules, x);
      var i, j :| 0 <= i < j < |rules| && rules[i].id == Some(x) && rules[j].id == Some(x);
      assert !DistinctIds(rules);
    }
    if !DistinctIds(rules) {
      var i, j :| 0 <= i < j < |rules| && rules[i].id.Some? && rules[i].id == rules[j].id;
      var x := rules[i].id.value;
      IdsCount(rules, x);
      IdsMembership(rules, x);
      assert x in DuplicateIdSet(rules);
    }
  }
}
