/** How the two halves fit together: what a rule set that `validate_config`
    accepts guarantees when the engine runs it, where that guarantee stops,
    and which edits keep a rule set acceptable. */
module Governance {
  import opened Wrappers
  import opened Values
  import opened Models
  import opened Rules
  import opened RuleEngine
  import opened ConfigValidation
  import opened RuleEdits

  /** The rule list of an accepted document. */
  function AcceptedRules(c: Config): (rules: seq<Rule>)
    requires ValidateConfig(c) == []
    ensures CertifiedRules(rules)
  {
    ValidateConfigAccepts(c);
    c.rules.value.rules
  }

  /** The last rule of a certified rule set matches every record, so
      `evaluate` never reaches its "no matching rule" error. */
  lemma CertifiedAlwaysMatches(rules: seq<Rule>, record: Record)
    requires CertifiedRules(rules)
    ensures EvaluateRule(rules[|rules| - 1], record) == Success(true)
    ensures Evaluate(rules, record) != Failure(NoMatchingRule)
  {
    assert !NoMatchBefore(rules, record, |rules|);
  }

  /** On a rule set `validate_config` accepts, `evaluate` never reaches its
      "no matching rule" error. */
  lemma AcceptedAlwaysMatches(c: Config, record: Record)
    requires ValidateConfig(c) == []
    ensures Evaluate(AcceptedRules(c), record) != Failure(NoMatchingRule)
  {
    CertifiedAlwaysMatches(AcceptedRules(c), record);
  }

  /** On a certified rule set, when no rule that `evaluate` reaches raises
      (rules after the first match are never run) and the record's
      transaction id is a string, some rule is the first to match, and
      `evaluate` returns that rule's id, name and outcome exactly when the
      rule's reason is a string (the validator only checks it is present). */
  lemma CertifiedReportsFirstMatch(rules: seq<Rule>, record: Record)
    requires CertifiedRules(rules)
    requires TransactionIdOf(record).Str?
    requires forall i :: 0 <= i < |rules| && NoMatchBefore(rules, record, i) ==> EvaluateRule(rules[i], record).Success?
    ensures exists i ::
      && IsFirstMatch(rules, record, i)
      && (Evaluate(rules, record).Success? <==> rules[i].outcome.value.reason.value.Str?)
      && (Evaluate(rules, record).Success? ==> Reports(Evaluate(rules, record).value, rules[i], TransactionIdOf(record)))
  {
    CertifiedAlwaysMatches(rules, record);
    var m := FirstMatch(rules, record);
    assert m.Success? && m.value.Some?;
    var i := m.value.value;
    assert IsFirstMatch(rules, record, i);
    assert WellFormedRule(rules[i]);
    WellFormedReportable(rules[i], TransactionIdOf(record));
  }

  /** A rule `validate_rule` accepts can be reported, for a string transaction
      id, exactly when its reason is a string. */
  lemma WellFormedReportable(rule: Rule, txId: Scalar)
    requires WellFormedRule(rule) && txId.Str?
    ensures Reportable(rule, txId) <==> rule.outcome.value.reason.value.Str?
  {
    assert ValidRiskInput(rule.outcome.value.riskScore.value);
  }

  /** The same for a document `validate_config` accepts. */
  lemma AcceptedReportsFirstMatch(c: Config, record: Record)
    requires ValidateConfig(c) == []
    requires TransactionIdOf(record).Str?
    requires forall i :: 0 <= i < |AcceptedRules(c)| && NoMatchBefore(AcceptedRules(c), record, i) ==>
      EvaluateRule(AcceptedRules(c)[i], record).Success?
    ensures var rules := AcceptedRules(c);
      exists i ::
        && IsFirstMatch(rules, record, i)
        && (Evaluate(rules, record).Success? <==> rules[i].outcome.value.reason.value.Str?)
        && (Evaluate(rules, record).Success? ==> Reports(Evaluate(rules, record).value, rules[i], TransactionIdOf(record)))
  {
    CertifiedReportsFirstMatch(AcceptedRules(c), record);
  }

  // ---------------------------------------------------------------------
  // Where validation stops short

  /** `validate_rule` only checks that a condition names an operator, so an
      accepted rule set can still make `evaluate` raise on an unknown one. */
  lemma UnknownOperatorAccepted()
    ensures var rules := [TildeRule(), DefaultRule()];
      && ValidateConfig(Config(None, Some(RuleList(rules)))) == []
      && Evaluate(rules, map["amount" := Int(5)]) == Failure(UnknownOperator("~"))
  {
    TildeRulesCertified();
    ValidateConfigAccepts(Config(None, Some(RuleList([TildeRule(), DefaultRule()]))));
    TildeRuleRaises();
  }

  lemma TildeRulesCertified()
    ensures CertifiedRules([TildeRule(), DefaultRule()])
  {
    assert WellFormedRule(TildeRule()) by {
      assert forall x :: x in ConditionsOf(TildeRule()) ==> HasAllKeys(x);
    }
    assert WellFormedRule(DefaultRule());
  }

  lemma TildeRuleRaises()
    ensures Evaluate([TildeRule(), DefaultRule()], map["amount" := Int(5)]) == Failure(UnknownOperator("~"))
  {
    var record := map["amount" := Int(5)];
    var cond := Condition(Some("amount"), Some("~"), Some(Single(Int(1))));
    assert EvaluateCondition(cond, record) == Failure(UnknownOperator("~"));
    assert ConditionsOf(TildeRule()) == [cond];
    assert EvaluateAll([cond], record) == Failure(UnknownOperator("~"));
    assert EvaluateRule(TildeRule(), record) == Failure(UnknownOperator("~"));
  }

  function TildeRule(): Rule {
    Rule(Some("R1"), Some("tilde"), Some(AND),
      Some([Condition(Some("amount"), Some("~"), Some(Single(Int(1))))]),
      Some(Outcome(Some(Int(80)), Some(Str("BLOCK")), Some(Str("odd amount")))))
  }

  function DefaultRule(): Rule {
    Rule(Some("DEFAULT"), Some("default"), Some(ALWAYS), None,
      Some(Outcome(Some(Int(0)), Some(Str("ALLOW")), Some(Str("no rule fired")))))
  }

  /** The same rule with a different `reason` value. */
  function WithReason(rule: Rule, v: Scalar): Rule
    requires rule.outcome.Some?
  {
    rule.(outcome := Some(rule.outcome.value.(reason := Some(v))))
  }

  /** `validate_rule` only checks that a reason is present: any present
      value, the empty string or a non-string included, is judged alike. */
  lemma ReasonOnlyPresenceChecked(rule: Rule, v: Scalar)
    requires rule.outcome.Some? && rule.outcome.value.reason.Some?
    ensures ValidateRule(WithReason(rule, v)) == ValidateRule(rule)
  {
    var r2 := WithReason(rule, v);
    assert MissingFieldIssues(r2) == MissingFieldIssues(rule);
    assert ConditionIssues(r2) == ConditionIssues(rule);
    assert LogicIssues(r2) == LogicIssues(rule);
    assert OutcomeIssues(r2) == OutcomeIssues(rule);
  }

  /** `reorder_rules` keeps only requested ids: leaving out the id of the
      ALWAYS rule gives a rule set `validate_config` rejects. */
  lemma ReorderWithoutDefaultRejected(c: Config, ids: seq<string>)
    requires ValidateConfig(c) == []
    requires AcceptedRules(c)[|AcceptedRules(c)| - 1].id.value !in ids
    ensures ValidateConfig(WithRules(c, Reorder(AcceptedRules(c), ids))) != []
  {
    var rules := AcceptedRules(c);
    var r := Reorder(rules, ids);
    ReorderMembers(rules, ids);
    ValidateConfigAccepts(WithRules(c, r));
    if |r| > 0 {
      var x := r[|r| - 1];
      assert x in r;
      var k, i :| 0 <= k < |ids| && IsLastWithId(rules, ids[k], i) && rules[i] == x;
      assert i != |rules| - 1;
      assert !IsAlways(x);
    }
  }

  // ---------------------------------------------------------------------
  // Edits that keep a rule set certified

  /** No rule in `rules` carries the id `id`. */
  predicate FreshId(rules: seq<Rule>, id: Option<string>) {
    id.Some? && forall i :: 0 <= i < |rules| ==> rules[i].id != id
  }

  /** Adding a well-formed, non-ALWAYS rule with a fresh id at the default
      position keeps a rule set certified. */
  lemma AddKeepsCertified(rules: seq<Rule>, rule: Rule)
    requires CertifiedRules(rules)
    requires WellFormedRule(rule) && !IsAlways(rule) && FreshId(rules, rule.id)
    ensures CertifiedRules(AddToList(rules, rule, None))
  {
    AddAtDefault(rules, rule);
    BeforeLastCertified(rules, rule);
  }

  /** With the ALWAYS rule last, the default position is just before it. */
  lemma AddAtDefault(rules: seq<Rule>, rule: Rule)
    requires CertifiedRules(rules)
    ensures AddToList(rules, rule, None) == BeforeLast(rules, rule)
  {
    var p := |rules| - 1;
    assert DefaultIndex(rules) == p;
    var r := AddToList(rules, rule, None);
    AddToListShape(rules, rule, None);
    assert r[p + 1..] == rules[p..] == [rules[p]];
    assert r == r[..p] + [r[p]] + r[p + 1..];
  }

  /** `rule` placed just before the last rule of `rules`. */
  function BeforeLast(rules: seq<Rule>, rule: Rule): seq<Rule>
    requires |rules| > 0
  {
    rules[..|rules| - 1] + [rule] + [rules[|rules| - 1]]
  }

  lemma BeforeLastCertified(rules: seq<Rule>, rule: Rule)
    requires CertifiedRules(rules)
    requires WellFormedRule(rule) && !IsAlways(rule) && FreshId(rules, rule.id)
    ensures CertifiedRules(BeforeLast(rules, rule))
  {
    var p := |rules| - 1;
    var r := BeforeLast(rules, rule);
    assert forall j :: 0 <= j < p ==> r[j] == rules[j];
    assert r[p] == rule && r[p + 1] == rules[p];
    assert DefaultLastOnly(r);
    assert AllWellFormed(r);
    BeforeLastDistinct(rules, rule);
  }

  lemma BeforeLastDistinct(rules: seq<Rule>, rule: Rule)
    requires |rules| > 0 && DistinctIds(rules) && FreshId(rules, rule.id)
    ensures DistinctIds(BeforeLast(rules, rule))
  {
    var p := |rules| - 1;
    var r := BeforeLast(rules, rule);
    forall i, j | 0 <= i < j < |r| && r[i].id.Some?
      ensures r[i].id != r[j].id
    {
      if j == p {
        assert r[i] == rules[i];
      } else if i == p {
        assert r[j] == rules[p];
      } else if j == p + 1 {
        assert r[i] == rules[i] && r[j] == rules[p];
      } else {
        assert r[i] == rules[i] && r[j] == rules[j];
      }
    }
  }

  /** Deleting the rules with an id other than the ALWAYS rule's keeps a
      rule set certified. */
  lemma DeleteKeepsCertified(rules: seq<Rule>, id: string)
    requires CertifiedRules(rules)
    requires rules[|rules| - 1].id != Some(id)
    ensures CertifiedRules(RemoveId(rules, id))
  {
    RemoveKeepsLast(rules, id);
    var kept := RemoveId(rules[..|rules| - 1], id);
    KeptFrontCertified(rules, kept);
    RemoveIdDistinct(rules, id);
  }

  /** Removing an id the last rule does not carry keeps the last rule last. */
  lemma RemoveKeepsLast(rules: seq<Rule>, id: string)
    requires |rules| > 0 && rules[|rules| - 1].id != Some(id)
    ensures RemoveId(rules, id) == RemoveId(rules[..|rules| - 1], id) + [rules[|rules| - 1]]
  {
    SplitLast(rules);
    RemoveIdSnoc(rules[..|rules| - 1], rules[|rules| - 1], id);
  }

  /** A non-empty list is its front followed by its last element. */
  lemma SplitLast(rules: seq<Rule>)
    requires |rules| > 0
    ensures rules == rules[..|rules| - 1] + [rules[|rules| - 1]]
  {
  }

  /** Removing an id from a list with one more rule, which does not carry
      the id, at its end keeps that rule at the end. */
  lemma RemoveIdSnoc(front: seq<Rule>, last: Rule, id: string)
    requires last.id != Some(id)
    ensures RemoveId(front + [last], id) == RemoveId(front, id) + [last]
  {
    RemoveIdAppend(front, [last], id);
    RemoveIdKeepsOther(last, id);
  }

  /** A one-rule list whose rule does not carry `id` is kept whole. */
  lemma RemoveIdKeepsOther(rule: Rule, id: string)
    requires rule.id != Some(id)
    ensures RemoveId([rule], id) == [rule]
  {
    assert [rule][1..] == [];
  }

  /** Rules taken from the front of a certified list, followed by its last
      rule, make a list whose ALWAYS rule is last and whose rules are all
      well formed. */
  lemma KeptFrontCertified(rules: seq<Rule>, kept: seq<Rule>)
    requires CertifiedRules(rules)
    requires forall x :: x in kept ==> x in rules[..|rules| - 1]
    ensures DefaultLastOnly(kept + [rules[|rules| - 1]])
    ensures AllWellFormed(kept + [rules[|rules| - 1]])
  {
    var front := rules[..|rules| - 1];
    var r := kept + [rules[|rules| - 1]];
    assert forall x :: x in front ==> !IsAlways(x) && WellFormedRule(x);
    forall j | 0 <= j < |kept|
      ensures kept[j] in front && r[j] == kept[j]
    {
      assert kept[j] in kept;
    }
  }

  lemma {:induction false} RemoveIdDistinct(rules: seq<Rule>, id: string)
    requires DistinctIds(rules)
    ensures DistinctIds(RemoveId(rules, id))
    decreases |rules|
  {
    if |rules| > 0 {
      var tail := rules[1..];
      DistinctTail(rules);
      RemoveIdDistinct(tail, id);
      if !HasId(rules[0], id) {
        HeadIdUnique(rules);
        var rest := RemoveId(tail, id);
        assert forall x :: x in rest ==> x in tail;
        DistinctCons(rules[0], rest);
        assert RemoveId(rules, id) == [rules[0]] + rest;
      }
    }
  }

  lemma DistinctTail(rules: seq<Rule>)
    requires DistinctIds(rules) && |rules| > 0
    ensures DistinctIds(rules[1..])
  {
    var tail := rules[1..];
    assert forall i :: 0 <= i < |tail| ==> tail[i] == rules[i + 1];
  }

  /** In a list with distinct ids, no later rule repeats the first one's id. */
  lemma HeadIdUnique(rules: seq<Rule>)
    requires DistinctIds(rules) && |rules| > 0
    ensures forall x :: x in rules[1..] ==> rules[0].id.Some? ==> x.id != rules[0].id
  {
    var tail := rules[1..];
    assert forall j :: 0 <= j < |tail| ==> tail[j] == rules[j + 1];
  }

  /** A rule whose id no rule of `rest` repeats can go in front of `rest`. */
  lemma DistinctCons(x: Rule, rest: seq<Rule>)
    requires DistinctIds(rest)
    requires forall y :: y in rest ==> x.id.Some? ==> y.id != x.id
    ensures DistinctIds([x] + rest)
  {
    var r := [x] + rest;
    forall i, j | 0 <= i < j < |r| && r[i].id.Some?
      ensures r[i].id != r[j].id
    {
      if i == 0 {
        assert r[j] in rest;
      } else {
        assert r[i] == rest[i - 1] && r[j] == rest[j - 1];
      }
    }
  }
}
