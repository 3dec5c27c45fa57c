/** `get_next_rule_id`: the next free id of the form `RULE_nnn`. */
module RuleIds {
  import opened Wrappers
  import opened Numerals
  import opened Rules

  const RulePrefix := "RULE_"

  /** Why `get_next_rule_id` cannot read the rule list: the value under
      `rules` is neither a list nor an empty string or mapping, so iterating
      it or calling `.get` on its first element raises. */
  datatype IdError = RulesNotAList

  predicate HasRulePrefix(id: string) {
    |id| >= |RulePrefix| && id[..|RulePrefix|] == RulePrefix
  }

  /** `s.split('_')[0]`: the text before the first underscore. */
  function FirstSegment(s: string): (r: string)
    ensures |r| <= |s| && r == s[..|r|]
    ensures '_' !in r
    ensures |r| < |s| ==> s[|r|] == '_'
    decreases |s|
  {
    if |s| == 0 || s[0] == '_' then [] else [s[0]] + FirstSegment(s[1..])
  }

  /** `int(rule_id.split('_')[1])` for an id that starts with `RULE_`;
      `None` for other ids and where `int()` raises `ValueError`. Index 1
      always exists once the prefix is there, so `IndexError` cannot occur. */
  function RuleNumber(id: string): Option<int> {
    if HasRulePrefix(id) then ParseInt(FirstSegment(id[|RulePrefix|..])) else None
  }

  /** The numbers read from the ids of `rules`, in list order. A rule
      without an id contributes `''`, which has no number. */
  function Numbers(rules: seq<Rule>): (ns: seq<int>)
    decreases |rules|
  {
    if |rules| == 0 then []
    else (match NumberOf(rules[0]) case Some(n) => [n] case None => []) + Numbers(rules[1..])
  }

  /** The numbers read are exactly those some rule's id carries. */
  lemma {:induction false} NumbersMembers(rules: seq<Rule>)
    ensures forall n :: n in Numbers(rules) <==> exists i :: 0 <= i < |rules| && NumberOf(rules[i]) == Some(n)
    decreases |rules|
  {
    if |rules| > 0 {
      NumbersMembers(rules[1..]);
      assert forall i :: 1 <= i < |rules| ==> rules[i] == rules[1..][i - 1];
    }
  }

  function NumberOf(r: Rule): Option<int> {
    RuleNumber(r.id.GetOr(""))
  }

  /** `max(numbers, default=0)`. */
  function MaxOrZero(ns: seq<int>): (m: int)
    ensures |ns| == 0 ==> m == 0
    ensures |ns| > 0 ==> m in ns
    ensures forall k :: 0 <= k < |ns| ==> ns[k] <= m
    decreases |ns|
  {
    if |ns| == 0 then 0
    else if |ns| == 1 then ns[0]
    else
      var m := MaxOrZero(ns[1..]);
      assert forall k :: 1 <= k < |ns| ==> ns[k] == ns[1..][k - 1];
      if ns[0] >= m then ns[0] else m
  }

  /** The document's rules can be walked by `get_next_rule_id`'s loop: the
      `rules` entry is absent (read as `[]`), a list, or an empty string or
      mapping. */
  predicate Readable(c: Config) {
    c.rules.None? || IteratedRules(c.rules.value).Some?
  }

  /** `get_next_rule_id`. An absent `rules` entry reads as the empty list. */
  function NextRuleId(c: Config): (r: Result<string, IdError>)
    ensures r.Failure? <==> c.rules.Some? && c.rules.value.NotAList? && !c.rules.value.emptyIterable
  {
    if !Readable(c) then Failure(RulesNotAList) else Success(NextIdFor(RulesRead(c)))
  }

  /** The id after the largest number the ids of `rules` carry. */
  function NextIdFor(rules: seq<Rule>): (id: string)
    ensures RuleNumber(id) == Some(MaxOrZero(Numbers(rules)) + 1)
  {
    var n := MaxOrZero(Numbers(rules)) + 1;
    RuleNumberOfFormat(n);
    IdFor(n)
  }

  /** `f"RULE_{n:03d}"`. */
  function IdFor(n: int): string {
    RulePrefix + Format03(n)
  }

  /** The rules of a document as `get_next_rule_id` reads them. */
  function RulesRead(c: Config): seq<Rule>
    requires Readable(c)
  {
    if c.rules.None? then [] else IteratedRules(c.rules.value).value
  }

  /** Every character of `f"{n:03d}"` is a digit or a minus sign. */
  lemma Format03Chars(n: int)
    ensures forall k :: 0 <= k < |Format03(n)| ==> IsDigit(Format03(n)[k]) || Format03(n)[k] == '-'
  {
    if n < 0 {
      var body := ZeroPad(Digits(-n), 2);
      assert forall k :: 1 <= k < |"-" + body| ==> ("-" + body)[k] == body[k - 1];
    }
  }

  /** The number of an id built from `n` is `n`. */
  lemma RuleNumberOfFormat(n: int)
    ensures RuleNumber(IdFor(n)) == Some(n)
  {
    var f := Format03(n);
    var id := RulePrefix + f;
    assert id[..|RulePrefix|] == RulePrefix;
    assert id[|RulePrefix|..] == f;
    Format03Chars(n);
    assert '_' !in f;
    FirstSegmentWhole(f);
    ParseFormat03(n);
  }

  lemma {:induction false} FirstSegmentWhole(s: string)
    requires '_' !in s
    ensures FirstSegment(s) == s
    decreases |s|
  {
    if |s| > 0 {
      assert '_' !in s[1..];
      FirstSegmentWhole(s[1..]);
    }
  }

  /** The generated id carries the number one past the largest number found. */
  lemma NextRuleIdNumber(c: Config)
    requires Readable(c)
    ensures NextRuleId(c).Success?
    ensures RuleNumber(NextRuleId(c).value) == Some(MaxOrZero(Numbers(RulesRead(c))) + 1)
  {
    var rules := RulesRead(c);
    NextRuleIdValue(c);
    assert NextRuleId(c).value == NextIdFor(rules);
  }

  lemma NextRuleIdValue(c: Config)
    requires Readable(c)
    ensures NextRuleId(c) == Success(NextIdFor(RulesRead(c)))
  {
  }

  /** Every number an existing id carries is at most the maximum taken. */
  lemma NumbersBelowMax(rules: seq<Rule>)
    ensures forall i :: 0 <= i < |rules| && NumberOf(rules[i]).Some? ==>
      NumberOf(rules[i]).value <= MaxOrZero(Numbers(rules))
  {
    var ns := Numbers(rules);
    NumbersMembers(rules);
    forall i | 0 <= i < |rules| && NumberOf(rules[i]).Some?
      ensures NumberOf(rules[i]).value <= MaxOrZero(ns)
    {
      assert NumberOf(rules[i]).value in ns;
    }
  }

  /** With no numbered id the result is `RULE_001`. */
  lemma NextRuleIdFirst(c: Config)
    requires Readable(c)
    requires forall i :: 0 <= i < |RulesRead(c)| ==> NumberOf(RulesRead(c)[i]).None?
    ensures NextRuleId(c) == Success("RULE_001")
  {
    var ns := Numbers(RulesRead(c));
    NumbersMembers(RulesRead(c));
    assert forall k :: 0 <= k < |ns| ==> ns[k] in ns;
    FormatOneDigit(1);
    assert RulePrefix + ("00" + [DigitChar(1)]) == "RULE_001";
  }

  /** An empty string or mapping under `rules` is walked as no rules at
      all, so the result is `RULE_001`. */
  lemma NextRuleIdOfEmptyValue(c: Config)
    requires c.rules == Some(NotAList(true))
    ensures NextRuleId(c) == Success("RULE_001")
  {
    NextRuleIdFirst(c);
  }

  /** The generated id is not the id of any rule in the document. */
  lemma NextRuleIdFresh(c: Config)
    requires Readable(c)
    ensures forall i :: 0 <= i < |RulesRead(c)| ==> RulesRead(c)[i].id != Some(NextRuleId(c).value)
  {
    NextRuleIdNumber(c);
    var rules := RulesRead(c);
    NumbersBelowMax(rules);
    var next := NextRuleId(c).value;
    assert forall i :: 0 <= i < |rules| && rules[i].id == Some(next) ==> NumberOf(rules[i]) == RuleNumber(next);
  }

  /** A rule carrying only an id. */
  function IdOnly(id: string): Rule {
    Rule(Some(id), None, None, None, None)
  }

  /** `RULE_001` and `RULE_003` give `RULE_004`. */
  lemma NextRuleIdExample()
    ensures NextRuleId(Config(None, Some(RuleList([IdOnly("RULE_001"), IdOnly("RULE_003")])))) == Success("RULE_004")
  {
    ExampleNextId();
  }

  lemma ExampleNextId()
    ensures NextIdFor([IdOnly("RULE_001"), IdOnly("RULE_003")]) == "RULE_004"
  {
    ExampleNumbers();
    ExampleMax();
    ExampleFormat();
  }

  lemma ExampleMax()
    ensures MaxOrZero([1, 3]) == 3
  {
    assert [1, 3][1..] == [3];
  }

  lemma ExampleFormat()
    ensures IdFor(4) == "RULE_004"
  {
    FormatOneDigit(4);
    assert RulePrefix + ("00" + [DigitChar(4)]) == "RULE_004";
  }

  lemma ExampleNumbers()
    ensures Numbers([IdOnly("RULE_001"), IdOnly("RULE_003")]) == [1, 3]
  {
    var rules := [IdOnly("RULE_001"), IdOnly("RULE_003")];
    ExampleNumber(1, "RULE_001");
    ExampleNumber(3, "RULE_003");
    assert rules[1..] == [IdOnly("RULE_003")];
    assert Numbers(rules[1..]) == [3];
  }

  lemma FormatOneDigit(n: nat)
    requires n < 10
    ensures Format03(n) == "00" + [DigitChar(n)]
  {
    assert Digits(n) == [DigitChar(n)];
    assert Zeros(2) == "00";
  }

  lemma ExampleNumber(n: nat, id: string)
    requires 0 < n < 10 && id == RulePrefix + "00" + [DigitChar(n)]
    ensures NumberOf(IdOnly(id)) == Some(n)
  {
    FormatOneDigit(n);
    assert id == IdFor(n);
    RuleNumberOfFormat(n);
  }
}
