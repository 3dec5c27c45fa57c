/** The list edits `ConfigManager` applies to a rule list before saving it:
    insertion (`add_rule`), replacement (`update_rule`), removal
    (`delete_rule`) and reordering by ids (`reorder_rules`). */
module RuleEdits {
  import opened Wrappers
  import opened Rules

  /** Where `add_rule` inserts by default: the first ALWAYS rule, or the end
      of the list when there is none. */
  function DefaultIndex(rules: seq<Rule>): (i: nat)
    ensures i <= |rules|
    ensures i < |rules| ==> IsAlways(rules[i])
    ensures forall j :: 0 <= j < i ==> !IsAlways(rules[j])
    decreases |rules|
  {
    if |rules| == 0 then 0
    else if IsAlways(rules[0]) then 0
    else
      var i := DefaultIndex(rules[1..]);
      assert forall j :: 1 <= j < |rules| ==> rules[j] == rules[1..][j - 1];
      i + 1
  }

  /** The index `list.insert(position, x)` puts `x` at in a list of length
      `len`: a negative position counts from the end, and positions outside
      the list are clamped to its ends. */
  function InsertIndex(len: nat, position: int): (p: nat)
    ensures p <= len
    ensures 0 <= position <= len ==> p == position
    ensures position < 0 && 0 <= position + len ==> p == position + len
    ensures position + len < 0 ==> p == 0
    ensures position > len ==> p == len
  {
    if position < 0 then (if position + len < 0 then 0 else position + len)
    else if position > len then len
    else position
  }

  /** `rules.insert(p, rule)` for an index already clamped. */
  function InsertAt(rules: seq<Rule>, p: nat, rule: Rule): (r: seq<Rule>)
    requires p <= |rules|
    ensures |r| == |rules| + 1
    ensures r[p] == rule
    ensures r[..p] + r[p + 1..] == rules
  {
    var r := rules[..p] + [rule] + rules[p..];
    assert r[..p] == rules[..p];
    assert r[p + 1..] == rules[p..];
    r
  }

  /** The list `add_rule` saves: `rule` at `position` when one is given,
      otherwise before the first ALWAYS rule. */
  function AddToList(rules: seq<Rule>, rule: Rule, position: Option<int>): (r: seq<Rule>)
    ensures |r| == |rules| + 1
    ensures r[AddIndex(rules, position)] == rule
  {
    var p := match position
      case Some(q) => InsertIndex(|rules|, q)
      case None => DefaultIndex(rules);
    InsertAt(rules, p, rule)
  }

  /** The index `add_rule` places the new rule at. */
  function AddIndex(rules: seq<Rule>, position: Option<int>): nat {
    match position
    case Some(q) => InsertIndex(|rules|, q)
    case None => DefaultIndex(rules)
  }

  /** `add_rule` grows the list by one, puts the new rule at its index, and
      leaves the other rules in their order. */
  lemma AddToListShape(rules: seq<Rule>, rule: Rule, position: Option<int>)
    ensures var r := AddToList(rules, rule, position);
      var p := AddIndex(rules, position);
      && p <= |rules|
      && |r| == |rules| + 1
      && r[p] == rule
      && r[..p] == rules[..p]
      && r[p + 1..] == rules[p..]
  {
    var r := AddToList(rules, rule, position);
    var p := AddIndex(rules, position);
    assert r[..p] + r[p + 1..] == rules;
    assert r[..p] == rules[..p];
  }

  /** A given position lands where Python's `list.insert` puts it. */
  lemma InsertIndexCases(len: nat, position: int)
    ensures 0 <= position <= len ==> InsertIndex(len, position) == position
    ensures position < 0 && 0 <= position + len ==> InsertIndex(len, position) == position + len
    ensures position + len < 0 ==> InsertIndex(len, position) == 0
    ensures position > len ==> InsertIndex(len, position) == len
  {
  }

  /** Without a position, the new rule goes right before the first ALWAYS
      rule: every rule before it is not ALWAYS, and the rule after it is the
      first ALWAYS rule when there is one. */
  lemma AddBeforeDefault(rules: seq<Rule>, rule: Rule)
    ensures var r := AddToList(rules, rule, None);
      var p := DefaultIndex(rules);
      && r[p] == rule
      && (forall j :: 0 <= j < p ==> !IsAlways(r[j]))
      && ((exists i :: 0 <= i < |rules| && IsAlways(rules[i])) ==> p + 1 < |r| && IsAlways(r[p + 1]))
      && (!(exists i :: 0 <= i < |rules| && IsAlways(rules[i])) ==> p == |rules|)
  {
    var r := AddToList(rules, rule, None);
    var p := DefaultIndex(rules);
    AddToListShape(rules, rule, None);
    assert forall j :: 0 <= j < p ==> r[j] == r[..p][j];
    if exists i :: 0 <= i < |rules| && IsAlways(rules[i]) {
      assert p < |rules|;
      assert r[p + 1] == r[p + 1..][0];
    }
  }

  // ---------------------------------------------------------------------
  // update_rule

  predicate HasId(r: Rule, id: string) {
    r.id == Some(id)
  }

  /** The index of the first rule carrying `id`. */
  function FirstWithId(rules: seq<Rule>, id: string): (r: Option<nat>)
    ensures r.None? <==> forall i :: 0 <= i < |rules| ==> !HasId(rules[i], id)
    ensures r.Some? ==> r.value < |rules| && HasId(rules[r.value], id)
    ensures r.Some? ==> forall j :: 0 <= j < r.value ==> !HasId(rules[j], id)
    decreases |rules|
  {
    if |rules| == 0 then None
    else if HasId(rules[0], id) then Some(0)
    else
      assert forall j :: 1 <= j < |rules| ==> rules[j] == rules[1..][j - 1];
      match FirstWithId(rules[1..], id)
      case None => None
      case Some(i) => Some(i + 1)
  }

  /** The list `update_rule` saves: the first rule carrying `id` replaced in
      place; `None` when no rule carries it (nothing is saved then). */
  function ReplaceFirst(rules: seq<Rule>, id: string, updated: Rule): (r: Option<seq<Rule>>)
    ensures r.None? <==> forall i :: 0 <= i < |rules| ==> !HasId(rules[i], id)
    ensures r.Some? ==>
      && |r.value| == |rules|
      && r.value[FirstWithId(rules, id).value] == updated
      && forall j :: 0 <= j < |rules| && j != FirstWithId(rules, id).value ==> r.value[j] == rules[j]
  {
    match FirstWithId(rules, id)
    case None => None
    case Some(i) => Some(rules[i := updated])
  }

  // ---------------------------------------------------------------------
  // delete_rule

  /** `[r for r in rules if r.get('id') != rule_id]`. Rules without an id
      are kept. */
  function RemoveId(rules: seq<Rule>, id: string): (r: seq<Rule>)
    ensures |r| <= |rules|
    ensures forall k :: 0 <= k < |r| ==> !HasId(r[k], id)
    ensures forall x :: x in r <==> x in rules && !HasId(x, id)
    decreases |rules|
  {
    if |rules| == 0 then []
    else
      var rest := RemoveId(rules[1..], id);
      assert forall x :: x in rules <==> x == rules[0] || x in rules[1..];
      if HasId(rules[0], id) then rest else [rules[0]] + rest
  }

  /** Removal splits over concatenation, so the kept rules stay in their
      original order. */
  lemma {:induction false} RemoveIdAppend(a: seq<Rule>, b: seq<Rule>, id: string)
    ensures RemoveId(a + b, id) == RemoveId(a, id) + RemoveId(b, id)
    decreases |a|
  {
    if |a| == 0 {
      assert a + b == b;
    } else {
      assert (a + b)[0] == a[0];
      assert (a + b)[1..] == a[1..] + b;
      RemoveIdAppend(a[1..], b, id);
    }
  }

  /** The list shrinks exactly when some rule carries `id`. */
  lemma {:induction false} RemoveIdShrinks(rules: seq<Rule>, id: string)
    ensures |RemoveId(rules, id)| < |rules| <==> exists i :: 0 <= i < |rules| && HasId(rules[i], id)
    decreases |rules|
  {
    if |rules| > 0 {
      var tail := rules[1..];
      RemoveIdShrinks(tail, id);
      if exists i :: 0 <= i < |tail| && HasId(tail[i], id) {
        var i :| 0 <= i < |tail| && HasId(tail[i], id);
        assert rules[i + 1] == tail[i];
      }
      if exists i :: 0 <= i < |rules| && HasId(rules[i], id) {
        var i :| 0 <= i < |rules| && HasId(rules[i], id);
        if i > 0 {
          assert tail[i - 1] == rules[i];
        }
      }
    }
  }

  /** When no rule carries `id`, removal changes nothing. */
  lemma {:induction false} RemoveIdAbsent(rules: seq<Rule>, id: string)
    requires forall i :: 0 <= i < |rules| ==> !HasId(rules[i], id)
    ensures RemoveId(rules, id) == rules
    decreases |rules|
  {
    if |rules| > 0 {
      var tail := rules[1..];
      assert forall i :: 0 <= i < |tail| ==> tail[i] == rules[i + 1];
      RemoveIdAbsent(tail, id);
      assert rules == [rules[0]] + tail;
    }
  }

  // ---------------------------------------------------------------------
  // reorder_rules

  /** The index of the rule `{r.get('id'): r for r in rules}[id]` holds:
      the LAST rule carrying `id`, since later entries overwrite earlier ones. */
  function LastWithId(rules: seq<Rule>, id: string): (r: Option<nat>)
    ensures r.None? <==> forall i :: 0 <= i < |rules| ==> !HasId(rules[i], id)
    ensures r.Some? ==> IsLastWithId(rules, id, r.value)
    decreases |rules|
  {
    if |rules| == 0 then None
    else if HasId(rules[|rules| - 1], id) then Some(|rules| - 1)
    else
      var front := rules[..|rules| - 1];
      assert forall j :: 0 <= j < |front| ==> rules[j] == front[j];
      LastWithId(front, id)
  }

  /** Rule `i` carries `id` and no later rule does. */
  predicate IsLastWithId(rules: seq<Rule>, id: string, i: int) {
    0 <= i < |rules| && HasId(rules[i], id) && forall j :: i < j < |rules| ==> !HasId(rules[j], id)
  }

  /** `[rule_map[rid] for rid in rule_ids if rid in rule_map]`. */
  function Reorder(rules: seq<Rule>, ids: seq<string>): (r: seq<Rule>)
    ensures |r| <= |ids|
    ensures forall k :: 0 <= k < |r| ==> r[k] in rules
    decreases |ids|
  {
    if |ids| == 0 then []
    else
      (match LastWithId(rules, ids[0]) case Some(i) => [rules[i]] case None => [])
      + Reorder(rules, ids[1..])
  }

  /** What `reorder_rules` keeps: a rule appears in the result exactly when
      its id was requested and it is the last rule carrying that id. An
      omitted id drops its rules, an unknown id is skipped. */
  lemma {:induction false} ReorderMembers(rules: seq<Rule>, ids: seq<string>)
    ensures forall x :: x in Reorder(rules, ids) <==>
      exists k, i :: 0 <= k < |ids| && IsLastWithId(rules, ids[k], i) && rules[i] == x
    decreases |ids|
  {
    if |ids| > 0 {
      ReorderMembers(rules, ids[1..]);
      var r := Reorder(rules, ids);
      forall x
        ensures x in r <==> exists k, i :: 0 <= k < |ids| && IsLastWithId(rules, ids[k], i) && rules[i] == x
      {
        if exists k, i :: 0 <= k < |ids| && IsLastWithId(rules, ids[k], i) && rules[i] == x {
          var k, i :| 0 <= k < |ids| && IsLastWithId(rules, ids[k], i) && rules[i] == x;
          LastWithIdUnique(rules, ids[k], i);
          if k > 0 {
            assert ids[1..][k - 1] == ids[k];
          }
        }
        if x in Reorder(rules, ids[1..]) {
          var k, i :| 0 <= k < |ids[1..]| && IsLastWithId(rules, ids[1..][k], i) && rules[i] == x;
          assert ids[k + 1] == ids[1..][k];
        }
      }
    }
  }

  /** Only one index is the last carrying `id`. */
  lemma LastWithIdUnique(rules: seq<Rule>, id: string, i: int)
    requires IsLastWithId(rules, id, i)
    ensures LastWithId(rules, id) == Some(i)
  {
  }

  /** Requesting a rule list's own ids, once each and in order, gives the
      list back when no two rules share an id. */
  lemma ReorderIdentity(rules: seq<Rule>, ids: seq<string>)
    requires |ids| == |rules|
    requires forall i :: 0 <= i < |rules| ==> HasId(rules[i], ids[i])
    requires forall i, j :: 0 <= i < j < |ids| ==> ids[i] != ids[j]
    ensures Reorder(rules, ids) == rules
  {
    assert OwnIds(rules, ids);
    ReorderIdentityFrom(rules, ids, 0);
    assert ids[0..] == ids;
    assert rules[0..] == rules;
  }

  /** `ids` lists the ids of `rules`, in order, with no repeats. */
  predicate OwnIds(rules: seq<Rule>, ids: seq<string>) {
    && |ids| == |rules|
    && (forall i :: 0 <= i < |rules| ==> HasId(rules[i], ids[i]))
    && (forall i, j :: 0 <= i < j < |ids| ==> ids[i] != ids[j])
  }

  lemma {:induction false} ReorderIdentityFrom(rules: seq<Rule>, ids: seq<string>, k: nat)
    requires OwnIds(rules, ids) && k <= |ids|
    ensures Reorder(rules, ids[k..]) == rules[k..]
    decreases |ids| - k
  {
    if k < |ids| {
      ReorderStep(rules, ids, k);
      ReorderIdentityFrom(rules, ids, k + 1);
      assert rules[k..] == [rules[k]] + rules[k + 1..];
    }
  }

  /** Requesting `ids[k]` brings rule `k`. */
  lemma ReorderStep(rules: seq<Rule>, ids: seq<string>, k: nat)
    requires OwnIds(rules, ids) && k < |ids|
    ensures Reorder(rules, ids[k..]) == [rules[k]] + Reorder(rules, ids[k + 1..])
  {
    var tail := ids[k..];
    assert tail[0] == ids[k] && tail[1..] == ids[k + 1..];
    assert IsLastWithId(rules, ids[k], k);
    LastWithIdUnique(rules, ids[k], k);
  }

  /** One requested id brings the last rule carrying it, or nothing when no
      rule carries it. */
  lemma ReorderSingle(rules: seq<Rule>, id: string)
    ensures Reorder(rules, [id]) == match LastWithId(rules, id) case Some(i) => [rules[i]] case None => []
  {
    assert [id][1..] == [];
  }

  /** The result follows the request: the rules named by `a + b` are those
      named by `a` followed by those named by `b`. With `ReorderSingle`
      this fixes the whole result, one requested id after another. */
  lemma {:induction false} ReorderAppend(rules: seq<Rule>, a: seq<string>, b: seq<string>)
    ensures Reorder(rules, a + b) == Reorder(rules, a) + Reorder(rules, b)
    decreases |a|
  {
    if |a| == 0 {
      assert a + b == b;
    } else {
      assert (a + b)[0] == a[0];
      assert (a + b)[1..] == a[1..] + b;
      ReorderAppend(rules, a[1..], b);
    }
  }

  /** With no rules to name, every request gives the empty list. */
  lemma {:induction false} ReorderEmptyList(ids: seq<string>)
    ensures Reorder([], ids) == []
    decreases |ids|
  {
    if |ids| > 0 {
      ReorderEmptyList(ids[1..]);
    }
  }

  /** A requested id listed twice brings its rule twice. */
  lemma ReorderRepeats(rules: seq<Rule>, id: string, i: int)
    requires IsLastWithId(rules, id, i)
    ensures Reorder(rules, [id, id]) == [rules[i], rules[i]]
  {
    LastWithIdUnique(rules, id, i);
    assert [id, id][1..] == [id];
    assert [id][1..] == [];
  }
}
