/** Python scalar values as they appear in transaction records and in the
    `value` of a rule condition once a YAML document has been loaded, with the
    parts of Python's comparison semantics the rule engine relies on.

    Floats are modelled as mathematical reals: there is no NaN, no infinity
    and no rounding. */
module Values {

  /** One scalar: `None`, `bool`, `int`, `float` or `str`. */
  datatype Scalar = Null | Bool(b: bool) | Int(i: int) | Float(x: real) | Str(s: string)

  /** The expected value of a condition: one scalar, or a list of scalars
      (the right-hand side of `in` / `not_in`). */
  datatype Operand = Single(v: Scalar) | Many(items: seq<Scalar>)

  /** A transaction record: field name to value. */
  type Record = map<string, Scalar>

  /** `isinstance(v, (int, float))`; `bool` is a subclass of `int` in Python. */
  predicate IsNumber(v: Scalar) {
    v.Bool? || v.Int? || v.Float?
  }

  /** `isinstance(v, int)`, which is also true of `True` and `False`. */
  predicate IsInteger(v: Scalar) {
    v.Bool? || v.Int?
  }

  /** The numeric value Python compares a number by (`True == 1`). */
  function NumericValue(v: Scalar): real
    requires IsNumber(v)
  {
    match v
    case Bool(b) => if b then 1.0 else 0.0
    case Int(i) => i as real
    case Float(x) => x
  }

  /** Python `a == b` between two scalars. It never raises: values of
      unrelated types are simply unequal. */
  predicate PyEq(a: Scalar, b: Scalar): (r: bool)
    ensures a == b ==> r
    ensures r ==> (a.Str? <==> b.Str?) && (a.Null? <==> b.Null?)
  {
    if IsNumber(a) && IsNumber(b) then NumericValue(a) == NumericValue(b)
    else if a.Str? && b.Str? then a.s == b.s
    else a.Null? && b.Null?
  }

  /** The pairs on which Python's `<`, `>`, `<=`, `>=` do not raise
      `TypeError`: two numbers, or two strings. */
  predicate Comparable(a: Scalar, b: Scalar) {
    (IsNumber(a) && IsNumber(b)) || (a.Str? && b.Str?)
  }

  /** Python's `<` on `str`: lexicographic by code point. */
  predicate StrLess(a: string, b: string)
    decreases |a|
  {
    if |a| == 0 then |b| > 0
    else if |b| == 0 then false
    else if a[0] != b[0] then a[0] < b[0]
    else StrLess(a[1..], b[1..])
  }

  /** Python `a < b` on a comparable pair. */
  predicate PyLess(a: Scalar, b: Scalar): (r: bool)
    requires Comparable(a, b)
    ensures r ==> !PyEq(a, b)
  {
    if a.Str? then StrLessTrichotomy(a.s, b.s); StrLess(a.s, b.s) else NumericValue(a) < NumericValue(b)
  }

  predicate IsPrefix(p: string, s: string) {
    |p| <= |s| && s[..|p|] == p
  }

  /** Python `sub in s` for two strings: a substring test. */
  predicate Contains(s: string, sub: string): (r: bool)
    ensures |sub| == 0 ==> r
    ensures r ==> |sub| <= |s|
    decreases |s|
  {
    IsPrefix(sub, s) || (|s| > 0 && Contains(s[1..], sub))
  }

  /** Python `a in items` for a list: some element is `==` to `a`. */
  predicate InList(a: Scalar, items: seq<Scalar>) {
    exists k :: 0 <= k < |items| && PyEq(a, items[k])
  }

  function LowerChar(c: char): char {
    if 'A' <= c <= 'Z' then (c as int + 32) as char else c
  }

  /** `str.lower()` restricted to ASCII letters. */
  function Lower(s: string): (r: string)
    ensures |r| == |s|
    ensures forall k :: 0 <= k < |s| ==> r[k] == LowerChar(s[k])
  {
    seq(|s|, k requires 0 <= k < |s| => LowerChar(s[k]))
  }

  /** Exactly one of `a < b`, `a == b`, `b < a` holds for two strings, so
      `a >= b` on strings is the negation of `a < b`. */
  lemma {:induction false} StrLessTrichotomy(a: string, b: string)
    ensures StrLess(a, b) || a == b || StrLess(b, a)
    ensures !(StrLess(a, b) && StrLess(b, a))
    decreases |a|
  {
    if |a| == 0 || |b| == 0 {
      if |a| == 0 && |b| == 0 {
        assert a == b;
      }
    } else if a[0] == b[0] {
      StrLessTrichotomy(a[1..], b[1..]);
      if a[1..] == b[1..] {
        assert a == [a[0]] + a[1..] && b == [b[0]] + b[1..];
      }
    }
  }

  /** `sub` occurs in `s` starting at offset `k`. */
  predicate OccursAt(s: string, sub: string, k: int) {
    0 <= k <= |s| - |sub| && s[k..k + |sub|] == sub
  }

  /** The recursive substring test agrees with the positional definition:
      `sub` occurs in `s` at some offset. */
  lemma {:induction false} ContainsAtOffset(s: string, sub: string)
    ensures Contains(s, sub) <==> exists k :: OccursAt(s, sub, k)
    decreases |s|
  {
    if |s| == 0 {
      if Contains(s, sub) {
        assert OccursAt(s, sub, 0);
      }
    } else {
      ContainsAtOffset(s[1..], sub);
      if Contains(s, sub) {
        if IsPrefix(sub, s) {
          assert OccursAt(s, sub, 0);
        } else {
          var k :| OccursAt(s[1..], sub, k);
          assert s[k + 1..k + 1 + |sub|] == s[1..][k..k + |sub|];
          assert OccursAt(s, sub, k + 1);
        }
      }
      if exists k :: OccursAt(s, sub, k) {
        var k :| OccursAt(s, sub, k);
        if k > 0 {
          assert s[1..][k - 1..k - 1 + |sub|] == s[k..k + |sub|];
          assert OccursAt(s[1..], sub, k - 1);
        } else {
          assert IsPrefix(sub, s);
        }
      }
    }
  }
}
