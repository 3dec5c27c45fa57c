/** Decimal text: Python's `int()` applied to a string, and the `{n:03d}`
    format used for generated rule ids. Only ASCII digits are modelled;
    `int()` also accepts other Unicode decimal digits. */
module Numerals {
  import opened Wrappers

  predicate IsDigit(c: char) {
    '0' <= c <= '9'
  }

  predicate AllDigits(s: string) {
    forall k :: 0 <= k < |s| ==> IsDigit(s[k])
  }

  function DigitValue(c: char): nat
    requires IsDigit(c)
  {
    c as int - '0' as int
  }

  function DigitChar(d: nat): (c: char)
    requires d < 10
    ensures IsDigit(c) && DigitValue(c) == d
  {
    ('0' as int + d) as char
  }

  /** The number a digit string denotes, most significant digit first. */
  function DigitsValue(s: string): nat
    requires AllDigits(s)
    decreases |s|
  {
    if |s| == 0 then 0 else DigitsValue(s[..|s| - 1]) * 10 + DigitValue(s[|s| - 1])
  }

  /** The shortest decimal rendering of `n`. */
  function Digits(n: nat): (s: string)
    ensures 1 <= |s| && AllDigits(s)
    decreases n
  {
    if n < 10 then [DigitChar(n)] else Digits(n / 10) + [DigitChar(n % 10)]
  }

  function Zeros(k: nat): (s: string)
    ensures |s| == k && AllDigits(s)
    ensures forall j :: 0 <= j < k ==> s[j] == '0'
  {
    seq(k, _ => '0')
  }

  function ZeroPad(s: string, width: nat): (r: string)
    requires AllDigits(s)
    ensures AllDigits(r) && |r| >= width && |r| >= |s|
  {
    if |s| >= width then s else Zeros(width - |s|) + s
  }

  /** Python's `f"{n:03d}"`: at least three characters, zeros inserted
      between the sign and the digits. */
  function Format03(n: int): (r: string)
    ensures |r| >= 3
    ensures n >= 0 ==> AllDigits(r)
    ensures n < 0 ==> r[0] == '-' && AllDigits(r[1..])
  {
    if n >= 0 then ZeroPad(Digits(n), 3) else "-" + ZeroPad(Digits(-n), 2)
  }

  /** The characters `str.isspace()` accepts, which `int()` strips. */
  predicate IsPySpace(c: char) {
    var x := c as int;
    x == 0x20 || 0x09 <= x <= 0x0D || 0x1C <= x <= 0x1F || x == 0x85 || x == 0xA0
    || x == 0x1680 || 0x2000 <= x <= 0x200A || x == 0x2028 || x == 0x2029
    || x == 0x202F || x == 0x205F || x == 0x3000
  }

  function StripLeft(s: string): string
    decreases |s|
  {
    if |s| > 0 && IsPySpace(s[0]) then StripLeft(s[1..]) else s
  }

  function StripRight(s: string): string
    decreases |s|
  {
    if |s| > 0 && IsPySpace(s[|s| - 1]) then StripRight(s[..|s| - 1]) else s
  }

  /** `str.strip()`. */
  function Strip(s: string): string {
    StripRight(StripLeft(s))
  }

  /** The body `int()` accepts after the sign: digits, where single
      underscores may separate two digits (`1_000`). */
  predicate DigitRun(b: string) {
    && |b| > 0
    && IsDigit(b[0])
    && IsDigit(b[|b| - 1])
    && forall k :: 0 <= k < |b| ==> SeparatedAt(b, k)
  }

  /** Position `k` holds a digit, or an underscore with a digit after it. */
  predicate SeparatedAt(b: string, k: nat)
    requires k < |b|
  {
    IsDigit(b[k]) || (b[k] == '_' && k + 1 < |b| && IsDigit(b[k + 1]))
  }

  predicate DigitOrUnderscore(c: char) {
    IsDigit(c) || c == '_'
  }

  function DropUnderscores(b: string): (r: string)
    requires forall k :: 0 <= k < |b| ==> DigitOrUnderscore(b[k])
    ensures AllDigits(r) && |r| <= |b|
    decreases |b|
  {
    if |b| == 0 then []
    else if b[0] == '_' then DropUnderscores(b[1..])
    else
      assert DigitOrUnderscore(b[0]);
      var rest := DropUnderscores(b[1..]);
      assert forall k :: 1 <= k < |rest| + 1 ==> ([b[0]] + rest)[k] == rest[k - 1];
      [b[0]] + rest
  }

  /** Python's `int(s)` for a string `s`: `None` where it raises `ValueError`. */
  function ParseInt(s: string): (r: Option<int>)
    ensures Strip(s) == [] ==> r.None?
    ensures r.Some? && r.value < 0 ==> Strip(s)[0] == '-'
  {
    ParseSigned(Strip(s))
  }

  /** `int()` after stripping: an optional sign, then the digits. */
  function ParseSigned(t: string): Option<int> {
    if |t| > 0 && (t[0] == '-' || t[0] == '+') then
      match ParseBody(t[1..])
      case None => None
      case Some(v) => Some(if t[0] == '-' then -(v as int) else v)
    else
      match ParseBody(t)
      case None => None
      case Some(v) => Some(v)
  }

  /** The value of a digit run, or `None` for anything else. */
  function ParseBody(b: string): Option<nat> {
    if DigitRun(b) then
      assert forall k :: 0 <= k < |b| ==> SeparatedAt(b, k) ==> DigitOrUnderscore(b[k]);
      Some(DigitsValue(DropUnderscores(b)))
    else None
  }

  lemma {:induction false} DigitsRoundTrip(n: nat)
    ensures DigitsValue(Digits(n)) == n
    decreases n
  {
    if n >= 10 {
      DigitsRoundTrip(n / 10);
      var s := Digits(n);
      assert s[..|s| - 1] == Digits(n / 10);
    }
  }

  lemma {:induction false} ZerosValue(k: nat)
    ensures DigitsValue(Zeros(k)) == 0
  {
    if k > 0 {
      assert Zeros(k)[..k - 1] == Zeros(k - 1);
      ZerosValue(k - 1);
    }
  }

  /** Leading zeros do not change the value `int()` reads. */
  lemma {:induction false} LeadingZerosValue(k: nat, s: string)
    requires AllDigits(s)
    ensures DigitsValue(Zeros(k) + s) == DigitsValue(s)
    decreases |s|
  {
    if |s| == 0 {
      assert Zeros(k) + s == Zeros(k);
      ZerosValue(k);
    } else {
      var t := Zeros(k) + s;
      assert t[..|t| - 1] == Zeros(k) + s[..|s| - 1];
      LeadingZerosValue(k, s[..|s| - 1]);
    }
  }

  lemma {:induction false} DropUnderscoresOfDigits(s: string)
    requires AllDigits(s)
    ensures DropUnderscores(s) == s
    decreases |s|
  {
    if |s| > 0 {
      DropUnderscoresOfDigits(s[1..]);
    }
  }

  lemma {:induction false} StripOfNoSpace(s: string)
    requires forall k :: 0 <= k < |s| ==> !IsPySpace(s[k])
    ensures Strip(s) == s
  {
  }

  /** Padding with zeros does not change the value. */
  lemma ZeroPadValue(s: string, width: nat)
    requires AllDigits(s)
    ensures DigitsValue(ZeroPad(s, width)) == DigitsValue(s)
  {
    var p := ZeroPad(s, width);
    if |s| < width {
      var z := Zeros(width - |s|);
      assert p == z + s;
      LeadingZerosValue(width - |s|, s);
      assert DigitsValue(z + s) == DigitsValue(s);
    }
  }

  /** `int(f"{n:03d}") == n`: the id format can be read back. */
  lemma ParseFormat03(n: int)
    ensures ParseInt(Format03(n)) == Some(n)
  {
    if n >= 0 {
      ParseFormatNonNegative(n);
    } else {
      ParseFormatNegative(n);
    }
  }

  lemma ParseFormatNonNegative(n: nat)
    ensures ParseInt(Format03(n)) == Some(n)
  {
    var r := ZeroPad(Digits(n), 3);
    assert Format03(n) == r;
    DigitsRoundTrip(n);
    ZeroPadValue(Digits(n), 3);
    ParseUnsigned(r);
  }

  lemma ParseFormatNegative(n: int)
    requires n < 0
    ensures ParseInt(Format03(n)) == Some(n)
  {
    NegativeFormatParts(n);
    ParseMinus(ZeroPad(Digits(-n), 2));
  }

  /** `f"{n:03d}"` of a negative `n` is a minus sign and a digit string
      worth `-n`, with no surrounding space. */
  lemma NegativeFormatParts(n: int)
    requires n < 0
    ensures var body := ZeroPad(Digits(-n), 2);
      && Format03(n) == "-" + body
      && ParseBody(body) == Some(-n)
      && Strip("-" + body) == "-" + body
  {
    PaddedDigitsBody(-n, 2);
    NegatedNoSpace(ZeroPad(Digits(-n), 2));
  }

  /** Zero-padded digits of `m` are a body `int()` reads as `m`. */
  lemma PaddedDigitsBody(m: nat, width: nat)
    ensures ParseBody(ZeroPad(Digits(m), width)) == Some(m)
  {
    DigitsRoundTrip(m);
    ZeroPadValue(Digits(m), width);
    ParseBodyOfDigits(ZeroPad(Digits(m), width));
  }

  /** `int()` reads a plain digit string as its value. */
  lemma ParseUnsigned(s: string)
    requires AllDigits(s) && |s| > 0
    ensures ParseInt(s) == Some(DigitsValue(s))
  {
    assert Strip(s) == s by {
      assert forall k :: 0 <= k < |s| ==> !IsPySpace(s[k]);
      StripOfNoSpace(s);
    }
    ParseBodyOfDigits(s);
    assert s[0] != '-' && s[0] != '+';
  }

  lemma NegatedNoSpace(body: string)
    requires AllDigits(body)
    ensures Strip("-" + body) == "-" + body
  {
    var r := "-" + body;
    assert forall k :: 1 <= k < |r| ==> r[k] == body[k - 1];
    StripOfNoSpace(r);
  }

  /** A leading minus sign negates the value of the rest. */
  lemma ParseMinus(body: string)
    requires Strip("-" + body) == "-" + body && ParseBody(body).Some?
    ensures ParseInt("-" + body) == Some(-(ParseBody(body).value as int))
  {
    var t := "-" + body;
    assert t[0] == '-' && t[1..] == body;
  }

  lemma ParseBodyOfDigits(s: string)
    requires AllDigits(s) && |s| > 0
    ensures ParseBody(s) == Some(DigitsValue(s))
  {
    DropUnderscoresOfDigits(s);
    assert DigitRun(s);
  }
}
