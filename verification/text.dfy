/** Character-level helpers of the validation stages: the whitespace that
    JavaScript's String.prototype.trim and parseInt skip, trimming, the
    decimal-prefix reading of parseInt(s, 10), and the strict integer
    reading the persistence layer applies to an id. */
module Text {
  import opened Optional

  /** The WhiteSpace and LineTerminator code points of ECMAScript
      (sections 11.2 and 11.3 of ECMA-262, 2017 edition onwards). */
  predicate IsJsSpace(c: char) {
    var n := c as int;
    n == 0x09 || n == 0x0A || n == 0x0B || n == 0x0C || n == 0x0D || n == 0x20
    || n == 0xA0 || n == 0x1680 || (0x2000 <= n <= 0x200A)
    || n == 0x2028 || n == 0x2029 || n == 0x202F || n == 0x205F
    || n == 0x3000 || n == 0xFEFF
  }

  predicate AllSpace(s: string) {
    forall i | 0 <= i < |s| :: IsJsSpace(s[i])
  }

  /** Neither end of s is whitespace (vacuously true of ""). */
  predicate Tight(s: string) {
    s == [] || (!IsJsSpace(s[0]) && !IsJsSpace(s[|s| - 1]))
  }

  /** Number of whitespace characters at the start of s. */
  function LeadingSpace(s: string): (n: nat)
    ensures n <= |s|
    ensures forall i | 0 <= i < n :: IsJsSpace(s[i])
    ensures n == |s| || !IsJsSpace(s[n])
  {
    if |s| > 0 && IsJsSpace(s[0]) then 1 + LeadingSpace(s[1..]) else 0
  }

  /** Number of whitespace characters at the end of s. */
  function TrailingSpace(s: string): (n: nat)
    ensures n <= |s|
    ensures forall i | |s| - n <= i < |s| :: IsJsSpace(s[i])
    ensures n == |s| || !IsJsSpace(s[|s| - 1 - n])
  {
    if |s| > 0 && IsJsSpace(s[|s| - 1]) then 1 + TrailingSpace(s[..|s| - 1]) else 0
  }

  /** s without its leading whitespace (String.prototype.trimStart). */
  function TrimStart(s: string): string {
    s[LeadingSpace(s)..]
  }

  /** s without its trailing whitespace (String.prototype.trimEnd). */
  function TrimEnd(s: string): string {
    s[..|s| - TrailingSpace(s)]
  }

  /** String.prototype.trim: s with whitespace removed at both ends. The
      result is the infix of s that starts after the leading whitespace,
      and what lies on either side of it is whitespace. */
  function Trim(s: string): (r: string)
    ensures Tight(r)
    ensures var k := LeadingSpace(s);
      && k + |r| <= |s|
      && r == s[k..k + |r|]
      && AllSpace(s[..k]) && AllSpace(s[k + |r|..])
  {
    var k := LeadingSpace(s);
    var t := TrimStart(s);
    var r := TrimEnd(t);
    assert r == s[k..k + |r|];
    assert r != [] ==> r[0] == t[0];
    r
  }

  /** A whitespace prefix is exactly what LeadingSpace counts. */
  lemma LeadingSpacePadded(a: string, u: string)
    requires AllSpace(a)
    requires u == [] || !IsJsSpace(u[0])
    ensures LeadingSpace(a + u) == |a|
    ensures TrimStart(a + u) == u
  {
    assert (a + u)[|a|..] == u;
  }

  /** A whitespace suffix is exactly what TrailingSpace counts. */
  lemma TrailingSpacePadded(u: string, b: string)
    requires AllSpace(b)
    requires u == [] || !IsJsSpace(u[|u| - 1])
    ensures TrailingSpace(u + b) == |b|
    ensures TrimEnd(u + b) == u
  {
    assert (u + b)[..|u|] == u;
  }

  /** Trim is characterised by its result: whatever whitespace surrounds a
      string with no whitespace at its ends is exactly what Trim removes. */
  lemma TrimOfPadded(a: string, t: string, b: string)
    requires AllSpace(a) && AllSpace(b) && Tight(t)
    ensures Trim(a + t + b) == t
  {
    var s := a + t + b;
    if t == [] {
      assert s == (a + b) + [];
      assert AllSpace(a + b);
      LeadingSpacePadded(a + b, []);
      assert s[|s|..] == [];
    } else {
      assert s == a + (t + b);
      LeadingSpacePadded(a, t + b);
      TrailingSpacePadded(t, b);
      assert s[|a|..] == t + b;
    }
  }

  /** Trimming twice is trimming once. */
  lemma TrimIdempotent(s: string)
    ensures Trim(Trim(s)) == Trim(s)
  {
    var t := Trim(s);
    assert t == [] + t + [];
    TrimOfPadded([], t, []);
  }

  /** A string with no whitespace at either end is left as it is. */
  lemma TrimTightIsIdentity(s: string)
    requires Tight(s)
    ensures Trim(s) == s
  {
    assert s == [] + s + [];
    TrimOfPadded([], s, []);
  }

  predicate IsDigit(c: char) {
    '0' <= c <= '9'
  }

  predicate AllDigits(s: string) {
    forall i | 0 <= i < |s| :: IsDigit(s[i])
  }

  function DigitChar(d: nat): (c: char)
    requires d < 10
    ensures IsDigit(c) && (c as int) - ('0' as int) == d
  {
    ('0' as int + d) as char
  }

  /** Length of the longest prefix of s made of decimal digits. */
  function DigitRun(s: string): (n: nat)
    ensures n <= |s| && AllDigits(s[..n])
    ensures n == |s| || !IsDigit(s[n])
  {
    if |s| > 0 && IsDigit(s[0]) then
      var n := 1 + DigitRun(s[1..]);
      assert s[..n] == [s[0]] + s[1..][..n - 1];
      n
    else
      0
  }

  /** The number a string of decimal digits denotes, most significant first. */
  function DigitsValue(ds: string): nat
    requires AllDigits(ds)
  {
    if ds == [] then 0
    else DigitsValue(ds[..|ds| - 1]) * 10 + ((ds[|ds| - 1] as int) - ('0' as int))
  }

  /** The shortest decimal rendering of n. */
  function NatToDigits(n: nat): (ds: string)
    ensures ds != [] && AllDigits(ds)
  {
    if n < 10 then [DigitChar(n)] else NatToDigits(n / 10) + [DigitChar(n % 10)]
  }

  /** JavaScript's String(x) for an integer x (within the range of exactly
      representable integers). */
  function Decimal(x: int): string {
    if x < 0 then "-" + NatToDigits(-x) else NatToDigits(x)
  }

  /** parseInt(s, 10): skip leading whitespace, read an optional sign, then
      the longest run of decimal digits; no digit at all gives NaN (None). */
  function ParseInt(s: string): Option<int> {
    ParseIntAfterSpace(TrimStart(s))
  }

  /** The part of parseInt after the leading whitespace is skipped. */
  function ParseIntAfterSpace(t: string): Option<int> {
    if |t| > 0 && t[0] == '-' then Negated(ReadDigits(t[1..]))
    else if |t| > 0 && t[0] == '+' then ReadDigits(t[1..])
    else ReadDigits(t)
  }

  /** The value of the longest run of digits at the start of u, if any. */
  function ReadDigits(u: string): Option<int> {
    var k := DigitRun(u);
    if k == 0 then None else Some(DigitsValue(u[..k]))
  }

  function Negated(v: Option<int>): Option<int> {
    match v
    case None => None
    case Some(n) => Some(-n)
  }

  /** The strict reading of an integer column value: an optional sign and
      decimal digits, with nothing before or after them. */
  function StrictInt(s: string): Option<int> {
    if |s| > 0 && s[0] == '-' then Negated(AllDigitsValue(s[1..]))
    else if |s| > 0 && s[0] == '+' then AllDigitsValue(s[1..])
    else AllDigitsValue(s)
  }

  /** The value of u when u is a non-empty run of digits. */
  function AllDigitsValue(u: string): Option<int> {
    if u != [] && DigitRun(u) == |u| then Some(DigitsValue(u)) else None
  }

  /** What parseInt reads its digits from: s after the leading whitespace
      and an optional sign. */
  function AfterSign(s: string): (u: string)
    ensures |u| <= |s|
  {
    var t := TrimStart(s);
    if |t| > 0 && (t[0] == '-' || t[0] == '+') then t[1..] else t
  }

  /** parseInt(s, 10) is NaN exactly when no decimal digit follows the
      leading whitespace and the optional sign. */
  lemma ParseIntNaN(s: string)
    ensures ParseInt(s).None? <==> AfterSign(s) == [] || !IsDigit(AfterSign(s)[0])
  {
    var u := AfterSign(s);
    assert DigitRun(u) == 0 <==> u == [] || !IsDigit(u[0]);
  }

  /** Reading back the decimal rendering of n gives n. */
  lemma {:induction false} DigitsValueOfNat(n: nat)
    ensures DigitsValue(NatToDigits(n)) == n
  {
    var ds := NatToDigits(n);
    if n >= 10 {
      assert ds[..|ds| - 1] == NatToDigits(n / 10);
      DigitsValueOfNat(n / 10);
    }
  }

  /** A run of digits followed by a non-digit is read up to the non-digit. */
  lemma DigitRunStopsAtTail(ds: string, tail: string)
    requires AllDigits(ds)
    requires tail == [] || !IsDigit(tail[0])
    ensures DigitRun(ds + tail) == |ds|
    ensures (ds + tail)[..|ds|] == ds
  {
  }

  /** parseInt does not look at the whitespace it skips. */
  lemma ParseIntSkipsSpace(ws: string, a: string, tail: string)
    requires AllSpace(ws)
    requires a != [] && !IsJsSpace(a[0])
    ensures ParseInt(ws + a + tail) == ParseIntAfterSpace(a + tail)
  {
    var u := a + tail;
    assert u[0] == a[0];
    assert ws + a + tail == ws + u;
    LeadingSpacePadded(ws, u);
  }

  /** A run of digits followed by a non-digit is read as a whole. */
  lemma ReadDigitsStops(ds: string, tail: string)
    requires AllDigits(ds) && ds != []
    requires tail == [] || !IsDigit(tail[0])
    ensures ReadDigits(ds + tail) == Some(DigitsValue(ds))
  {
    DigitRunStopsAtTail(ds, tail);
  }

  /** Unsigned digits are read as they are. */
  lemma ParseUnsignedDigits(ds: string, tail: string)
    requires AllDigits(ds) && ds != []
    requires tail == [] || !IsDigit(tail[0])
    ensures ParseIntAfterSpace(ds + tail) == Some(DigitsValue(ds))
  {
    assert (ds + tail)[0] == ds[0];
    ReadDigitsStops(ds, tail);
  }

  /** Digits after a minus sign are read and negated. */
  lemma ParseNegativeDigits(ds: string, tail: string)
    requires AllDigits(ds) && ds != []
    requires tail == [] || !IsDigit(tail[0])
    ensures ParseIntAfterSpace("-" + ds + tail) == Some(-(DigitsValue(ds) as int))
  {
    var u := "-" + ds + tail;
    assert u[0] == '-' && u[1..] == ds + tail;
    ReadDigitsStops(ds, tail);
  }

  /** parseInt reads, after any leading whitespace, the integer written in
      decimal and stops at the first character that is not a digit: for
      instance it reads 12 from "12abc" and -7 from "  -7". */
  lemma ParseIntReadsLeadingInteger(ws: string, x: int, tail: string)
    requires AllSpace(ws)
    requires tail == [] || !IsDigit(tail[0])
    ensures ParseInt(ws + Decimal(x) + tail) == Some(x)
  {
    var d := Decimal(x);
    ParseIntSkipsSpace(ws, d, tail);
    var n: nat := if x < 0 then -x else x;
    var ds := NatToDigits(n);
    DigitsValueOfNat(n);
    if x < 0 {
      assert d == "-" + ds;
      ParseNegativeDigits(ds, tail);
    } else {
      assert d == ds;
      ParseUnsignedDigits(ds, tail);
    }
  }

  /** The round trip: parseInt(String(x), 10) == x. */
  lemma ParseIntDecimal(x: int)
    ensures ParseInt(Decimal(x)) == Some(x)
  {
    assert [] + Decimal(x) + [] == Decimal(x);
    ParseIntReadsLeadingInteger([], x, []);
  }

  /** The strict reading round-trips the decimal rendering too. */
  lemma StrictIntDecimal(x: int)
    ensures StrictInt(Decimal(x)) == Some(x)
  {
    var n := if x < 0 then -x else x;
    var ds := NatToDigits(n);
    assert ds + [] == ds;
    DigitRunStopsAtTail(ds, []);
    DigitsValueOfNat(n);
    if x < 0 {
      assert Decimal(x)[1..] == ds;
    }
  }

  /** Whatever the strict reading accepts, parseInt accepts with the same
      value: an id the persistence layer can read always passes the
      parameter-shape check. */
  lemma StrictIntAgreesWithParseInt(s: string)
    requires StrictInt(s).Some?
    ensures ParseInt(s) == StrictInt(s)
  {
    assert s == [] + s;
    LeadingSpacePadded([], s);
    var u := if s[0] == '-' || s[0] == '+' then s[1..] else s;
    assert u[..|u|] == u;
  }
}
