/**
 * The parts of the Java class library the server relies on, stated as
 * functions: long arithmetic, String.trim, toLowerCase, Integer.toString,
 * Integer.parseInt / Long.parseLong, String.replace and String.split.
 */
module JavaLang {
  import opened Wrappers

  const CRLF: string := "\r\n"

  const INT_MIN: int := -0x8000_0000
  const INT_MAX: int := 0x7FFF_FFFF
  const LONG_MIN: int := -0x8000_0000_0000_0000
  const LONG_MAX: int := 0x7FFF_FFFF_FFFF_FFFF

  /** A Java `long`. */
  type Long = x: int | -0x8000_0000_0000_0000 <= x <= 0x7FFF_FFFF_FFFF_FFFF

  /** Two's-complement wrap-around of a 64-bit `long` sum. */
  function WrapLong(x: int): (r: Long)
    ensures LONG_MIN <= x <= LONG_MAX ==> r == x
    ensures x > LONG_MAX && x <= 2 * LONG_MAX + 1 ==> r == x - 0x1_0000_0000_0000_0000
    ensures x < LONG_MIN && x >= 2 * LONG_MIN ==> r == x + 0x1_0000_0000_0000_0000
  {
    (x - LONG_MIN) % 0x1_0000_0000_0000_0000 + LONG_MIN
  }

  function Min(a: int, b: int): int { if a <= b then a else b }

  /** A concatenation splits back at the seam. */
  lemma SplitAtSeam(x: string, y: string)
    ensures (x + y)[..|x|] == x && (x + y)[|x|..] == y
  {
  }

  /** Five strings concatenated from the left equal their concatenation from the right. */
  lemma RightNested(p: string, q: string, r: string, s: string, t: string)
    ensures p + q + r + s + t == p + (q + (r + (s + t)))
  {
  }

  // ---------------------------------------------------------------------
  // String.trim: strips every character whose code is at most U+0020

  predicate IsBlank(c: char) { c <= ' ' }

  function TrimStart(s: string): (r: string)
    ensures |r| <= |s| && r == s[|s| - |r|..]
    ensures forall i :: 0 <= i < |s| - |r| ==> IsBlank(s[i])
    ensures r == [] || !IsBlank(r[0])
  {
    if s != [] && IsBlank(s[0]) then TrimStart(s[1..]) else s
  }

  function TrimEnd(s: string): (r: string)
    ensures |r| <= |s| && r == s[..|r|]
    ensures forall i :: |r| <= i < |s| ==> IsBlank(s[i])
    ensures r == [] || !IsBlank(r[|r| - 1])
  {
    if s != [] && IsBlank(s[|s| - 1]) then TrimEnd(s[..|s| - 1]) else s
  }

  function Trim(s: string): string {
    TrimEnd(TrimStart(s))
  }

  /** A string that starts and ends with a visible character loses exactly a final CRLF. */
  lemma TrimDropsFinalCrlf(s: string)
    requires s != [] && !IsBlank(s[0]) && !IsBlank(s[|s| - 1])
    ensures Trim(s + CRLF) == s
  {
    var t := s + CRLF;
    assert TrimStart(t) == t;
    assert t[..|t| - 1] == s + "\r";
    assert (s + "\r")[..|s|] == s;
  }

  // ---------------------------------------------------------------------
  // String.toLowerCase and equalsIgnoreCase, on ASCII letters

  function LowerChar(c: char): char {
    if 'A' <= c <= 'Z' then (c as int + 32) as char else c
  }

  function Lower(s: string): (r: string)
    ensures |r| == |s|
  {
    if s == [] then [] else [LowerChar(s[0])] + Lower(s[1..])
  }

  lemma LowerCons(c: char, s: string)
    ensures Lower([c] + s) == [LowerChar(c)] + Lower(s)
  {
    assert ([c] + s)[1..] == s;
  }

  predicate EqualsIgnoreCase(a: string, b: string) {
    Lower(a) == Lower(b)
  }

  /** Lowering twice is lowering once. */
  lemma {:induction false} LowerIdempotent(s: string)
    ensures Lower(Lower(s)) == Lower(s)
  {
    if s != [] {
      LowerIdempotent(s[1..]);
      var l := Lower(s);
      assert l[1..] == Lower(s[1..]);
    }
  }

  // ---------------------------------------------------------------------
  // Decimal digits: Integer.toString / "%d" for a non-negative value,
  // and Integer.parseInt / Long.parseLong

  predicate IsDigit(c: char) { '0' <= c <= '9' }

  predicate IsDigits(s: string) {
    forall i :: 0 <= i < |s| ==> IsDigit(s[i])
  }

  function DigitChar(d: nat): (c: char)
    requires d < 10
    ensures IsDigit(c)
  {
    ('0' as int + d) as char
  }

  /** The decimal numeral of n, most significant digit first, without leading zeros. */
  function Decimal(n: nat): (r: string)
    ensures |r| > 0 && IsDigits(r)
    ensures n > 0 ==> r[0] != '0'
  {
    if n < 10 then [DigitChar(n)] else Decimal(n / 10) + [DigitChar(n % 10)]
  }

  /** The value of a run of decimal digits. */
  function DigitsValue(s: string): nat
    requires IsDigits(s)
  {
    if s == [] then 0 else DigitsValue(s[..|s| - 1]) * 10 + (s[|s| - 1] as int - '0' as int)
  }

  lemma {:induction false} DecimalValue(n: nat)
    ensures DigitsValue(Decimal(n)) == n
  {
    if n >= 10 {
      var d := Decimal(n / 10) + [DigitChar(n % 10)];
      assert d[..|d| - 1] == Decimal(n / 10);
      DecimalValue(n / 10);
    }
  }

  /**
   * Java's parsing of a decimal integer into the range lo..hi: an optional
   * sign, then at least one digit, and the value must fit.
   */
  function ParseDecimal(s: string, lo: int, hi: int): (r: Option<int>)
    ensures r.Some? ==> lo <= r.value <= hi
    ensures r.Some? ==> s != [] && IsDigits(s[1..])
  {
    if s == [] then None
    else if s[0] == '-' || s[0] == '+' then
      if |s| == 1 || !IsDigits(s[1..]) then None
      else
        var v: int := if s[0] == '-' then -(DigitsValue(s[1..]) as int) else DigitsValue(s[1..]);
        if lo <= v <= hi then Some(v) else None
    else if !IsDigits(s) then None
    else
      var v := DigitsValue(s);
      if lo <= v <= hi then Some(v) else None
  }

  /** Integer.parseInt */
  function ParseInt(s: string): Option<int> { ParseDecimal(s, INT_MIN, INT_MAX) }

  /** Long.parseLong */
  function ParseLong(s: string): (r: Option<Long>) {
    match ParseDecimal(s, LONG_MIN, LONG_MAX)
    case Some(v) => Some(v)
    case None => None
  }

  /** parseInt and parseLong read back what toString wrote. */
  lemma ParseDecimalOfDecimal(n: nat, lo: int, hi: int)
    requires lo <= n <= hi
    ensures ParseDecimal(Decimal(n), lo, hi) == Some(n)
  {
    DecimalValue(n);
  }

  // ---------------------------------------------------------------------
  // String.replace("\r\n", ",")

  /** Replaces every CRLF, scanning left to right without overlap, by a comma. */
  function ReplaceCrlf(s: string): (r: string)
    ensures |r| <= |s|
  {
    if s == [] then []
    else if |s| >= 2 && s[0] == '\r' && s[1] == '\n' then "," + ReplaceCrlf(s[2..])
    else [s[0]] + ReplaceCrlf(s[1..])
  }

  /** A string without CR is left as it is. */
  lemma {:induction false} ReplaceCrlfNoCr(s: string)
    requires '\r' !in s
    ensures ReplaceCrlf(s) == s
  {
    if s != [] {
      assert '\r' !in s[1..];
      ReplaceCrlfNoCr(s[1..]);
      assert [s[0]] + s[1..] == s;
    }
  }

  /** A character other than CR is copied through unchanged. */
  lemma ReplaceCrlfCons(c: char, t: string)
    requires c != '\r'
    ensures ReplaceCrlf([c] + t) == [c] + ReplaceCrlf(t)
  {
    var s := [c] + t;
    assert s[0] == c && s[1..] == t;
  }

  /** A CRLF at the front becomes one comma. */
  lemma ReplaceCrlfAtCrlf(b: string)
    ensures ReplaceCrlf(CRLF + b) == "," + ReplaceCrlf(b)
  {
    var s := CRLF + b;
    assert s[0] == '\r' && s[1] == '\n' && s[2..] == b;
  }

  lemma {:induction false} ReplaceCrlfAcross(a: string, b: string)
    requires '\r' !in a
    ensures ReplaceCrlf(a + CRLF + b) == a + "," + ReplaceCrlf(b)
  {
    if a == [] {
      assert a + CRLF + b == CRLF + b;
      ReplaceCrlfAtCrlf(b);
    } else {
      var t := a[1..] + CRLF + b;
      var r := a[1..] + "," + ReplaceCrlf(b);
      assert a + CRLF + b == [a[0]] + t;
      assert a + "," + ReplaceCrlf(b) == [a[0]] + r;
      ReplaceCrlfCons(a[0], t);
      ReplaceCrlfAcross(a[1..], b);
    }
  }

  // ---------------------------------------------------------------------
  // String.split(",")

  /** The pieces joined back together, a comma between each two. */
  function JoinComma(ps: seq<string>): string
    requires |ps| > 0
  {
    if |ps| == 1 then ps[0] else ps[0] + "," + JoinComma(ps[1..])
  }

  /** Every piece between commas, empty pieces included: one more piece than commas. */
  function SplitRaw(s: string): (r: seq<string>)
    ensures |r| > 0
    ensures forall i :: 0 <= i < |r| ==> ',' !in r[i]
    ensures JoinComma(r) == s
  {
    if s == [] then [""]
    else
      var rest := SplitRaw(s[1..]);
      if s[0] == ',' then
        assert s == "," + s[1..];
        [""] + rest
      else
        var r := [[s[0]] + rest[0]] + rest[1..];
        assert r[1..] == rest[1..];
        assert s == [s[0]] + s[1..];
        r
  }

  function StripTrailingEmpty(ps: seq<string>): (r: seq<string>)
    ensures |r| <= |ps| && r == ps[..|r|]
    ensures r == [] || r[|r| - 1] != ""
    ensures forall i :: |r| <= i < |ps| ==> ps[i] == ""
  {
    if ps != [] && ps[|ps| - 1] == "" then StripTrailingEmpty(ps[..|ps| - 1]) else ps
  }

  /**
   * String.split(","): with no comma the whole string is the only piece;
   * otherwise the pieces between commas, trailing empty pieces removed.
   */
  function Split(s: string): seq<string> {
    if ',' !in s then [s] else StripTrailingEmpty(SplitRaw(s))
  }

  lemma {:induction false} SplitRawOfJoin(ps: seq<string>)
    requires |ps| > 0
    requires forall i :: 0 <= i < |ps| ==> ',' !in ps[i]
    ensures SplitRaw(JoinComma(ps)) == ps
  {
    if |ps| > 1 {
      SplitRawOfJoin(ps[1..]);
      SplitRawAfterPiece(ps[0], JoinComma(ps[1..]));
      assert [ps[0]] + ps[1..] == ps;
    } else {
      SplitRawSingle(ps[0]);
    }
  }

  lemma {:induction false} SplitRawSingle(a: string)
    requires ',' !in a
    ensures SplitRaw(a) == [a]
  {
    if a != [] {
      SplitRawSingle(a[1..]);
      assert [a[0]] + a[1..] == a;
    }
  }

  lemma {:induction false} SplitRawAfterPiece(a: string, b: string)
    requires ',' !in a
    ensures SplitRaw(a + "," + b) == [a] + SplitRaw(b)
  {
    var s := a + "," + b;
    if a == [] {
      assert s[1..] == b;
    } else {
      assert s[1..] == a[1..] + "," + b;
      SplitRawAfterPiece(a[1..], b);
      assert [a[0]] + a[1..] == a;
    }
  }

  lemma CommaInJoin(ps: seq<string>)
    requires |ps| > 1
    ensures ',' in JoinComma(ps)
  {
    var s := JoinComma(ps);
    assert s[|ps[0]|] == ',';
  }

  /** split(",") gives back comma-free pieces when the last one is not empty. */
  lemma SplitOfJoin(ps: seq<string>)
    requires |ps| > 0
    requires forall i :: 0 <= i < |ps| ==> ',' !in ps[i]
    requires |ps| > 1 ==> ps[|ps| - 1] != ""
    ensures Split(JoinComma(ps)) == ps
  {
    SplitRawOfJoin(ps);
    if |ps| == 1 {
      assert JoinComma(ps) == ps[0];
    } else {
      CommaInJoin(ps);
    }
  }
}
