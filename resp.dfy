/**
 * The RESP wire codec of the server: the reply encoders and the request
 * tokenizer parseRESP.
 */
module Resp {
  import opened Wrappers
  import opened JavaLang

  const PONG_RESPONSE: string := "+PONG\r\n"
  const OK_RESPONSE: string := "+OK\r\n"
  const NULL_RESPONSE: string := "$-1\r\n"

  // ---------------------------------------------------------------------
  // Encoders

  /** One bulk string: "$" length CRLF payload CRLF. */
  function Bulk(s: string): string {
    "$" + Decimal(|s|) + CRLF + s + CRLF
  }

  /** encodeStringAsRESP: the null bulk string for null, otherwise a bulk string. */
  function EncodeStringAsResp(input: Option<string>): string {
    match input
    case None => NULL_RESPONSE
    case Some(s) => Bulk(s)
  }

  /** The bulk strings of every element, in list order. */
  function BulkAll(xs: seq<string>): string {
    if xs == [] then "" else Bulk(xs[0]) + BulkAll(xs[1..])
  }

  /** The array reply: a count header, then each element as a bulk string. */
  function ArrayReply(xs: seq<string>): string {
    "*" + Decimal(|xs|) + CRLF + BulkAll(xs)
  }

  lemma {:induction false} BulkAllSnoc(xs: seq<string>, x: string)
    ensures BulkAll(xs + [x]) == BulkAll(xs) + Bulk(x)
  {
    if xs != [] {
      assert (xs + [x])[1..] == xs[1..] + [x];
      BulkAllSnoc(xs[1..], x);
    } else {
      assert [x][1..] == [];
    }
  }

  /** encodeStringAsRESPArray, with the StringBuilder as a string variable. */
  method EncodeStringAsRespArray(input: seq<string>) returns (r: string)
    ensures r == ArrayReply(input)
  {
    var header := "*" + Decimal(|input|) + CRLF;
    r := header;
    var i := 0;
    while i < |input|
      invariant 0 <= i <= |input|
      invariant r == header + BulkAll(input[..i])
    {
      var piece := "$" + Decimal(|input[i]|) + CRLF + input[i] + CRLF;
      assert piece == Bulk(input[i]);
      assert BulkAll(input[..i + 1]) == BulkAll(input[..i]) + piece by {
        BulkAllSnoc(input[..i], input[i]);
        assert input[..i + 1] == input[..i] + [input[i]];
      }
      assert r + piece == header + (BulkAll(input[..i]) + piece);
      r := r + piece;
      i := i + 1;
    }
    assert input[..i] == input;
  }

  /** An empty list encodes as "*0\r\n"; a one-element list is a header before that element's bulk string. */
  lemma ArrayReplyShapes(s: string)
    ensures ArrayReply([]) == "*0\r\n"
    ensures ArrayReply([s]) == "*1\r\n" + EncodeStringAsResp(Some(s))
  {
    assert [s][1..] == [];
  }

  // ---------------------------------------------------------------------
  // A length-driven reader for one bulk string, the reading the wire
  // format's length header is meant for.

  /** The number of decimal digits at the front of s. */
  function DigitPrefixLength(s: string): (n: nat)
    ensures n <= |s| && IsDigits(s[..n])
    ensures n < |s| ==> !IsDigit(s[n])
  {
    if s != [] && IsDigit(s[0]) then 1 + DigitPrefixLength(s[1..]) else 0
  }

  /**
   * Reads "$" len CRLF, then takes exactly len characters, which must be
   * followed by CRLF. The payload may hold any character, CR and LF included.
   */
  function ReadBulk(s: string): Option<string> {
    if s == [] || s[0] != '$' then None
    else
      var t := s[1..];
      var n := DigitPrefixLength(t);
      if n == 0 then None
      else
        var len := DigitsValue(t[..n]);
        var u := t[n..];
        if |u| < 2 || u[..2] != CRLF then None
        else
          var w := u[2..];
          if |w| < len + 2 || w[len..len + 2] != CRLF then None
          else Some(w[..len])
  }

  lemma {:induction false} DigitPrefixOfDigits(d: string, t: string)
    requires IsDigits(d)
    requires t == [] || !IsDigit(t[0])
    ensures DigitPrefixLength(d + t) == |d|
  {
    if d != [] {
      assert (d + t)[1..] == d[1..] + t;
      DigitPrefixOfDigits(d[1..], t);
    }
  }

  /** Binary-safe round trip of a bulk string: the length header finds the payload back exactly. */
  lemma ReadBulkOfBulk(s: string)
    ensures ReadBulk(Bulk(s)) == Some(s)
  {
    var d := Decimal(|s|);
    var w := s + CRLF;
    var u := CRLF + w;
    var t := d + u;
    RightNested("$", d, CRLF, s, CRLF);
    SplitAtSeam("$", t);
    DigitPrefixOfDigits(d, u);
    SplitAtSeam(d, u);
    DecimalValue(|s|);
    SplitAtSeam(CRLF, w);
    SplitAtSeam(s, CRLF);
    assert w[|s|..|s| + 2] == w[|s|..];
  }

  /** The null reply is not the encoding of any string, and distinct values encode differently. */
  lemma EncodeStringAsRespInjective(a: Option<string>, b: Option<string>)
    ensures EncodeStringAsResp(a) == EncodeStringAsResp(b) ==> a == b
  {
    assert ReadBulk(NULL_RESPONSE) == None by {
      assert NULL_RESPONSE[1..][0] == '-';
    }
    if a.Some? { ReadBulkOfBulk(a.value); }
    if b.Some? { ReadBulkOfBulk(b.value); }
  }

  // ---------------------------------------------------------------------
  // The request tokenizer

  predicate StartsWith(s: string, c: char) { s != [] && s[0] == c }

  /** The tokens parseRESP walks: CRLF replaced by commas, then split on commas. */
  function Parts(input: string): seq<string> {
    Split(ReplaceCrlf(input))
  }

  /**
   * The element loop of parseRESP from token `index`, with `remaining`
   * elements still wanted: each "$" token is skipped and the token after it
   * taken. A token without "$" leaves the loop with nothing to do, forever.
   */
  function Collect(parts: seq<string>, index: nat, remaining: int): Result<seq<string>>
    decreases |parts| - index
  {
    if remaining <= 0 || index >= |parts| then Ok([])
    else if !StartsWith(parts[index], '$') then Err(NonTermination)
    else if index + 1 >= |parts| then Ok([])
    else
      match Collect(parts, index + 2, remaining - 1)
      case Ok(rest) => Ok([parts[index + 1]] + rest)
      case Err(e) => Err(e)
  }

  /** parseRESP, with an unparseable count, a missing first token and the spin made explicit. */
  function ParseSpec(input: string): Result<seq<string>> {
    var parts := Parts(input);
    if |parts| == 0 then Err(IndexOutOfBounds)
    else if !StartsWith(parts[0], '*') then Ok([])
    else
      match ParseInt(parts[0][1..])
      case None => Err(NumberFormat)
      case Some(n) => Collect(parts, 1, n)
  }

  function Prepend(xs: seq<string>, r: Result<seq<string>>): Result<seq<string>> {
    match r
    case Ok(ys) => Ok(xs + ys)
    case Err(e) => Err(e)
  }

  lemma PrependNothing(r: Result<seq<string>>)
    ensures Prepend([], r) == r
  {
    if r.Ok? {
      assert [] + r.value == r.value;
    }
  }

  lemma PrependTwice(xs: seq<string>, x: string, r: Result<seq<string>>)
    ensures Prepend(xs, Prepend([x], r)) == Prepend(xs + [x], r)
  {
    if r.Ok? {
      assert xs + ([x] + r.value) == (xs + [x]) + r.value;
    }
  }

  /** One element of the loop: a "$" token followed by the value token. */
  lemma CollectStep(parts: seq<string>, index: nat, remaining: int)
    requires 0 < remaining && index + 1 < |parts| && StartsWith(parts[index], '$')
    ensures Collect(parts, index, remaining) == Prepend([parts[index + 1]], Collect(parts, index + 2, remaining - 1))
  {
  }

  /** parseRESP: the source's index/list-append loop. */
  method ParseResp(input: string) returns (r: Result<seq<string>>)
    ensures r == ParseSpec(input)
  {
    var parts := Parts(input);
    if |parts| == 0 {
      return Err(IndexOutOfBounds);
    }
    var parsedElements: seq<string> := [];
    var index := 0;
    if StartsWith(parts[index], '*') {
      var count := ParseInt(parts[index][1..]);
      if count.None? {
        return Err(NumberFormat);
      }
      var numElements := count.value;
      index := index + 1;
      PrependNothing(Collect(parts, index, numElements));
      while |parsedElements| < numElements && index < |parts|
        invariant 1 <= index <= |parts|
        invariant Collect(parts, 1, numElements) == Prepend(parsedElements, Collect(parts, index, numElements - |parsedElements|))
        decreases |parts| - index
      {
        if StartsWith(parts[index], '$') {
          index := index + 1;
          if index < |parts| {
            ghost var rest := Collect(parts, index + 1, numElements - |parsedElements| - 1);
            CollectStep(parts, index - 1, numElements - |parsedElements|);
            PrependTwice(parsedElements, parts[index], rest);
            parsedElements := parsedElements + [parts[index]];
            index := index + 1;
          }
        } else {
          // The source's loop stays on this token without end.
          return Err(NonTermination);
        }
      }
      assert Collect(parts, index, numElements - |parsedElements|) == Ok([]);
      assert parsedElements + [] == parsedElements;
    }
    return Ok(parsedElements);
  }

  // ---------------------------------------------------------------------
  // What parseRESP returns

  /**
   * The loop from token `index` returns at most `remaining` elements; the
   * k-th is the token right after the "$" token at index + 2k.
   */
  lemma {:induction false} CollectShape(parts: seq<string>, index: nat, remaining: int)
    requires index <= |parts|
    ensures Collect(parts, index, remaining).Ok? ==>
      var r := Collect(parts, index, remaining).value;
      && |r| == (if remaining <= 0 then 0 else Min(remaining, (|parts| - index) / 2))
      && forall k :: 0 <= k < |r| ==> StartsWith(parts[index + 2 * k], '$') && r[k] == parts[index + 2 * k + 1]
    decreases |parts| - index
  {
    if remaining <= 0 || index >= |parts| {
    } else if !StartsWith(parts[index], '$') {
    } else if index + 1 >= |parts| {
      assert |parts| == index + 1;
    } else {
      var c := Collect(parts, index + 2, remaining - 1);
      if c.Ok? {
        CollectShape(parts, index + 2, remaining - 1);
        var r := Collect(parts, index, remaining).value;
        assert r == [parts[index + 1]] + c.value;
        forall k | 0 <= k < |r| ensures StartsWith(parts[index + 2 * k], '$') && r[k] == parts[index + 2 * k + 1] {
          if k > 0 {
            assert r[k] == c.value[k - 1];
            assert index + 2 * k == (index + 2) + 2 * (k - 1);
          }
        }
      }
    }
  }

  /**
   * The loop faults only by spinning, and exactly when a token it examines
   * lacks "$".
   */
  lemma {:induction false} CollectFaults(parts: seq<string>, index: nat, remaining: int)
    requires index <= |parts|
    ensures Collect(parts, index, remaining).Err? ==> Collect(parts, index, remaining).error == NonTermination
    ensures Collect(parts, index, remaining).Err? <==>
      exists p :: index <= p < |parts| && (p - index) % 2 == 0 && p - index < 2 * remaining && !StartsWith(parts[p], '$')
    decreases |parts| - index
  {
    if remaining <= 0 || index >= |parts| {
    } else if !StartsWith(parts[index], '$') {
    } else if index + 1 >= |parts| {
      assert |parts| == index + 1;
    } else {
      CollectFaults(parts, index + 2, remaining - 1);
      var c := Collect(parts, index + 2, remaining - 1);
      if c.Ok? {
        assert Collect(parts, index, remaining).Ok?;
        forall p | index <= p < |parts| && (p - index) % 2 == 0 && p - index < 2 * remaining
          ensures StartsWith(parts[p], '$')
        {
          if p != index {
            assert (p - (index + 2)) % 2 == 0;
          }
        }
      } else {
        assert Collect(parts, index, remaining) == Err(c.error);
        var p :| index + 2 <= p < |parts| && (p - (index + 2)) % 2 == 0 && p - (index + 2) < 2 * (remaining - 1) && !StartsWith(parts[p], '$');
        assert (p - index) % 2 == 0 && p - index < 2 * remaining;
      }
    }
  }

  /** Every element taken follows a "$" token, in input order, and there are at most as many as the count. */
  lemma ParseSpecShape(input: string)
    requires ParseSpec(input).Ok?
    ensures var parts := Parts(input); var r := ParseSpec(input).value;
      && (r != [] ==> StartsWith(parts[0], '*') && 0 < |r| <= ParseInt(parts[0][1..]).value)
      && forall k :: 0 <= k < |r| ==> 2 * k + 2 < |parts| && StartsWith(parts[2 * k + 1], '$') && r[k] == parts[2 * k + 2]
  {
    var parts := Parts(input);
    if StartsWith(parts[0], '*') {
      CollectShape(parts, 1, ParseInt(parts[0][1..]).value);
    }
  }

  /** A request whose first token is not an array header yields no elements. */
  lemma ParseSpecNotArray(input: string)
    requires |Parts(input)| > 0 && !StartsWith(Parts(input)[0], '*')
    ensures ParseSpec(input) == Ok([])
  {
  }

  // ---------------------------------------------------------------------
  // Declared lengths are never used: any "$" tokens in front of the values
  // give the same elements.

  /** Header and value tokens, alternating: hs[0], xs[0], hs[1], xs[1], ... */
  function Interleave(hs: seq<string>, xs: seq<string>): (r: seq<string>)
    requires |hs| == |xs|
    ensures |r| == 2 * |xs|
  {
    if xs == [] then [] else [hs[0], xs[0]] + Interleave(hs[1..], xs[1..])
  }

  lemma {:induction false} CollectInterleave(pre: seq<string>, hs: seq<string>, xs: seq<string>, remaining: int)
    requires |hs| == |xs|
    requires forall i :: 0 <= i < |hs| ==> StartsWith(hs[i], '$')
    ensures Collect(pre + Interleave(hs, xs), |pre|, remaining) == Ok(if remaining <= 0 then [] else xs[..Min(remaining, |xs|)])
    decreases |xs|
  {
    var parts := pre + Interleave(hs, xs);
    if remaining > 0 && xs != [] {
      var pre' := pre + [hs[0], xs[0]];
      assert parts == pre' + Interleave(hs[1..], xs[1..]);
      CollectInterleave(pre', hs[1..], xs[1..], remaining - 1);
      assert parts[|pre|] == hs[0] && parts[|pre| + 1] == xs[0];
      var m := Min(remaining - 1, |xs| - 1);
      if remaining - 1 > 0 {
        assert [xs[0]] + xs[1..][..m] == xs[..Min(remaining, |xs|)];
      } else {
        assert remaining == 1;
        assert Collect(parts, |pre| + 2, 0) == Ok([]);
        assert Collect(parts, |pre|, 1) == Ok([xs[0]] + []);
        assert [xs[0]] + [] == [xs[0]];
        assert xs[..Min(remaining, |xs|)] == [xs[0]];
      }
    }
  }

  // ---------------------------------------------------------------------
  // Round trip: an array reply, trimmed as the server trims every request,
  // tokenizes back to its elements.

  /** Elements that survive comma splitting and trimming. */
  predicate WireSafe(xs: seq<string>) {
    && |xs| <= INT_MAX
    && (forall i :: 0 <= i < |xs| ==> ',' !in xs[i] && '\r' !in xs[i])
    && EndsVisible(xs)
  }

  /** The last element, if any, ends in a character trim keeps. */
  predicate EndsVisible(xs: seq<string>) {
    xs != [] ==> xs[|xs| - 1] != [] && !IsBlank(xs[|xs| - 1][|xs[|xs| - 1]| - 1])
  }

  function Headers(xs: seq<string>): (hs: seq<string>)
    ensures |hs| == |xs|
    ensures forall i :: 0 <= i < |xs| ==> hs[i] == "$" + Decimal(|xs[i]|)
  {
    if xs == [] then [] else ["$" + Decimal(|xs[0]|)] + Headers(xs[1..])
  }

  function JoinCrlf(ps: seq<string>): string
    requires |ps| > 0
  {
    if |ps| == 1 then ps[0] else ps[0] + CRLF + JoinCrlf(ps[1..])
  }

  lemma {:induction false} BulkAllAsJoin(h: string, xs: seq<string>)
    ensures h + CRLF + BulkAll(xs) == JoinCrlf([h] + Interleave(Headers(xs), xs)) + CRLF
    decreases |xs|
  {
    if xs != [] {
      var hd := "$" + Decimal(|xs[0]|);
      var rest := Interleave(Headers(xs[1..]), xs[1..]);
      assert Headers(xs)[0] == hd && Headers(xs)[1..] == Headers(xs[1..]);
      var ps := [h] + Interleave(Headers(xs), xs);
      assert ps == [h, hd, xs[0]] + rest;
      assert ps[1..] == [hd, xs[0]] + rest;
      assert ps[1..][1..] == [xs[0]] + rest;
      BulkAllAsJoin(xs[0], xs[1..]);
      calc {
        h + CRLF + BulkAll(xs);
        h + CRLF + (hd + CRLF + xs[0] + CRLF + BulkAll(xs[1..]));
        h + CRLF + hd + CRLF + (xs[0] + CRLF + BulkAll(xs[1..]));
        h + CRLF + hd + CRLF + (JoinCrlf([xs[0]] + rest) + CRLF);
        h + CRLF + (hd + CRLF + JoinCrlf([xs[0]] + rest)) + CRLF;
        h + CRLF + JoinCrlf(ps[1..]) + CRLF;
        JoinCrlf(ps) + CRLF;
      }
    }
  }

  lemma {:induction false} ReplaceJoinCrlf(ps: seq<string>)
    requires |ps| > 0
    requires forall i :: 0 <= i < |ps| ==> '\r' !in ps[i]
    ensures ReplaceCrlf(JoinCrlf(ps)) == JoinComma(ps)
  {
    if |ps| > 1 {
      ReplaceJoinCrlf(ps[1..]);
      ReplaceCrlfAcross(ps[0], JoinCrlf(ps[1..]));
    } else {
      ReplaceCrlfNoCr(ps[0]);
    }
  }

  lemma {:induction false} JoinCrlfEnds(ps: seq<string>)
    requires |ps| > 0 && ps[0] != [] && ps[|ps| - 1] != []
    ensures JoinCrlf(ps) != [] && JoinCrlf(ps)[0] == ps[0][0]
    ensures JoinCrlf(ps)[|JoinCrlf(ps)| - 1] == ps[|ps| - 1][|ps[|ps| - 1]| - 1]
  {
    if |ps| > 1 {
      if ps[1] != [] {
        JoinCrlfEnds(ps[1..]);
      } else {
        JoinCrlfLast(ps[1..]);
      }
    }
  }

  lemma {:induction false} JoinCrlfLast(ps: seq<string>)
    requires |ps| > 0 && ps[|ps| - 1] != []
    ensures JoinCrlf(ps) != [] && JoinCrlf(ps)[|JoinCrlf(ps)| - 1] == ps[|ps| - 1][|ps[|ps| - 1]| - 1]
  {
    if |ps| > 1 {
      JoinCrlfLast(ps[1..]);
    }
  }

  /**
   * A well-formed array request, "*" count followed by "$" tokens and
   * values, gives back its values cut to the count, whatever the "$" tokens
   * say: declared lengths are never used.
   */
  lemma ParseIgnoresDeclaredLengths(n: nat, hs: seq<string>, xs: seq<string>)
    requires n <= INT_MAX && |hs| == |xs|
    requires forall i :: 0 <= i < |hs| ==> StartsWith(hs[i], '$') && ',' !in hs[i] && '\r' !in hs[i]
    requires forall i :: 0 <= i < |xs| ==> ',' !in xs[i] && '\r' !in xs[i]
    requires xs != [] ==> xs[|xs| - 1] != ""
    ensures ParseSpec(JoinCrlf(["*" + Decimal(n)] + Interleave(hs, xs))) == Ok(xs[..Min(n, |xs|)])
  {
    var h := "*" + Decimal(n);
    var ps := [h] + Interleave(hs, xs);
    assert Parts(JoinCrlf(ps)) == ps by {
      forall i | 0 <= i < |ps| ensures ',' !in ps[i] && '\r' !in ps[i] {
        if i > 0 { InterleaveAt(hs, xs, i - 1); }
      }
      if xs != [] { InterleaveLast(hs, xs); }
      PartsOfJoinCrlf(ps);
    }
    assert ParseInt(ps[0][1..]) == Some(n) by {
      assert ps[0][1..] == Decimal(n);
      ParseDecimalOfDecimal(n, INT_MIN, INT_MAX);
    }
    assert StartsWith(ps[0], '*');
    CollectInterleave([h], hs, xs, n);
    if n == 0 { assert xs[..0] == []; }
  }

  /** Tokens free of commas and CR, the last one not empty, come back from their CRLF join. */
  lemma PartsOfJoinCrlf(ps: seq<string>)
    requires |ps| > 0
    requires forall i :: 0 <= i < |ps| ==> ',' !in ps[i] && '\r' !in ps[i]
    requires |ps| > 1 ==> ps[|ps| - 1] != ""
    ensures Parts(JoinCrlf(ps)) == ps
  {
    ReplaceJoinCrlf(ps);
    SplitOfJoin(ps);
  }

  /** A marker character followed by a numeral holds neither comma nor CR. */
  lemma MarkedNumeralSafe(c: char, n: nat)
    requires c != ',' && c != '\r'
    ensures ',' !in [c] + Decimal(n) && '\r' !in [c] + Decimal(n)
  {
    var d := Decimal(n);
    var t := [c] + d;
    forall k | 0 <= k < |t| ensures t[k] != ',' && t[k] != '\r' {
      if k > 0 { assert t[k] == d[k - 1]; }
    }
  }

  /** Each "$" header is "$" and digits: it starts with '$' and holds neither comma nor CR. */
  lemma HeadersSafe(xs: seq<string>)
    ensures forall i :: 0 <= i < |xs| ==>
      StartsWith(Headers(xs)[i], '$') && ',' !in Headers(xs)[i] && '\r' !in Headers(xs)[i]
  {
    var hs := Headers(xs);
    forall i | 0 <= i < |xs| ensures StartsWith(hs[i], '$') && ',' !in hs[i] && '\r' !in hs[i] {
      MarkedNumeralSafe('$', |xs[i]|);
      assert hs[i] == "$" + Decimal(|xs[i]|);
    }
  }

  /** A comma inside the last token splits it in two. */
  lemma CommaSplitsToken(h0: string, h: string, a: string, b: string)
    requires b != []
    requires ',' !in h0 && '\r' !in h0 && ',' !in h && '\r' !in h
    requires ',' !in a && '\r' !in a && ',' !in b && '\r' !in b
    ensures Parts(JoinCrlf([h0, h, a + "," + b])) == [h0, h, a, b]
  {
    var ps := [h0, h, a + "," + b];
    forall i | 0 <= i < |ps| ensures '\r' !in ps[i] { }
    ReplaceJoinCrlf(ps);
    var qs := [h0, h, a, b];
    assert JoinComma(ps) == JoinComma(qs) by {
      assert ps[1..] == [h, a + "," + b] && ps[1..][1..] == [a + "," + b];
      assert qs[1..] == [h, a, b] && qs[1..][1..] == [a, b] && qs[1..][1..][1..] == [b];
      calc {
        JoinComma(ps);
        h0 + "," + JoinComma([h, a + "," + b]);
        h0 + "," + (h + "," + JoinComma([a + "," + b]));
        h0 + "," + (h + "," + JoinComma([a, b]));
        h0 + "," + JoinComma([h, a, b]);
        JoinComma(qs);
      }
    }
    SplitOfJoin(qs);
  }

  /**
   * The tokenizer is not binary-safe: the one-element array holding "a,b"
   * comes back as the element a alone, its declared length notwithstanding.
   */
  lemma CommaCutsValue(a: string, b: string)
    requires a != [] && b != [] && !IsBlank(b[|b| - 1])
    requires ',' !in a && '\r' !in a && ',' !in b && '\r' !in b
    ensures ParseSpec(Trim(ArrayReply([a + "," + b]))) == Ok([a])
  {
    var v := a + "," + b;
    var xs := [v];
    var h0 := "*" + Decimal(1);
    var h := "$" + Decimal(|v|);
    var ps := [h0] + Interleave(Headers(xs), xs);
    var input := Trim(ArrayReply(xs));
    assert input == JoinCrlf(ps) by {
      assert v[|v| - 1] == b[|b| - 1];
      TrimArrayReply(xs);
    }
    assert ps == [h0, h, v] by {
      assert Headers(xs) == [h];
      assert Interleave([h], xs) == [h, v] + Interleave([], []);
    }
    MarkedNumeralSafe('*', 1);
    MarkedNumeralSafe('$', |v|);
    CommaSplitsToken(h0, h, a, b);
    ParseOneElement(input, h, a, b);
  }

  /** Tokens "*1", a "$" token, a and b parse to the one element a. */
  lemma ParseOneElement(input: string, h: string, a: string, b: string)
    requires Parts(input) == ["*" + Decimal(1), h, a, b] && StartsWith(h, '$')
    ensures ParseSpec(input) == Ok([a])
  {
    var qs := Parts(input);
    assert ParseInt(qs[0][1..]) == Some(1) by {
      assert qs[0][1..] == Decimal(1);
      ParseDecimalOfDecimal(1, INT_MIN, INT_MAX);
    }
    assert Collect(qs, 1, 1) == Ok([a]) by {
      assert Collect(qs, 3, 0) == Ok([]);
      assert [a] + [] == [a];
    }
  }

  /** Trimming an array reply leaves its tokens joined by CRLF. */
  lemma TrimArrayReply(xs: seq<string>)
    requires EndsVisible(xs)
    ensures Trim(ArrayReply(xs)) == JoinCrlf(["*" + Decimal(|xs|)] + Interleave(Headers(xs), xs))
  {
    var h := "*" + Decimal(|xs|);
    var ps := [h] + Interleave(Headers(xs), xs);
    ArrayReplyAsJoin(xs);
    CountHeaderVisible(|xs|);
    LastTokenVisible(h, xs, ps);
    TrimJoinCrlf(ps);
  }

  lemma ArrayReplyAsJoin(xs: seq<string>)
    ensures ArrayReply(xs) == JoinCrlf(["*" + Decimal(|xs|)] + Interleave(Headers(xs), xs)) + CRLF
  {
    BulkAllAsJoin("*" + Decimal(|xs|), xs);
  }

  /** The count header starts with '*' and ends with a digit. */
  lemma CountHeaderVisible(n: nat)
    ensures var h := "*" + Decimal(n); h != [] && h[0] == '*' && !IsBlank(h[|h| - 1])
  {
    var d := Decimal(n);
    var h := "*" + d;
    assert h[|h| - 1] == d[|d| - 1];
  }

  /** The last token of a reply is a visible-ended element, or the header when there is none. */
  lemma LastTokenVisible(h: string, xs: seq<string>, ps: seq<string>)
    requires EndsVisible(xs)
    requires h != [] && !IsBlank(h[|h| - 1])
    requires ps == [h] + Interleave(Headers(xs), xs)
    ensures ps[|ps| - 1] != [] && !IsBlank(ps[|ps| - 1][|ps[|ps| - 1]| - 1])
  {
    if xs != [] {
      InterleaveLast(Headers(xs), xs);
      assert ps[|ps| - 1] == xs[|xs| - 1];
    }
  }

  /** Tokens that start and end visibly, joined by CRLF, lose only the final CRLF when trimmed. */
  lemma TrimJoinCrlf(ps: seq<string>)
    requires |ps| > 0 && ps[0] != [] && !IsBlank(ps[0][0])
    requires ps[|ps| - 1] != [] && !IsBlank(ps[|ps| - 1][|ps[|ps| - 1]| - 1])
    ensures Trim(JoinCrlf(ps) + CRLF) == JoinCrlf(ps)
  {
    JoinCrlfEnds(ps);
    TrimDropsFinalCrlf(JoinCrlf(ps));
  }

  /** An array reply, trimmed as every request is, tokenizes back to its elements. */
  lemma RoundTrip(xs: seq<string>)
    requires WireSafe(xs)
    ensures ParseSpec(Trim(ArrayReply(xs))) == Ok(xs)
  {
    TrimArrayReply(xs);
    HeadersSafe(xs);
    ParseIgnoresDeclaredLengths(|xs|, Headers(xs), xs);
    assert xs[..|xs|] == xs;
  }

  lemma {:induction false} InterleaveAt(hs: seq<string>, xs: seq<string>, j: nat)
    requires |hs| == |xs| && j < 2 * |xs|
    ensures Interleave(hs, xs)[j] == if j % 2 == 0 then hs[j / 2] else xs[j / 2]
  {
    if j >= 2 {
      InterleaveAt(hs[1..], xs[1..], j - 2);
    }
  }

  lemma InterleaveLast(hs: seq<string>, xs: seq<string>)
    requires |hs| == |xs| && xs != []
    ensures Interleave(hs, xs)[2 * |xs| - 1] == xs[|xs| - 1]
  {
    InterleaveAt(hs, xs, 2 * |xs| - 1);
  }
}
