/**
 * process_map_file of main.cc: the barrier map is a text of one or more
 * "x,y" pairs of 32-bit signed integers. Whitespace (the six ASCII space
 * characters) may precede each integer and the comma, and may follow the last
 * pair; the integers themselves are single lexemes. Pairs are matched greedily,
 * and the whole text must be consumed: any failure, including trailing text
 * that is not a pair, yields the empty list rather than the pairs read so far.
 *
 * The parser works on the text that remains: every function returns the
 * unconsumed suffix.
 */
module MapFile {

  datatype Option<T> = None | Some(value: T)

  /** One barrier coordinate (x, y). */
  type Pair = (int, int)

  const INT_MIN: int := -0x8000_0000
  const INT_MAX: int := 0x7FFF_FFFF

  /** The characters the ASCII space skipper skips: space, tab, newline, vertical tab, form feed, carriage return. */
  predicate IsSpace(c: char)
  {
    c == ' ' || c == '\t' || c == '\n' || c == '\U{0B}' || c == '\U{0C}' || c == '\r'
  }

  predicate IsDigit(c: char)
  {
    '0' <= c <= '9'
  }

  predicate AllSpace(s: string)
  {
    forall i :: 0 <= i < |s| ==> IsSpace(s[i])
  }

  predicate AllDigits(s: string)
  {
    forall i :: 0 <= i < |s| ==> IsDigit(s[i])
  }

  /** A text that is empty or does not start with a digit: a number written before it ends there. */
  predicate NoDigitAhead(s: string)
  {
    |s| == 0 || !IsDigit(s[0])
  }

  // ---------------------------------------------------------------------
  // Lexing
  // ---------------------------------------------------------------------

  /** The skipper: drops the leading whitespace. */
  function SkipSpace(s: string): (r: string)
    ensures |r| <= |s|
    ensures |r| == 0 || !IsSpace(r[0])
  {
    if |s| > 0 && IsSpace(s[0]) then SkipSpace(s[1..]) else s
  }

  /** The length of the run of digits the text starts with. */
  function DigitRun(s: string): (n: nat)
    ensures n <= |s| && (n == |s| || !IsDigit(s[n]))
    ensures forall i :: 0 <= i < n ==> IsDigit(s[i])
  {
    if |s| > 0 && IsDigit(s[0]) then
      var m := DigitRun(s[1..]);
      assert forall i :: 1 <= i < 1 + m ==> s[i] == s[1..][i - 1];
      1 + m
    else 0
  }

  /** Splits the longest run of leading digits off the text. */
  function TakeDigits(s: string): (r: (string, string))
    ensures AllDigits(r.0) && r.0 + r.1 == s && NoDigitAhead(r.1)
  {
    var n := DigitRun(s);
    assert s[..n] + s[n..] == s;
    (s[..n], s[n..])
  }

  /** The value of a decimal digit string, most significant digit first. */
  function Value(d: string): nat
    requires AllDigits(d)
  {
    if |d| == 0 then 0 else Value(d[..|d| - 1]) * 10 + (d[|d| - 1] - '0') as nat
  }

  /** The optional sign in front of the digits of int_: whether it is a minus, and the text after it. */
  function Sign(s: string): (r: (bool, string))
    ensures |r.1| <= |s|
    ensures r.0 ==> |s| > 0 && s[0] == '-' && r.1 == s[1..]
  {
    if |s| > 0 && (s[0] == '-' || s[0] == '+') then (s[0] == '-', s[1..]) else (false, s)
  }

  /** The value of a signed digit run, when it fits in 32 bits. */
  function Signed(negative: bool, digits: string): (r: Option<int>)
    requires AllDigits(digits)
    ensures r.Some? <==> (if negative then Value(digits) <= -INT_MIN else Value(digits) <= INT_MAX)
    ensures r.Some? ==> INT_MIN <= r.value <= INT_MAX && r.value == (if negative then -(Value(digits) as int) else Value(digits) as int)
  {
    var v: int := if negative then -(Value(digits) as int) else Value(digits);
    if v < INT_MIN || v > INT_MAX then None else Some(v)
  }

  /**
   * int_: an optional sign, then at least one digit, with no whitespace in
   * between; the value must fit in 32 bits, otherwise the integer fails.
   */
  function ParseInt(s: string): (r: Option<(int, string)>)
    ensures r.Some? ==> INT_MIN <= r.value.0 <= INT_MAX && |r.value.1| < |s| && NoDigitAhead(r.value.1)
  {
    var (negative, body) := Sign(s);
    var (digits, rest) := TakeDigits(body);
    if |digits| == 0 then None
    else
      match Signed(negative, digits)
      case None => None
      case Some(v) =>
        assert |body| == |digits| + |rest|;
        Some((v, rest))
  }

  // ---------------------------------------------------------------------
  // The grammar +(int_ >> ',' >> int_) under the space skipper
  // ---------------------------------------------------------------------

  /** One pair: skip, int_, skip, ',', skip, int_. The whitespace after the pair is left in place. */
  function ParsePair(s: string): (r: Option<(Pair, string)>)
    ensures r.Some? ==> |r.value.1| < |s|
    ensures r.Some? ==> INT_MIN <= r.value.0.0 <= INT_MAX && INT_MIN <= r.value.0.1 <= INT_MAX
  {
    match ParseInt(SkipSpace(s))
    case None => None
    case Some((x, s1)) =>
      var s2 := SkipSpace(s1);
      if |s2| == 0 || s2[0] != ',' then None
      else
        match ParseInt(SkipSpace(s2[1..]))
        case None => None
        case Some((y, s3)) => Some(((x, y), s3))
  }

  /** As many pairs as match, one after the other; the text after the last one is returned. */
  function ParsePairs(s: string): (r: (seq<Pair>, string))
    ensures |r.1| <= |s|
    ensures forall i :: 0 <= i < |r.0| ==> INT_MIN <= r.0[i].0 <= INT_MAX && INT_MIN <= r.0[i].1 <= INT_MAX
    decreases |s|
  {
    match ParsePair(s)
    case None => ([], s)
    case Some((p, rest)) =>
      var (ps, tail) := ParsePairs(rest);
      ([p] + ps, tail)
  }

  /**
   * process_map_file on the contents of the file: the pairs in input order if
   * at least one pair matched and only whitespace follows the last one; the
   * empty list otherwise.
   */
  function ProcessMapFile(s: string): (barriers: seq<Pair>)
    ensures forall i :: 0 <= i < |barriers| ==> INT_MIN <= barriers[i].0 <= INT_MAX && INT_MIN <= barriers[i].1 <= INT_MAX
  {
    var (ps, rest) := ParsePairs(s);
    if |ps| > 0 && |SkipSpace(rest)| == 0 then ps else []
  }

  // ---------------------------------------------------------------------
  // Writing barrier maps
  // ---------------------------------------------------------------------

  /** The decimal digits of n, without leading zeros. */
  function ShowNat(n: nat): (d: string)
    ensures |d| > 0 && AllDigits(d)
  {
    if n < 10 then [('0' as int + n) as char]
    else ShowNat(n / 10) + [('0' as int + n % 10) as char]
  }

  /** An integer as int_ reads it: a minus sign for negative values. */
  function Show(v: int): (s: string)
    ensures |s| > 0 && !IsSpace(s[0]) && s[0] != ','
    ensures v >= 0 ==> s == ShowNat(v)
  {
    if v < 0 then "-" + ShowNat(-v) else ShowNat(v)
  }

  /** The whitespace a writer puts before the x value, before the comma and after it. */
  datatype Spacing = Spacing(lead: string, beforeComma: string, afterComma: string)

  predicate SpacingOk(sp: Spacing)
  {
    AllSpace(sp.lead) && AllSpace(sp.beforeComma) && AllSpace(sp.afterComma)
  }

  /** The text of one pair laid out with its spacing, followed by the text `rest`. */
  function PairThen(p: Pair, sp: Spacing, rest: string): string
  {
    sp.lead + (Show(p.0) + (sp.beforeComma + ([','] + (sp.afterComma + (Show(p.1) + rest)))))
  }

  /** A map text listing ps in order, each pair laid out with its spacing, followed by `rest`. */
  function LayoutThen(ps: seq<Pair>, sps: seq<Spacing>, rest: string): string
    requires |sps| == |ps|
  {
    if |ps| == 0 then rest else PairThen(ps[0], sps[0], LayoutThen(ps[1..], sps[1..], rest))
  }

  /**
   * A well-formed layout: all values fit in 32 bits, the spacing is whitespace,
   * and every pair after the first is separated from the one before by
   * whitespace or by the sign of its first value.
   */
  predicate LayoutOk(ps: seq<Pair>, sps: seq<Spacing>)
  {
    |sps| == |ps|
    && (forall i :: 0 <= i < |ps| ==> INT_MIN <= ps[i].0 <= INT_MAX && INT_MIN <= ps[i].1 <= INT_MAX)
    && (forall i :: 0 <= i < |ps| ==> SpacingOk(sps[i]))
    && (forall i :: 0 < i < |ps| ==> |sps[i].lead| > 0 || ps[i].0 < 0)
  }

  // ---------------------------------------------------------------------
  // Lemmas
  // ---------------------------------------------------------------------

  lemma {:induction false} SkipSpaceOver(w: string, s: string)
    requires AllSpace(w)
    ensures SkipSpace(w + s) == SkipSpace(s)
    decreases |w|
  {
    if |w| > 0 {
      assert (w + s)[1..] == w[1..] + s;
      SkipSpaceOver(w[1..], s);
    } else {
      assert w + s == s;
    }
  }

  /** The skipper stops at the first character that is not whitespace. */
  lemma SkipTo(w: string, t: string)
    requires AllSpace(w) && |t| > 0 && !IsSpace(t[0])
    ensures SkipSpace(w + t) == t
  {
    SkipSpaceOver(w, t);
  }

  /** The skipper consumes a text entirely exactly when it is all whitespace. */
  lemma {:induction false} SkipSpaceEmpty(s: string)
    ensures |SkipSpace(s)| == 0 <==> AllSpace(s)
  {
    if |s| > 0 && IsSpace(s[0]) {
      SkipSpaceEmpty(s[1..]);
      assert forall i :: 1 <= i < |s| ==> s[i] == s[1..][i - 1];
    }
  }

  /** The digit run ends exactly where the digits end. */
  lemma TakeDigitsOver(d: string, rest: string)
    requires AllDigits(d) && NoDigitAhead(rest)
    ensures TakeDigits(d + rest) == (d, rest)
  {
    var s := d + rest;
    var n := DigitRun(s);
    assert forall i :: 0 <= i < |d| ==> s[i] == d[i];
    assert |rest| > 0 ==> s[|d|] == rest[0];
    assert n == |d|;
    assert s[..n] == d && s[n..] == rest;
  }

  /** Reading the digits of n gives n back. */
  lemma {:induction false} ValueShowNat(n: nat)
    ensures Value(ShowNat(n)) == n
    decreases n
  {
    if n >= 10 {
      ValueShowNat(n / 10);
      var d := ShowNat(n);
      assert d[..|d| - 1] == ShowNat(n / 10);
    }
  }

  /** int_ on an optional minus sign, a digit run and a text that does not go on with a digit. */
  lemma ParseIntDigits(negative: bool, d: string, rest: string)
    requires |d| > 0 && AllDigits(d) && NoDigitAhead(rest)
    ensures var v := if negative then -(Value(d) as int) else Value(d) as int;
      ParseInt((if negative then "-" else "") + (d + rest)) == if INT_MIN <= v <= INT_MAX then Some((v, rest)) else None
  {
    var s := (if negative then "-" else "") + (d + rest);
    TakeDigitsOver(d, rest);
    if negative {
      assert s[1..] == d + rest;
    } else {
      assert s == d + rest;
      assert IsDigit(s[0]);
    }
    assert Sign(s) == (negative, d + rest);
  }

  /** int_ reads back any 32-bit value written by Show, up to the first non-digit. */
  lemma ParseIntShow(v: int, rest: string)
    requires INT_MIN <= v <= INT_MAX && NoDigitAhead(rest)
    ensures ParseInt(Show(v) + rest) == Some((v, rest))
  {
    var n: nat := if v < 0 then -v else v;
    ValueShowNat(n);
    ParseIntDigits(v < 0, ShowNat(n), rest);
    assert Show(v) + rest == (if v < 0 then "-" else "") + (ShowNat(n) + rest);
  }

  /** int_ rejects a number beyond 32 bits, rather than reading part of it. */
  lemma ParseIntOverflow(n: nat, rest: string)
    requires n > INT_MAX && NoDigitAhead(rest)
    ensures ParseInt(ShowNat(n) + rest) == None
  {
    ValueShowNat(n);
    ParseIntDigits(false, ShowNat(n), rest);
    assert "" + (ShowNat(n) + rest) == ShowNat(n) + rest;
  }

  /** A laid-out pair is read as one pair, leaving exactly the text after it. */
  lemma ParsePairText(p: Pair, sp: Spacing, rest: string)
    requires INT_MIN <= p.0 <= INT_MAX && INT_MIN <= p.1 <= INT_MAX
    requires SpacingOk(sp) && NoDigitAhead(rest)
    ensures ParsePair(PairThen(p, sp, rest)) == Some((p, rest))
  {
    var t4 := Show(p.1) + rest;
    var t3 := sp.afterComma + t4;
    var t2 := [','] + t3;
    var t1 := sp.beforeComma + t2;
    var t0 := Show(p.0) + t1;
    SkipTo(sp.lead, t0);
    assert t1[0] == (if |sp.beforeComma| > 0 then sp.beforeComma[0] else ',');
    ParseIntShow(p.0, t1);
    SkipTo(sp.beforeComma, t2);
    assert t2[1..] == t3;
    SkipTo(sp.afterComma, t4);
    ParseIntShow(p.1, rest);
  }

  /** After one matched pair, the repetition goes on with the text that follows it. */
  lemma ParsePairsCons(s: string, p: Pair, rest: string)
    requires ParsePair(s) == Some((p, rest))
    ensures ParsePairs(s) == ([p] + ParsePairs(rest).0, ParsePairs(rest).1)
  {
  }

  /** The layout of the pairs after the first is itself well formed and cannot extend a number before it. */
  lemma LayoutTail(ps: seq<Pair>, sps: seq<Spacing>, rest: string)
    requires |ps| > 0 && LayoutOk(ps, sps) && NoDigitAhead(rest)
    ensures LayoutOk(ps[1..], sps[1..])
    ensures NoDigitAhead(LayoutThen(ps[1..], sps[1..], rest))
  {
    if |ps| > 1 {
      var more := LayoutThen(ps[1..], sps[1..], rest);
      var sp := sps[1];
      if |sp.lead| > 0 {
        assert more[0] == sp.lead[0];
      } else {
        assert more[0] == Show(ps[1].0)[0] == '-';
      }
    }
  }

  lemma ConsAppend(ps: seq<Pair>, after: seq<Pair>)
    requires |ps| > 0
    ensures [ps[0]] + (ps[1..] + after) == ps + after
  {
    assert [ps[0]] + ps[1..] == ps;
  }

  /** A well-formed layout is read pair by pair; parsing then goes on with the text after it. */
  lemma {:induction false} ParsePairsLayout(ps: seq<Pair>, sps: seq<Spacing>, rest: string)
    requires LayoutOk(ps, sps) && NoDigitAhead(rest)
    ensures ParsePairs(LayoutThen(ps, sps, rest)) == (ps + ParsePairs(rest).0, ParsePairs(rest).1)
    decreases |ps|
  {
    var after := ParsePairs(rest).0;
    if |ps| == 0 {
      assert ps + after == after;
    } else {
      var more := LayoutThen(ps[1..], sps[1..], rest);
      LayoutTail(ps, sps, rest);
      ParsePairText(ps[0], sps[0], more);
      ParsePairsCons(LayoutThen(ps, sps, rest), ps[0], more);
      ParsePairsLayout(ps[1..], sps[1..], rest);
      ConsAppend(ps, after);
    }
  }

  /** Text made of whitespace alone holds no pair. */
  lemma NoPairInSpace(w: string)
    requires AllSpace(w)
    ensures ParsePairs(w) == ([], w)
  {
    SkipSpaceEmpty(w);
  }

  /**
   * Round trip: a well-formed layout of at least one pair, followed by any
   * whitespace, is read back as exactly its pairs in order.
   */
  lemma ProcessLayout(ps: seq<Pair>, sps: seq<Spacing>, trail: string)
    requires |ps| > 0 && LayoutOk(ps, sps) && AllSpace(trail)
    ensures ProcessMapFile(LayoutThen(ps, sps, trail)) == ps
  {
    NoPairInSpace(trail);
    ParsePairsLayout(ps, sps, trail);
    assert ps + [] == ps;
    SkipSpaceEmpty(trail);
  }

  /** An empty file, or one holding only whitespace, yields no barriers. */
  lemma ProcessSpace(w: string)
    requires AllSpace(w)
    ensures ProcessMapFile(w) == []
  {
    NoPairInSpace(w);
  }

  /**
   * process_map_file accepts exactly when at least one pair matched and only
   * whitespace is left after the last one, and then returns those pairs.
   */
  lemma ProcessAcceptsExactly(s: string)
    ensures |ProcessMapFile(s)| > 0 <==> |ParsePairs(s).0| > 0 && AllSpace(ParsePairs(s).1)
    ensures |ProcessMapFile(s)| > 0 ==> ProcessMapFile(s) == ParsePairs(s).0
  {
    SkipSpaceEmpty(ParsePairs(s).1);
  }

  /**
   * All or nothing: when the text after a well-formed map leaves anything but
   * whitespace unparsed, the whole file yields no barriers, not the pairs before it.
   */
  lemma ProcessTrailingJunk(ps: seq<Pair>, sps: seq<Spacing>, rest: string)
    requires LayoutOk(ps, sps) && NoDigitAhead(rest) && !AllSpace(ParsePairs(rest).1)
    ensures ProcessMapFile(LayoutThen(ps, sps, rest)) == []
  {
    ParsePairsLayout(ps, sps, rest);
    ProcessAcceptsExactly(LayoutThen(ps, sps, rest));
  }

  /** One stray character after a well-formed map (not whitespace, not a digit) is such a residue. */
  lemma ProcessStrayChar(ps: seq<Pair>, sps: seq<Spacing>, c: char)
    requires LayoutOk(ps, sps) && !IsSpace(c) && !IsDigit(c)
    ensures ProcessMapFile(LayoutThen(ps, sps, [c])) == []
  {
    assert SkipSpace([c]) == [c];
    assert ParseInt([c]).None? by {
      assert TakeDigits([c][1..]).0 == [];
    }
    assert ParsePairs([c]) == ([], [c]);
    assert !IsSpace([c][0]);
    ProcessTrailingJunk(ps, sps, [c]);
  }

  /** A file whose first number does not fit in 32 bits yields no barriers. */
  lemma ProcessOverflow(n: nat, rest: string)
    requires n > INT_MAX && NoDigitAhead(rest)
    ensures ProcessMapFile(ShowNat(n) + rest) == []
  {
    ParseIntOverflow(n, rest);
    assert SkipSpace(ShowNat(n) + rest) == ShowNat(n) + rest;
  }
}
