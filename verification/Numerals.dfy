/** Integers: the one spelling num writes for each, and the reader that accepts nothing else. */
module Numerals {
  import opened Basics
  import opened Bytes
  import opened Scan
  import opened Grammar
  import opened Tokens

  // ---- What num writes ----

  function Digits(u: nat): (s: bytes)
    ensures |s| > 0 && AllDigits(s)
    ensures u > 0 ==> s[0] != ZERO
    ensures u == 0 ==> s == [ZERO]
  {
    if u < 10 then [ZERO + u] else Digits(u / 10) + [ZERO + u % 10]
  }

  function NumText(n: int): (s: bytes) {
    if n < 0 then [MINUS] + Digits(-n) else Digits(n)
  }

  /** Go's unary minus on uint64. */
  function Negate64(u: uint64): uint64 {
    if u == 0 then 0 else TWO64 - u
  }

  /** Go's uint64(n): two's complement. */
  function ToUint64(n: int64): uint64 {
    if n < 0 then n + TWO64 else n
  }

  /** The digits still to write. */
  function DigitsLeft(u: nat): bytes {
    if u == 0 then [] else Digits(u)
  }

  function LowDigit(u: uint64): (c: byte) {
    ZERO + u % 10
  }

  function Tenth(u: uint64): (t: uint64)
    ensures u > 0 ==> t < u
  {
    u / 10
  }

  lemma LastDigit(u: uint64)
    requires u > 0
    ensures DigitsLeft(u) == DigitsLeft(Tenth(u)) + [LowDigit(u)]
  {
  }

  /** The digits still to write and those written are all of them. */
  ghost predicate Filled(whole: nat, u: nat, written: bytes) {
    DigitsLeft(whole) == DigitsLeft(u) + written
  }

  lemma FilledNext(whole: nat, u: uint64, written: bytes, next: bytes)
    requires Filled(whole, u, written) && u > 0 && next == [LowDigit(u)] + written
    ensures Filled(whole, Tenth(u), next)
  {
    hide DigitsLeft, Tenth, LowDigit;
    LastDigit(u);
    var left, c := DigitsLeft(Tenth(u)), [LowDigit(u)];
    assert (left + c) + written == left + (c + written);
  }

  lemma FilledEnds(whole: nat, written: bytes)
    requires whole > 0
    ensures Filled(whole, whole, []) && (Filled(whole, 0, written) ==> written == Digits(whole))
  {
    hide Digits;
    assert DigitsLeft(whole) + [] == DigitsLeft(whole) && [] + written == written;
  }

  lemma FewerDigits(u: uint64, k: int)
    requires 0 < u < Ten(k)
    ensures k > 0 && Tenth(u) < Ten(k - 1)
  {
  }

  /** The magnitude of every int64 fits an unsigned 64-bit integer, the minimum's too. */
  lemma MagnitudeOf(n: int64)
    ensures (if n < 0 then Negate64(ToUint64(n)) else ToUint64(n)) == if n < 0 then -(n as int) else n
    ensures (if n < 0 then -(n as int) else n as int) < TWO64 < Ten(20)
  {
    TenTwenty();
  }

  /** The digits of u into the end of the scratch array; p is where they begin. */
  method FillDigits(d: array<byte>, whole: uint64) returns (p: nat)
    requires d.Length == 24 && 0 < whole < Ten(20)
    modifies d
    ensures p <= 24 && d[p..] == Digits(whole)
  {
    hide Ten, Digits, LowDigit, Tenth, Filled;
    p := d.Length;
    var u: uint64 := whole;
    assert d[p..] == [];
    FilledEnds(whole, []);
    while u > 0
      invariant 4 <= p <= 24 && u < Ten(p - 4)
      invariant Filled(whole, u, d[p..])
      decreases u
    {
      ghost var written := d[p..];
      FewerDigits(u, p - 4);
      p := p - 1;
      d[p] := LowDigit(u);
      assert d[p..] == [LowDigit(u)] + written;
      FilledNext(whole, u, written, d[p..]);
      u := Tenth(u);
    }
    FilledEnds(whole, d[p..]);
  }

  /** num: the digits into the end of a 24-byte scratch array, then the sign, then the digits used. */
  method Num(out: bytes, n: int64) returns (r: bytes)
    ensures r == out + NumText(n)
  {
    if n == 0 {
      return out + [ZERO];
    }
    hide Ten, ToUint64, Negate64, Digits;
    var d := new byte[24](_ => 0);
    var u: uint64 := ToUint64(n);
    if n < 0 {
      u := Negate64(ToUint64(n));
    }
    MagnitudeOf(n);
    var p := FillDigits(d, u);
    r := out;
    if n < 0 {
      r := r + [MINUS];
    }
    r := r + d[p..];
    assert out + ([MINUS] + d[p..]) == (out + [MINUS]) + d[p..];
  }

  lemma TenTwenty()
    ensures Ten(20) == 100_000_000_000_000_000_000
  {
    assert Ten(5) == 100_000;
    assert Ten(10) == 100_000 * Ten(5);
    assert Ten(15) == 100_000 * Ten(10);
    assert Ten(20) == 100_000 * Ten(15);
  }

  function Ten(k: int): int {
    if k <= 0 then 1 else 10 * Ten(k - 1)
  }

  // ---- What a spelling means ----

  /** The number read so far, carried on by more digits. */
  function ValueFrom(u: nat, s: bytes): (v: nat)
    requires AllDigits(s)
    ensures v >= u
    decreases |s|
  {
    if |s| == 0 then u
    else
      assert s[0] in s;
      ValueFrom(u * 10 + (s[0] - ZERO), s[1..])
  }

  function IntegerValue(n: Number): int
    requires n.Ok()
  {
    var magnitude: int := ValueFrom(0, n.whole);
    if n.neg then -magnitude else magnitude
  }

  /** A number spelled as an integer: no fraction, no exponent, and no negative zero. */
  predicate IsInteger(n: Number)
    requires n.Ok()
  {
    n.frac.None? && n.exp.None? && !(n.neg && ValueFrom(0, n.whole) == 0)
  }

  lemma {:induction false} ValueAppend(u: nat, s: bytes, d: byte)
    requires AllDigits(s) && IsDigit(d)
    ensures AllDigits(s + [d]) && ValueFrom(u, s + [d]) == ValueFrom(u, s) * 10 + (d - ZERO)
    decreases |s|
  {
    if |s| > 0 {
      assert s[0] in s;
      assert (s + [d])[1..] == s[1..] + [d];
      ValueAppend(u * 10 + (s[0] - ZERO), s[1..], d);
    } else {
      assert s + [d] == [d] && [d][1..] == [];
    }
  }

  lemma {:induction false} DigitsValue(u: nat)
    ensures ValueFrom(0, Digits(u)) == u
  {
    if u >= 10 {
      DigitsValue(u / 10);
      ValueAppend(0, Digits(u / 10), ZERO + u % 10);
    } else {
      assert Digits(u)[1..] == [];
    }
  }

  /** Digits without a leading zero are the digits of their value. */
  lemma {:induction false} DigitsCanonical(s: bytes)
    requires |s| > 0 && AllDigits(s) && s[0] != ZERO
    ensures Digits(ValueFrom(0, s)) == s && ValueFrom(0, s) > 0
    decreases |s|
  {
    var last := s[|s| - 1];
    assert last in s && s[0] in s;
    if |s| == 1 {
      assert s == [last] && s[1..] == [];
    } else {
      var front := s[..|s| - 1];
      assert s == front + [last];
      DigitsCanonical(front);
      ValueAppend(0, front, last);
      var v := ValueFrom(0, front);
      assert ValueFrom(0, s) / 10 == v && ValueFrom(0, s) % 10 == last - ZERO;
    }
  }

  /** The tree of an integer. */
  function NumberOf(n: int): (m: Number)
    ensures m.Ok() && m.Text() == NumText(n)
  {
    var m := Number(n < 0, if n < 0 then Digits(-n) else Digits(n), None, None);
    assert m.FracText() + m.ExpText() == [] && m.whole + [] == m.whole && [] + m.whole == m.whole;
    m
  }

  lemma NumberOfValue(n: int)
    ensures IsInteger(NumberOf(n)) && IntegerValue(NumberOf(n)) == n
  {
    DigitsValue(if n < 0 then -n else n);
  }

  /** The only spelling of an integer is the one num writes. */
  lemma SpellingIsNum(n: Number)
    requires n.Ok() && IsInteger(n)
    ensures n.Text() == NumText(IntegerValue(n))
  {
    if n.whole[0] == ZERO {
      assert n.whole == [ZERO] && n.whole[1..] == [];
    } else {
      DigitsCanonical(n.whole);
    }
    assert n.FracText() + n.ExpText() == [] && n.whole + [] == n.whole && [] + n.whole == n.whole;
  }

  // ---- The reader on a spelling ----

  lemma {:induction false} AccumulateRead(buf: bytes, pos: nat, u: uint64, s: bytes)
    requires HasAt(buf, pos, s) && AllDigits(s) && !IsDigit(At(buf, pos + |s|))
    ensures pos <= |buf|
    ensures match Accumulate(buf, pos, u)
            case Ok(v, p) => v == ValueFrom(u, s) && p == pos + |s|
            case Refuse(_, _) => ValueFrom(u, s) > TWO63
    decreases |s|
  {
    hide HasAt;
    HasAtInside(buf, pos, s);
    if |s| > 0 {
      assert s[0] in s;
      HasAtFirst(buf, pos, s);
      assert s == [s[0]] + s[1..];
      HasAtSplit(buf, pos, [s[0]], s[1..]);
      if u <= LAST_TENTH {
        AccumulateRead(buf, pos + 1, u * 10 + (s[0] - ZERO), s[1..]);
      }
    }
  }

  lemma MagnitudeRead(buf: bytes, start: nat, whole: bytes)
    requires HasAt(buf, start, whole) && |whole| > 0 && AllDigits(whole) && (whole[0] == ZERO ==> |whole| == 1)
    requires whole == [ZERO] || !IsDigit(At(buf, start + |whole|))
    ensures IsDigit(At(buf, start))
    ensures match Magnitude(buf, start)
            case Ok(u, p) => u == ValueFrom(0, whole) && p == start + |whole|
            case Refuse(_, _) => ValueFrom(0, whole) > TWO63
  {
    hide HasAt, Accumulate;
    HasAtFirst(buf, start, whole);
    assert whole[0] in whole;
    if whole[0] == ZERO {
      assert whole == [ZERO] && whole[1..] == [];
    } else {
      AccumulateRead(buf, start, 0, whole);
    }
  }

  /** integer on a printed number: its value, when it is an integer within bounds, and a refusal otherwise. */
  lemma IntegerRead(n: Number, buf: bytes, pos: nat, lo: int64, hi: int64)
    requires n.Ok() && HasAt(buf, pos, n.Text()) && !CarriesOn(At(buf, pos + |n.Text()|))
    ensures pos <= |buf|
    ensures if IsInteger(n) && lo <= IntegerValue(n) <= hi then Integer(buf, pos, lo, hi) == Parsed.Ok(IntegerValue(n), pos + |n.Text()|)
            else Integer(buf, pos, lo, hi).Refuse?
  {
    hide HasAt, Magnitude, ValueFrom, Signed, CarriesOn;
    var start, end := NumberParts(n, buf, pos);
    MagnitudeRead(buf, start, n.whole);
    HasAtInside(buf, start, n.whole);
    assert n.whole[0] in n.whole;
    HasAtFirst(buf, start, n.whole);
    if Magnitude(buf, start).Ok? {
      SignedRead(n, buf, end, lo, hi);
    } else {
      TooLarge(n, lo, hi);
    }
  }

  /** Where a printed number's integer part begins and ends in the buffer. */
  lemma NumberText(n: Number)
    requires n.Ok()
    ensures |n.whole| > 0 && IsDigit(n.whole[0]) && !IsDigit(MINUS)
    ensures n.SignText() == if n.neg then [MINUS] else []
    ensures n.Text() == n.SignText() + (n.whole + (n.FracText() + n.ExpText()))
    ensures n.frac.None? && n.exp.None? ==> n.FracText() + n.ExpText() == []
  {
    assert n.whole[0] in n.whole;
  }

  lemma NumberParts(n: Number, buf: bytes, pos: nat) returns (start: nat, end: nat)
    requires n.Ok() && HasAt(buf, pos, n.Text()) && !CarriesOn(At(buf, pos + |n.Text()|))
    ensures start == (if n.neg then pos + 1 else pos) && end == start + |n.whole| <= |buf|
    ensures HasAt(buf, start, n.whole) && (n.whole == [ZERO] || !IsDigit(At(buf, end)))
    ensures At(buf, pos) == MINUS <==> n.neg
    ensures CarriesOn(At(buf, end)) <==> !(n.frac.None? && n.exp.None?)
    ensures n.frac.None? && n.exp.None? ==> end == pos + |n.Text()|
  {
    hide HasAt, CarriesOn, Number.SignText, Number.FracText, Number.ExpText, Number.Ok, Number.Text, IsDigit;
    var sign, rest := n.SignText(), n.FracText() + n.ExpText();
    start := pos + |sign|;
    end := start + |n.whole|;
    NumberText(n);
    HasAtThree(buf, pos, sign, n.whole, rest);
    HasAtFirst(buf, start, n.whole);
    if n.neg {
      HasAtFirst(buf, pos, sign);
    }
    RestCarriesOn(buf, end, n);
    RestIsNoDigit(buf, end, n);
  }

  /** A magnitude read whole, judged with its sign and its bounds. */
  lemma SignedRead(n: Number, buf: bytes, end: nat, lo: int64, hi: int64)
    requires n.Ok() && end <= |buf| && ValueFrom(0, n.whole) < TWO64
    requires CarriesOn(At(buf, end)) <==> !(n.frac.None? && n.exp.None?)
    ensures Signed(buf, n.neg, ValueFrom(0, n.whole), end, lo, hi) ==
            if IsInteger(n) && lo <= IntegerValue(n) <= hi then Parsed.Ok(IntegerValue(n), end) else Refuse(NumberSpelling, end)
  {
    hide ValueFrom, CarriesOn;
  }

  lemma TooLarge(n: Number, lo: int64, hi: int64)
    requires n.Ok() && ValueFrom(0, n.whole) > TWO63
    ensures !(lo <= IntegerValue(n) <= hi)
  {
    hide ValueFrom;
  }

  /** What follows the integer part carries the number on exactly when there is a fraction or an exponent. */
  lemma RestCarriesOn(buf: bytes, pos: nat, n: Number)
    requires n.Ok() && HasAt(buf, pos, n.FracText() + n.ExpText())
    requires !CarriesOn(At(buf, pos + |n.FracText() + n.ExpText()|))
    ensures CarriesOn(At(buf, pos)) <==> !(n.frac.None? && n.exp.None?)
    ensures n.EndsBefore(At(buf, pos + |n.FracText() + n.ExpText()|))
  {
    hide HasAt;
    var rest := n.FracText() + n.ExpText();
    if |rest| > 0 {
      HasAtFirst(buf, pos, rest);
    }
  }

  lemma {:induction false} AccumulateEnd(buf: bytes, pos: nat, u: uint64)
    requires pos <= |buf| && Accumulate(buf, pos, u).Ok?
    ensures Accumulate(buf, pos, u).pos == DigitsEnd(buf, pos)
    decreases |buf| - pos
  {
    if IsDigit(At(buf, pos)) {
      AccumulateEnd(buf, pos + 1, u * 10 + (buf[pos] - ZERO));
    }
  }

  lemma MagnitudeSound(buf: bytes, start: nat)
    requires start <= |buf| && IsDigit(At(buf, start)) && Magnitude(buf, start).Ok?
    ensures Magnitude(buf, start).pos == WholeEnd(buf, start)
    ensures var whole := buf[start..WholeEnd(buf, start)];
            |whole| > 0 && AllDigits(whole) && (whole[0] == ZERO ==> |whole| == 1)
  {
    var whole := buf[start..WholeEnd(buf, start)];
    if At(buf, start) != ZERO {
      AccumulateEnd(buf, start, 0);
    }
    assert whole[0] == buf[start];
  }

  lemma IntegerSound(buf: bytes, pos: nat, lo: int64, hi: int64) returns (n: Number)
    requires pos <= |buf| && Integer(buf, pos, lo, hi).Ok?
    ensures n.Ok() && HasAt(buf, pos, n.Text()) && !CarriesOn(At(buf, pos + |n.Text()|))
    ensures Integer(buf, pos, lo, hi).pos == pos + |n.Text()|
  {
    hide HasAt, Magnitude, WholeEnd;
    var neg := At(buf, pos) == MINUS;
    var start := if neg then pos + 1 else pos;
    MagnitudeSound(buf, start);
    var end := Magnitude(buf, start).pos;
    var whole := buf[start..end];
    n := Number(neg, whole, None, None);
    HasAtSlice(buf, start, end);
    if neg {
      HasAtByte(buf, pos);
    }
    HasAtSlice(buf, pos, pos);
    HasAtJoin(buf, pos, n.SignText(), whole);
    assert whole + ([] + []) == whole;
  }

  /** integer accepts v exactly when the spelling num writes for it stands there and nothing carries it on. */
  lemma IntegerExact(buf: bytes, pos: nat, lo: int64, hi: int64, v: int, end: nat)
    requires pos <= |buf|
    ensures Integer(buf, pos, lo, hi) == Parsed.Ok(v, end) <==>
            && lo <= v <= hi && HasAt(buf, pos, NumText(v)) && end == pos + |NumText(v)|
            && !CarriesOn(At(buf, end))
  {
    hide HasAt, Integer;
    if Integer(buf, pos, lo, hi) == Parsed.Ok(v, end) {
      var n := IntegerSound(buf, pos, lo, hi);
      IntegerRead(n, buf, pos, lo, hi);
      SpellingIsNum(n);
    }
    if lo <= v <= hi && HasAt(buf, pos, NumText(v)) && end == pos + |NumText(v)| && !CarriesOn(At(buf, end)) {
      NumberOfValue(v);
      IntegerRead(NumberOf(v), buf, pos, lo, hi);
    }
  }
}
