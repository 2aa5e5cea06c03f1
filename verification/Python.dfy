/**
 The Python reader where it is built differently: a string without escapes is
 found and decoded in one piece, and an integer is bounded by its digit count.
 */
module Python {
  import opened Basics
  import opened Bytes
  import opened Utf8
  import opened Scan
  import opened Tokens
  import opened Numerals
  import opened Reading

  // ---- Strings ----

  /** The first quote from an offset on; -1 when there is none. */
  method FindQuote(buf: bytes, start: nat) returns (end: int)
    requires start <= |buf|
    ensures end < 0 ==> QUOTE !in buf[start..]
    ensures end >= 0 ==> start <= end < |buf| && buf[end] == QUOTE && QUOTE !in buf[start..end]
  {
    end := start;
    while end < |buf|
      invariant start <= end <= |buf|
      invariant QUOTE !in buf[start..end]
    {
      if buf[end] == QUOTE {
        return;
      }
      assert buf[start..end + 1] == buf[start..end] + [buf[end]];
      end := end + 1;
    }
    assert buf[start..] == buf[start..end];
    end := -1;
  }

  /** No escape, no control byte, no quote: what the fast path takes in one piece. */
  predicate IsPlain(chunk: bytes) {
    forall c :: c in chunk ==> c >= 0x20 && c != BACKSLASH && c != QUOTE
  }

  lemma PlainRest(chunk: bytes)
    requires |chunk| > 0 && IsPlain(chunk)
    ensures IsPlain(chunk[1..])
  {
    forall c | c in chunk[1..] ensures c in chunk {
      var i :| 0 <= i < |chunk| - 1 && chunk[1..][i] == c;
      assert chunk[i + 1] == c;
    }
  }

  /** The bytewise loop copies a plain chunk. */
  lemma {:induction false} PlainCopied(buf: bytes, pos: nat, end: nat, out: bytes)
    requires pos <= end <= |buf| && IsPlain(buf[pos..end])
    ensures StrBody(buf, pos, out) == StrBody(buf, end, out + buf[pos..end])
    decreases end - pos
  {
    hide Escape, ValidUtf8;
    if pos == end {
      assert out + buf[pos..end] == out;
    } else {
      var c := buf[pos];
      assert buf[pos..end][0] == c && c in buf[pos..end];
      assert buf[pos..end] == [c] + buf[pos + 1..end];
      assert buf[pos..end][1..] == buf[pos + 1..end];
      PlainRest(buf[pos..end]);
      PlainCopied(buf, pos + 1, end, out + [c]);
      assert (out + [c]) + buf[pos + 1..end] == out + buf[pos..end];
    }
  }

  /** A plain chunk between quotes is the string, when it is UTF-8. */
  lemma PlainString(buf: bytes, pos: nat, end: nat)
    requires pos < end < |buf| && buf[pos] == QUOTE && buf[end] == QUOTE && IsPlain(buf[pos + 1..end])
    ensures Str(buf, pos) == if ValidUtf8(buf[pos + 1..end]) then Parsed.Ok(buf[pos + 1..end], end + 1) else Refuse(BadString, end + 1)
  {
    hide Escape, ValidUtf8;
    PlainCopied(buf, pos + 1, end, []);
    assert [] + buf[pos + 1..end] == buf[pos + 1..end];
  }

  /** string, with its fast path: the same string and end, or the same refusal at the same byte, as the bytewise loop. */
  method String(r: Reader) returns (s: Parsed<bytes>)
    requires r.Valid()
    modifies r`pos
    ensures r.Valid() && s == Str(r.buf, old(r.pos)) && r.Stands(s)
  {
    hide Str, ValidUtf8;
    var c := r.Peek();
    if c != QUOTE {
      s := r.String();
      return;
    }
    var end := FindQuote(r.buf, r.pos + 1);
    if end >= 0 {
      var chunk := r.buf[r.pos + 1..end];
      if BACKSLASH !in chunk && forall c :: c in chunk ==> c >= 0x20 {
        PlainString(r.buf, r.pos, end);
        r.pos := end + 1;
        var ok := Validate(chunk);
        return if ok then Parsed.Ok(chunk, r.pos) else Refuse(BadString, r.pos);
      }
    }
    s := r.String();
  }

  // ---- Integers ----

  const I64_DIGITS := 19

  /** integer, by digit count. */
  function Integer19(buf: bytes, pos: nat, lo: int64, hi: int64): (r: Parsed<int64>)
    requires pos <= |buf|
  {
    var c := At(buf, pos);
    if c != MINUS && !IsDigit(c) then Refuse(WrongType, pos)
    else
      var start := if c == MINUS then pos + 1 else pos;
      if !IsDigit(At(buf, start)) then Refuse(Malformed, start)
      else
        var end := WholeEnd(buf, start);
        if CarriesOn(At(buf, end)) then Refuse(NumberSpelling, end)
        else if end - start > I64_DIGITS then Refuse(NumberSpelling, end)
        else
          var n: int := ValueFrom(0, buf[start..end]);
          if c == MINUS && n == 0 then Refuse(NumberSpelling, end)
          else
            var v: int := if c == MINUS then -n else n;
            if v < lo || v > hi then Refuse(NumberSpelling, end) else Parsed.Ok(v, end)
  }

  /** integer, with its digit loop. */
  method ReadInteger19(r: Reader, lo: int64, hi: int64) returns (n: Parsed<int64>)
    requires r.Valid()
    modifies r`pos
    ensures r.Valid() && n == Integer19(r.buf, old(r.pos), lo, hi) && r.Stands(n)
  {
    hide ValueFrom;
    var c := r.Peek();
    if c != MINUS && !IsDigit(c) {
      return Refuse(WrongType, r.pos);
    }
    var negative := c == MINUS;
    if negative {
      r.pos := r.pos + 1;
    }
    var d := r.Peek();
    if !IsDigit(d) {
      return Refuse(Malformed, r.pos);
    }
    var start := r.pos;
    if d == ZERO {
      r.pos := r.pos + 1;
    } else {
      while IsDigit(d)
        invariant r.Valid() && start <= r.pos && d == At(r.buf, r.pos)
        invariant DigitsEnd(r.buf, r.pos) == DigitsEnd(r.buf, start)
        decreases |r.buf| - r.pos
      {
        r.pos := r.pos + 1;
        d := r.Peek();
      }
    }
    var after := r.Peek();
    if after == DOT || after == LOWER_E || after == UPPER_E || IsDigit(after) {
      return Refuse(NumberSpelling, r.pos);
    }
    if r.pos - start > I64_DIGITS {
      return Refuse(NumberSpelling, r.pos);
    }
    WholeIsDigits(r.buf, start);
    var v: int := ValueFrom(0, r.buf[start..r.pos]);
    if negative {
      if v == 0 {
        return Refuse(NumberSpelling, r.pos);
      }
      v := -v;
    }
    if v < lo || v > hi {
      return Refuse(NumberSpelling, r.pos);
    }
    n := Parsed.Ok(v, r.pos);
  }

  lemma WholeIsDigits(buf: bytes, start: nat)
    requires start <= |buf| && IsDigit(At(buf, start))
    ensures start < WholeEnd(buf, start) <= |buf| && AllDigits(buf[start..WholeEnd(buf, start)])
  {
  }

  // ---- The two integer readers agree ----

  /** Some digits before the last already exceed what one more digit may follow. */
  predicate OverflowsEarly(buf: bytes, start: nat)
    requires start <= |buf|
  {
    var end := DigitsEnd(buf, start);
    end > start && ValueFrom(0, buf[start..end][..end - start - 1]) > LAST_TENTH
  }

  /** The value of all the digits but the last, carried on from u. */
  function BeforeLast(u: nat, s: bytes): nat
    requires AllDigits(s) && |s| > 0
    decreases |s|
  {
    assert s[0] in s;
    if |s| == 1 then u else BeforeLast(u * 10 + (s[0] - ZERO), s[1..])
  }

  lemma {:induction false} BeforeLastIs(u: nat, s: bytes)
    requires AllDigits(s) && |s| > 0
    ensures AllDigits(s[..|s| - 1]) && BeforeLast(u, s) == ValueFrom(u, s[..|s| - 1])
    decreases |s|
  {
    var front := s[..|s| - 1];
    assert forall c :: c in front ==> c in s;
    assert s[0] in s;
    if |s| > 1 {
      BeforeLastIs(u * 10 + (s[0] - ZERO), s[1..]);
      assert front[0] == s[0] && front[1..] == s[1..][..|s| - 2];
    }
  }

  /** The digit loop takes one digit, or refuses it. */
  lemma AccumulateStep(buf: bytes, pos: nat, u: uint64)
    requires pos < |buf| && IsDigit(buf[pos])
    ensures Accumulate(buf, pos, u) ==
            if u > LAST_TENTH then Refuse(NumberSpelling, pos) else Accumulate(buf, pos + 1, u * 10 + (buf[pos] - ZERO))
  {
  }

  lemma AccumulateEnd(buf: bytes, pos: nat, u: uint64)
    requires pos <= |buf| && !IsDigit(At(buf, pos))
    ensures Accumulate(buf, pos, u) == Parsed.Ok(u, pos)
  {
  }

  lemma BeforeLastStep(u: nat, s: bytes)
    requires AllDigits(s) && |s| > 0
    ensures s[0] in s && AllDigits(s[1..])
    ensures BeforeLast(u, s) == if |s| == 1 then u else BeforeLast(u * 10 + (s[0] - ZERO), s[1..])
  {
  }

  /** The accumulator refuses exactly when the digits before the last exceed the last tenth, and then at one of the digits. */
  lemma {:induction false} AccumulateRefuses(buf: bytes, pos: nat, u: uint64, s: bytes)
    requires HasAt(buf, pos, s) && AllDigits(s) && !IsDigit(At(buf, pos + |s|)) && |s| > 0
    ensures pos <= |buf|
    ensures match Accumulate(buf, pos, u)
            case Ok(_, _) => BeforeLast(u, s) <= LAST_TENTH
            case Refuse(w, at) => BeforeLast(u, s) > LAST_TENTH && w == NumberSpelling && at < pos + |s|
    decreases |s|
  {
    hide HasAt, Accumulate, BeforeLast;
    HasAtInside(buf, pos, s);
    HasAtFirst(buf, pos, s);
    BeforeLastStep(u, s);
    AccumulateStep(buf, pos, u);
    if u > LAST_TENTH {
      BeforeLastGrows(u, s);
    } else if |s| == 1 {
      AccumulateEnd(buf, pos + 1, u * 10 + (s[0] - ZERO));
    } else {
      assert s == [s[0]] + s[1..];
      HasAtSplit(buf, pos, [s[0]], s[1..]);
      AccumulateRefuses(buf, pos + 1, u * 10 + (s[0] - ZERO), s[1..]);
    }
  }

  lemma {:induction false} BeforeLastGrows(u: nat, s: bytes)
    requires AllDigits(s) && |s| > 0
    ensures BeforeLast(u, s) >= u
    decreases |s|
  {
    assert s[0] in s;
    if |s| > 1 {
      BeforeLastGrows(u * 10 + (s[0] - ZERO), s[1..]);
    }
  }

  /** Twenty digits without a leading zero exceed every 64-bit integer. */
  lemma {:induction false} ManyDigits(s: bytes)
    requires |s| > 0 && AllDigits(s) && s[0] != ZERO
    ensures ValueFrom(0, s) >= Ten(|s| - 1)
    decreases |s|
  {
    var last := s[|s| - 1];
    assert last in s && s[0] in s;
    if |s| == 1 {
      assert s[1..] == [];
    } else {
      var front := s[..|s| - 1];
      assert s == front + [last];
      assert forall c :: c in front ==> c in s;
      ManyDigits(front);
      ValueAppend(0, front, last);
    }
  }

  lemma {:induction false} TenGrows(k: nat)
    requires k >= 19
    ensures Ten(k) > TWO63
  {
    if k == 19 {
      TenTwenty();
      assert Ten(20) == 10 * Ten(19);
    } else {
      TenGrows(k - 1);
    }
  }

  /**
   The digit-counting reader accepts the same texts with the same values and
   refuses the others with the same word. It names the same byte too, unless the
   digits overflow early: the accumulator then stops at the digit it cannot take
   and the digit counter at the end of the digits.
   */
  lemma IntegersAgree(buf: bytes, pos: nat, lo: int64, hi: int64)
    requires pos <= |buf|
    ensures var counted, accumulated := Integer19(buf, pos, lo, hi), Integer(buf, pos, lo, hi);
            match accumulated
            case Ok(_, _) => counted == accumulated
            case Refuse(word, at) =>
              && counted.Refuse? && counted.word == word
              && (counted.at == at <==>
                  var start := if At(buf, pos) == MINUS then pos + 1 else pos;
                  !(IsDigit(At(buf, start)) && At(buf, start) != ZERO && OverflowsEarly(buf, start)))
  {
    hide HasAt, ValueFrom, Accumulate, DigitsEnd, BeforeLast;
    var start := if At(buf, pos) == MINUS then pos + 1 else pos;
    if (At(buf, pos) == MINUS || IsDigit(At(buf, pos))) && IsDigit(At(buf, start)) {
      WholeIsDigits(buf, start);
      var whole := buf[start..WholeEnd(buf, start)];
      HasAtSlice(buf, start, WholeEnd(buf, start));
      assert whole[0] == buf[start];
      if At(buf, start) == ZERO {
        ZeroValue(whole);
      } else {
        AccumulateRefuses(buf, start, 0, whole);
        BeforeLastIs(0, whole);
        AccumulateRead(buf, start, 0, whole);
        if |whole| > 19 {
          ManyDigits(whole);
          TenGrows(|whole| - 1);
        }
      }
    }
  }

  lemma ZeroValue(whole: bytes)
    requires |whole| == 1 && whole[0] == ZERO
    ensures AllDigits(whole) && ValueFrom(0, whole) == 0
  {
    assert whole[1..] == [];
  }

  // ---- An input the two name differently ----

  const NINES: bytes := seq(21, _ => NINE)

  lemma {:induction false} NinesRefused(k: nat)
    requires k <= 18
    ensures 0 < Ten(k) <= TWO63 && Accumulate(NINES, k, Ten(k) - 1) == Refuse(NumberSpelling, 18)
    decreases 18 - k
  {
    TenTwenty();
    assert Ten(20) == 10 * Ten(19) && Ten(19) == 10 * Ten(18);
    if k < 18 {
      NinesRefused(k + 1);
      assert Ten(k + 1) == 10 * Ten(k);
    }
  }

  /** Twenty-one nines: the accumulator stops at the nineteenth, the digit counter behind the last. */
  lemma NinesNamedApart(lo: int64, hi: int64)
    ensures Integer(NINES, 0, lo, hi) == Refuse(NumberSpelling, 18)
    ensures Integer19(NINES, 0, lo, hi) == Refuse(NumberSpelling, 21)
  {
    hide Accumulate, ValueFrom;
    NinesRefused(0);
    assert Ten(0) == 1;
    assert DigitsEnd(NINES, 0) == 21;
  }
}
