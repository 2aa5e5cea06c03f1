/** The token scanners against the grammar: each accepts exactly its production. */
module Tokens {
  import opened Basics
  import opened Bytes
  import opened Utf8
  import opened Scan
  import opened Grammar

  // ---- Blanks ----

  lemma {:induction false} BlanksSkipped(buf: bytes, pos: nat, blanks: bytes)
    requires HasAt(buf, pos, blanks) && AllSpace(blanks) && !IsSpace(At(buf, pos + |blanks|))
    ensures SkipWs(buf, pos) == pos + |blanks|
    decreases |blanks|
  {
    if |blanks| > 0 {
      HasAtFirst(buf, pos, blanks);
      assert blanks == [blanks[0]] + blanks[1..];
      HasAtSplit(buf, pos, [blanks[0]], blanks[1..]);
      BlanksSkipped(buf, pos + 1, blanks[1..]);
    }
  }

  // ---- Strings ----

  lemma Hex4At(buf: bytes, pos: nat, h: bytes)
    requires HasAt(buf, pos, h) && IsHex4(h)
    ensures Hex4(buf, pos) == Parsed.Ok(Hex4Value(h), pos + 4)
  {
    hide HexValue;
  }

  lemma EscapeAt(buf: bytes, pos: nat, u: Unit)
    requires u.Ok() && !u.Plain? && HasAt(buf, pos, u.Text())
    ensures pos < |buf| && buf[pos] == BACKSLASH
    ensures Escape(buf, pos) == Parsed.Ok(u.Value(), pos + |u.Text()|)
  {
    hide HasAt, RuneBytes, Hex4Value, JoinSurrogates, HexValue;
    HasAtIndex(buf, pos, u.Text(), 0);
    HasAtIndex(buf, pos, u.Text(), 1);
    match u
    case Short(c) =>
    case Hex(h) =>
      HasAtSplit(buf, pos, [BACKSLASH, LOWER_U], h);
      Hex4At(buf, pos + 2, h);
    case Pair(hi, lo) =>
      var mid := [BACKSLASH, LOWER_U];
      HasAtSplit(buf, pos, mid + hi + mid, lo);
      HasAtSplit(buf, pos, mid + hi, mid);
      HasAtSplit(buf, pos, mid, hi);
      HasAtIndex(buf, pos + 6, mid, 0);
      HasAtIndex(buf, pos + 6, mid, 1);
      Hex4At(buf, pos + 2, hi);
      Hex4At(buf, pos + 8, lo);
  }

  lemma EscapeGivesUnit(buf: bytes, pos: nat) returns (u: Unit)
    requires pos < |buf| && buf[pos] == BACKSLASH && Escape(buf, pos).Ok?
    ensures u.Ok() && !u.Plain? && HasAt(buf, pos, u.Text())
  {
    hide RuneBytes, Hex4Value, HexValue;
    if buf[pos + 1] == LOWER_U {
      var h := buf[pos + 2..pos + 6];
      var mid := [BACKSLASH, LOWER_U];
      assert HasAt(buf, pos, mid);
      HasAtJoin(buf, pos, mid, h);
      if IsHighSurrogate(Hex4Value(h)) {
        assert Hex4(buf, pos + 2) == Parsed.Ok(Hex4Value(h), pos + 6);
        var lo := buf[pos + 8..pos + 12];
        assert HasAt(buf, pos + 6, mid);
        HasAtJoin(buf, pos, mid + h, mid);
        HasAtJoin(buf, pos, mid + h + mid, lo);
        u := Pair(h, lo);
      } else {
        u := Hex(h);
      }
    } else {
      u := Short(buf[pos + 1]);
      assert buf[pos..pos + 2] == [BACKSLASH, buf[pos + 1]];
    }
  }

  lemma {:induction false} BodyOnUnits(buf: bytes, pos: nat, us: seq<Unit>, out: bytes)
    requires UnitsOk(us) && HasAt(buf, pos, UnitsText(us) + [QUOTE])
    ensures var v, end := out + UnitsValue(us), pos + |UnitsText(us)| + 1;
            StrBody(buf, pos, out) == if ValidUtf8(v) then Parsed.Ok(v, end) else Refuse(BadString, end)
    decreases |us|
  {
    hide HasAt, RuneBytes, Hex4Value, ValidUtf8, Escape, Unit.Text, Unit.Value, Unit.Ok;
    HasAtSplit(buf, pos, UnitsText(us), [QUOTE]);
    if |us| == 0 {
      HasAtFirst(buf, pos, [QUOTE]);
      assert out + UnitsValue(us) == out;
    } else {
      var u, rest := us[0], us[1..];
      assert u in us && UnitsOk(rest);
      HasAtSplit(buf, pos, u.Text(), UnitsText(rest));
      HasAtJoin(buf, pos + |u.Text()|, UnitsText(rest), [QUOTE]);
      BodyOnUnits(buf, pos + |u.Text()|, rest, out + u.Value());
      assert out + UnitsValue(us) == (out + u.Value()) + UnitsValue(rest);
      BodyOnUnit(buf, pos, u, out);
    }
  }

  /** One turn of the string loop. */
  lemma BodyOnUnit(buf: bytes, pos: nat, u: Unit, out: bytes)
    requires u.Ok() && HasAt(buf, pos, u.Text())
    ensures pos + |u.Text()| <= |buf|
    ensures StrBody(buf, pos, out) == StrBody(buf, pos + |u.Text()|, out + u.Value())
  {
    hide HasAt, RuneBytes, Hex4Value, ValidUtf8, Escape;
    HasAtInside(buf, pos, u.Text());
    if u.Plain? {
      HasAtFirst(buf, pos, u.Text());
    } else {
      EscapeAt(buf, pos, u);
    }
  }

  lemma {:induction false} BodyGivesUnits(buf: bytes, pos: nat, out: bytes) returns (us: seq<Unit>)
    requires pos <= |buf| && StrBody(buf, pos, out).Ok?
    ensures UnitsOk(us) && HasAt(buf, pos, UnitsText(us) + [QUOTE])
    decreases |buf| - pos
  {
    hide HasAt, RuneBytes, Hex4Value, ValidUtf8, Escape;
    if buf[pos] == QUOTE {
      us := [];
      HasAtByte(buf, pos);
      assert UnitsText(us) + [QUOTE] == [QUOTE];
    } else {
      var u: Unit;
      if buf[pos] == BACKSLASH {
        u := EscapeGivesUnit(buf, pos);
        EscapeAt(buf, pos, u);
      } else {
        u := Plain(buf[pos]);
        HasAtByte(buf, pos);
      }
      var rest := BodyGivesUnits(buf, pos + |u.Text()|, out + u.Value());
      us := [u] + rest;
      assert us[1..] == rest;
      HasAtJoin(buf, pos, u.Text(), UnitsText(rest) + [QUOTE]);
      assert UnitsText(us) + [QUOTE] == u.Text() + (UnitsText(rest) + [QUOTE]);
    }
  }

  /** A printed string is read to its end, and its value is refused exactly when it is not UTF-8. */
  lemma StringRead(buf: bytes, pos: nat, us: seq<Unit>)
    requires UnitsOk(us) && HasAt(buf, pos, StringText(us))
    ensures var end := pos + |StringText(us)|;
            Str(buf, pos) == if ValidUtf8(UnitsValue(us)) then Parsed.Ok(UnitsValue(us), end) else Refuse(BadString, end)
  {
    hide HasAt, ValidUtf8, StrBody;
    assert StringText(us) == [QUOTE] + (UnitsText(us) + [QUOTE]);
    HasAtSplit(buf, pos, [QUOTE], UnitsText(us) + [QUOTE]);
    HasAtFirst(buf, pos, [QUOTE]);
    BodyOnUnits(buf, pos + 1, us, []);
    assert [] + UnitsValue(us) == UnitsValue(us);
  }

  /** What the string reader accepts is a printed string. */
  lemma StringSound(buf: bytes, pos: nat) returns (us: seq<Unit>)
    requires pos <= |buf| && Str(buf, pos).Ok?
    ensures UnitsOk(us) && HasAt(buf, pos, StringText(us)) && ValidUtf8(UnitsValue(us))
    ensures Str(buf, pos) == Parsed.Ok(UnitsValue(us), pos + |StringText(us)|)
  {
    hide HasAt, ValidUtf8;
    us := BodyGivesUnits(buf, pos + 1, []);
    HasAtJoin(buf, pos, [QUOTE], UnitsText(us) + [QUOTE]);
    assert StringText(us) == [QUOTE] + (UnitsText(us) + [QUOTE]);
    StringRead(buf, pos, us);
  }

  /** str accepts v ending at end exactly when a well-formed RFC 8259 string with that value stands there. */
  lemma StrExact(buf: bytes, pos: nat, v: bytes, end: nat)
    requires pos <= |buf|
    ensures Str(buf, pos) == Parsed.Ok(v, end) <==>
            exists us :: && UnitsOk(us) && HasAt(buf, pos, StringText(us)) && end == pos + |StringText(us)|
                         && UnitsValue(us) == v && ValidUtf8(v)
  {
    if Str(buf, pos) == Parsed.Ok(v, end) {
      var us := StringSound(buf, pos);
    }
    if us :| UnitsOk(us) && HasAt(buf, pos, StringText(us)) && end == pos + |StringText(us)|
             && UnitsValue(us) == v && ValidUtf8(v) {
      StringRead(buf, pos, us);
    }
  }

  // ---- Numbers ----

  lemma {:induction false} DigitsRead(buf: bytes, pos: nat, ds: bytes)
    requires HasAt(buf, pos, ds) && AllDigits(ds) && !IsDigit(At(buf, pos + |ds|))
    ensures DigitsEnd(buf, pos) == pos + |ds|
    decreases |ds|
  {
    hide HasAt;
    if |ds| > 0 {
      HasAtFirst(buf, pos, ds);
      assert ds == [ds[0]] + ds[1..];
      HasAtSplit(buf, pos, [ds[0]], ds[1..]);
      DigitsRead(buf, pos + 1, ds[1..]);
    }
  }

  lemma ExponentRead(buf: bytes, pos: nat, n: Number)
    requires n.Ok() && HasAt(buf, pos, n.ExpText()) && n.EndsBefore(At(buf, pos + |n.ExpText()|))
    ensures SkipExponent(buf, pos) == Parsed.Ok((), pos + |n.ExpText()|)
  {
    hide HasAt;
    if n.exp.Some? {
      var e := n.exp.value;
      HasAtSplit(buf, pos, [e.mark] + e.sign, e.digits);
      HasAtSplit(buf, pos, [e.mark], e.sign);
      HasAtFirst(buf, pos, [e.mark]);
      HasAtFirst(buf, pos + 1 + |e.sign|, e.digits);
      assert IsDigit(e.digits[0]);
      if |e.sign| > 0 {
        HasAtFirst(buf, pos + 1, e.sign);
      }
      DigitsRead(buf, pos + 1 + |e.sign|, e.digits);
    }
  }

  lemma FractionRead(buf: bytes, pos: nat, n: Number)
    requires n.Ok() && HasAt(buf, pos, n.FracText() + n.ExpText())
    requires n.EndsBefore(At(buf, pos + |n.FracText() + n.ExpText()|))
    ensures SkipFraction(buf, pos) == Parsed.Ok((), pos + |n.FracText() + n.ExpText()|)
  {
    hide HasAt, SkipExponent;
    HasAtSplit(buf, pos, n.FracText(), n.ExpText());
    ExponentRead(buf, pos + |n.FracText()|, n);
    if n.exp.Some? {
      HasAtFirst(buf, pos + |n.FracText()|, n.ExpText());
    }
    if n.frac.Some? {
      HasAtSplit(buf, pos, [DOT], n.frac.value);
      HasAtFirst(buf, pos, [DOT]);
      DigitsRead(buf, pos + 1, n.frac.value);
    }
  }

  /** Where the walk over the integer part ends. */
  function WholeEnd(buf: bytes, start: nat): nat
    requires start <= |buf|
  {
    if At(buf, start) == ZERO then start + 1 else DigitsEnd(buf, start)
  }

  lemma WholeRead(buf: bytes, start: nat, whole: bytes)
    requires HasAt(buf, start, whole)
    requires |whole| > 0 && AllDigits(whole) && (whole[0] == ZERO ==> |whole| == 1)
    requires whole == [ZERO] || !IsDigit(At(buf, start + |whole|))
    ensures start < |buf| && IsDigit(buf[start]) && WholeEnd(buf, start) == start + |whole|
  {
    hide HasAt;
    HasAtFirst(buf, start, whole);
    assert IsDigit(whole[0]);
    if whole[0] != ZERO {
      DigitsRead(buf, start, whole);
    }
  }

  lemma RestIsNoDigit(buf: bytes, pos: nat, n: Number)
    requires n.Ok() && HasAt(buf, pos, n.FracText() + n.ExpText())
    requires n.EndsBefore(At(buf, pos + |n.FracText() + n.ExpText()|))
    ensures n.whole == [ZERO] || !IsDigit(At(buf, pos))
  {
    hide HasAt;
    var rest := n.FracText() + n.ExpText();
    if |rest| > 0 {
      HasAtFirst(buf, pos, rest);
      assert rest[0] == DOT || rest[0] == LOWER_E || rest[0] == UPPER_E;
    }
  }

  /** The walk over a number, from its integer part on. */
  lemma NumberByParts(buf: bytes, pos: nat)
    requires pos <= |buf|
    ensures var start := if At(buf, pos) == MINUS then pos + 1 else pos;
            SkipNumber(buf, pos) == if IsDigit(At(buf, start)) then SkipFraction(buf, WholeEnd(buf, start)) else Refuse(NumberSpelling, start)
  {
    hide SkipFraction, DigitsEnd;
  }

  lemma NumberRead(buf: bytes, pos: nat, n: Number)
    requires n.Ok() && HasAt(buf, pos, n.Text()) && n.EndsBefore(At(buf, pos + |n.Text()|))
    ensures SkipNumber(buf, pos) == Parsed.Ok((), pos + |n.Text()|)
  {
    hide HasAt, SkipFraction, SkipNumber, DigitsEnd, WholeEnd, Number.FracText, Number.ExpText, Number.EndsBefore;
    var rest := n.FracText() + n.ExpText();
    var start := pos + |n.SignText()|;
    HasAtSplit(buf, pos, n.SignText(), n.whole + rest);
    HasAtSplit(buf, start, n.whole, rest);
    assert pos + |n.Text()| == start + |n.whole| + |rest|;
    RestIsNoDigit(buf, start + |n.whole|, n);
    WholeRead(buf, start, n.whole);
    FractionRead(buf, start + |n.whole|, n);
    HasAtFirst(buf, start, n.whole);
    if n.neg {
      HasAtFirst(buf, pos, [MINUS]);
    }
    NumberByParts(buf, pos);
  }

  lemma ExponentSound(buf: bytes, pos: nat) returns (exp: Option<Exponent>)
    requires pos <= |buf| && SkipExponent(buf, pos).Ok?
    ensures exp.Some? ==> exp.value.Ok()
    ensures var text := if exp.Some? then exp.value.Text() else [];
            HasAt(buf, pos, text) && SkipExponent(buf, pos).pos == pos + |text|
    ensures var c := At(buf, SkipExponent(buf, pos).pos);
            if exp.Some? then !IsDigit(c) else c != LOWER_E && c != UPPER_E
  {
    hide Accumulate, DigitsEnd, HasAt;
    var end := SkipExponent(buf, pos).pos;
    HasAtSlice(buf, pos, pos);
    HasAtSlice(buf, pos, end);
    if At(buf, pos) != LOWER_E && At(buf, pos) != UPPER_E {
      exp := None;
    } else {
      var signed := At(buf, pos + 1) == PLUS || At(buf, pos + 1) == MINUS;
      var start := if signed then pos + 2 else pos + 1;
      var sign := if signed then [buf[pos + 1]] else [];
      var e := Exponent(buf[pos], sign, buf[start..end]);
      assert e.Text() == buf[pos..end];
      exp := Some(e);
    }
  }

  lemma FractionSound(buf: bytes, pos: nat, neg: bool, whole: bytes) returns (n: Number)
    requires pos <= |buf| && SkipFraction(buf, pos).Ok?
    requires |whole| > 0 && AllDigits(whole) && (whole[0] == ZERO ==> |whole| == 1)
    requires whole == [ZERO] || !IsDigit(At(buf, pos))
    ensures n.Ok() && n.neg == neg && n.whole == whole
    ensures HasAt(buf, pos, n.FracText() + n.ExpText())
    ensures SkipFraction(buf, pos).pos == pos + |n.FracText() + n.ExpText()|
    ensures n.EndsBefore(At(buf, SkipFraction(buf, pos).pos))
  {
    hide SkipExponent, DigitsEnd, Exponent.Ok, Exponent.Text;
    if At(buf, pos) != DOT {
      var exp := ExponentSound(buf, pos);
      n := Number(neg, whole, None, exp);
      assert n.FracText() + n.ExpText() == n.ExpText();
    } else {
      var mid := DigitsEnd(buf, pos + 1);
      var exp := ExponentSound(buf, mid);
      n := Number(neg, whole, Some(buf[pos + 1..mid]), exp);
      assert n.FracText() == buf[pos..mid];
      HasAtJoin(buf, pos, n.FracText(), n.ExpText());
    }
  }

  lemma WholeAt(buf: bytes, start: nat) returns (end: nat, whole: bytes)
    requires start <= |buf| && IsDigit(At(buf, start))
    ensures end == WholeEnd(buf, start) && start < end <= |buf| && whole == buf[start..end]
    ensures |whole| > 0 && AllDigits(whole) && (whole[0] == ZERO ==> |whole| == 1) && (whole == [ZERO] || !IsDigit(At(buf, end)))
  {
    end := WholeEnd(buf, start);
    whole := buf[start..end];
    assert whole[0] == buf[start];
  }

  lemma NumberSound(buf: bytes, pos: nat) returns (n: Number)
    requires pos <= |buf| && SkipNumber(buf, pos).Ok?
    ensures n.Ok() && HasAt(buf, pos, n.Text()) && n.EndsBefore(At(buf, pos + |n.Text()|))
    ensures SkipNumber(buf, pos).pos == pos + |n.Text()|
  {
    hide HasAt, SkipFraction, SkipNumber, DigitsEnd, Number.FracText, Number.ExpText, Number.EndsBefore, Number.Ok;
    var neg := At(buf, pos) == MINUS;
    var start := if neg then pos + 1 else pos;
    NumberByParts(buf, pos);
    var end, whole := WholeAt(buf, start);
    n := FractionSound(buf, end, neg, whole);
    HasAtSlice(buf, start, end);
    HasAtJoin(buf, start, whole, n.FracText() + n.ExpText());
    if neg {
      HasAtByte(buf, pos);
    }
    HasAtSlice(buf, pos, pos);
    HasAtJoin(buf, pos, n.SignText(), whole + (n.FracText() + n.ExpText()));
  }
}
