/**
 JSON strings by their code points: every way section 7 of RFC 8259 writes a
 char, down to the hexadecimal digits, and the UTF-8 char it is read as.
 */
module Escapes {
  import opened Basics
  import opened Bytes
  import opened Utf8
  import opened Scan
  import opened Grammar
  import opened Tokens
  import Encoding

  // ---- Hexadecimal digits ----

  /** Which of four digits are written in upper case. */
  datatype Case = Case(a: bool, b: bool, c: bool, d: bool)

  function Nibble(v: nat, upper: bool): (c: byte)
    requires v < 16
  {
    if v < 10 then 48 + v else if upper then 55 + v else 87 + v
  }

  /** Four digits, most significant first. */
  function FourDigits(u: nat, cases: Case): bytes
    requires u < 0x10000
  {
    [Nibble(u / 0x1000, cases.a), Nibble(u / 0x100 % 16, cases.b), Nibble(u / 0x10 % 16, cases.c), Nibble(u % 16, cases.d)]
  }

  lemma NibbleRead(v: nat, upper: bool)
    requires v < 16
    ensures HexValue(Nibble(v, upper)) == v
  {
  }

  /** A digit is the nibble it is read as, in its own case. */
  lemma NibbleBack(c: byte)
    requires HexValue(c) >= 0
    ensures c == Nibble(HexValue(c), c < 97)
  {
  }

  lemma Sixteens(u: nat)
    requires u < 0x10000
    ensures u / 0x1000 < 16 && ((u / 0x1000 * 16 + u / 0x100 % 16) * 16 + u / 0x10 % 16) * 16 + u % 16 == u
  {
    assert u / 0x10 == u / 0x100 * 16 + u / 0x10 % 16;
    assert u / 0x100 == u / 0x1000 * 16 + u / 0x100 % 16;
  }

  lemma SixteensBack(a: nat, b: nat, c: nat, d: nat)
    requires a < 16 && b < 16 && c < 16 && d < 16
    ensures var u := ((a * 16 + b) * 16 + c) * 16 + d;
            u < 0x10000 && u / 0x1000 == a && u / 0x100 % 16 == b && u / 0x10 % 16 == c && u % 16 == d
  {
    var u := ((a * 16 + b) * 16 + c) * 16 + d;
    assert u / 0x10 == (a * 16 + b) * 16 + c;
    assert u / 0x100 == a * 16 + b;
  }

  lemma FourRead(u: nat, cases: Case)
    requires u < 0x10000
    ensures IsHex4(FourDigits(u, cases)) && Hex4Value(FourDigits(u, cases)) == u
  {
    hide HexValue, Nibble;
    Sixteens(u);
    NibbleRead(u / 0x1000, cases.a);
    NibbleRead(u / 0x100 % 16, cases.b);
    NibbleRead(u / 0x10 % 16, cases.c);
    NibbleRead(u % 16, cases.d);
  }

  lemma FourBack(h: bytes) returns (cases: Case)
    requires IsHex4(h)
    ensures h == FourDigits(Hex4Value(h), cases)
  {
    hide HexValue, Nibble;
    cases := Case(h[0] < 97, h[1] < 97, h[2] < 97, h[3] < 97);
    forall k | 0 <= k < 4 ensures HexValue(h[k]) >= 0 && h[k] == Nibble(HexValue(h[k]), h[k] < 97) {
      assert h[k] in h;
      NibbleBack(h[k]);
    }
    SixteensBack(HexValue(h[0]), HexValue(h[1]), HexValue(h[2]), HexValue(h[3]));
  }

  /** hex4 takes four digits in any case, and nothing else. */
  lemma HexExact(h: bytes, u: nat)
    requires u < 0x10000
    ensures IsHex4(h) && Hex4Value(h) == u <==> exists cases :: h == FourDigits(u, cases)
  {
    hide IsHex4, Hex4Value, FourDigits;
    if IsHex4(h) && Hex4Value(h) == u {
      var cases := FourBack(h);
    }
    if cases :| h == FourDigits(u, cases) {
      FourRead(u, cases);
    }
  }

  // ---- Two-character escapes ----

  /** The letter after a backslash, and the byte the two stand for. */
  const LETTERS: map<int, byte> := map[34 := 34, 92 := 92, 47 := 47, 98 := 8, 102 := 12, 110 := 10, 114 := 13, 116 := 9]

  lemma LettersExact(c: byte)
    ensures ShortEscape(c) == if c in LETTERS then LETTERS[c] else -1
  {
  }

  // ---- Chars ----

  /** One char as it is written: an unescaped byte, a letter, four digits, or a pair of four. */
  datatype Char =
    | Unescaped(b: byte)
    | Letter(letter: byte)
    | Four(cp: nat, cases: Case)
    | Eight(cp: nat, first: Case, second: Case)
  {
    predicate Ok() {
      match this
      case Unescaped(b) => 0x20 <= b && b != 34 && b != 92
      case Letter(c) => c in LETTERS
      case Four(cp, _) => cp < 0x10000 && !(0xD800 <= cp <= 0xDFFF)
      case Eight(cp, _, _) => 0x10000 <= cp <= 0x10FFFF
    }

    function Text(): bytes
      requires Ok()
    {
      match this
      case Unescaped(b) => [b]
      case Letter(c) => [92, c]
      case Four(cp, cases) => [92, 117] + FourDigits(cp, cases)
      case Eight(cp, first, second) =>
        [92, 117] + FourDigits(0xD800 + (cp - 0x10000) / 0x400, first) + [92, 117] + FourDigits(0xDC00 + (cp - 0x10000) % 0x400, second)
    }

    /** The bytes the char is read as: its own byte, or the UTF-8 char of its code point. */
    predicate ReadAs(v: bytes)
      requires Ok()
    {
      match this
      case Unescaped(b) => v == [b]
      case Letter(c) => v == [LETTERS[c]]
      case Four(cp, _) => IsChar(v) && CodePoint(v) == cp
      case Eight(cp, _, _) => IsChar(v) && CodePoint(v) == cp
    }
  }

  predicate CharsOk(cs: seq<Char>) {
    forall c :: c in cs ==> c.Ok()
  }

  function CharsText(cs: seq<Char>): bytes
    requires CharsOk(cs)
  {
    if |cs| == 0 then [] else cs[0].Text() + CharsText(cs[1..])
  }

  /** The chars are read as v, each as its own part. */
  ghost predicate CharsReadAs(cs: seq<Char>, v: bytes)
    requires CharsOk(cs)
    decreases |cs|
  {
    if |cs| == 0 then v == []
    else exists part: bytes, rest: bytes :: v == part + rest && cs[0].ReadAs(part) && CharsReadAs(cs[1..], rest)
  }

  // ---- The chars are the grammar's ----

  lemma HalvesJoin(cp: nat)
    requires 0x10000 <= cp <= 0x10FFFF
    ensures var hi, lo := 0xD800 + (cp - 0x10000) / 0x400, 0xDC00 + (cp - 0x10000) % 0x400;
            IsHighSurrogate(hi) && IsLowSurrogate(lo) && JoinSurrogates(hi, lo) == cp
  {
  }

  lemma HalvesBack(hi: nat, lo: nat)
    requires IsHighSurrogate(hi) && IsLowSurrogate(lo)
    ensures var cp := JoinSurrogates(hi, lo);
            0x10000 <= cp <= 0x10FFFF && hi == 0xD800 + (cp - 0x10000) / 0x400 && lo == 0xDC00 + (cp - 0x10000) % 0x400
  {
  }

  function UnitOf(c: Char): Unit
    requires c.Ok()
  {
    match c
    case Unescaped(b) => Plain(b)
    case Letter(l) => Short(l)
    case Four(cp, cases) => Hex(FourDigits(cp, cases))
    case Eight(cp, first, second) =>
      Pair(FourDigits(0xD800 + (cp - 0x10000) / 0x400, first), FourDigits(0xDC00 + (cp - 0x10000) % 0x400, second))
  }

  lemma UnitSound(c: Char)
    requires c.Ok()
    ensures UnitOf(c).Ok() && UnitOf(c).Text() == c.Text() && c.ReadAs(UnitOf(c).Value())
  {
    hide FourDigits, IsHex4, Hex4Value, IsChar, CodePoint, RuneBytes, JoinSurrogates, ShortEscape, LETTERS;
    match c
    case Unescaped(_) =>
    case Letter(l) => LettersExact(l);
    case Four(cp, cases) =>
      FourRead(cp, cases);
      RuneIsItsChar(cp);
    case Eight(cp, first, second) =>
      HalvesJoin(cp);
      FourRead(0xD800 + (cp - 0x10000) / 0x400, first);
      FourRead(0xDC00 + (cp - 0x10000) % 0x400, second);
      RuneIsItsChar(cp);
  }

  lemma CharOf(u: Unit) returns (c: Char)
    requires u.Ok()
    ensures c.Ok() && UnitOf(c) == u
  {
    hide FourDigits, IsHex4, Hex4Value, JoinSurrogates, ShortEscape, LETTERS;
    match u
    case Plain(b) => c := Unescaped(b);
    case Short(l) =>
      LettersExact(l);
      c := Letter(l);
    case Hex(h) =>
      var cases := FourBack(h);
      c := Four(Hex4Value(h), cases);
    case Pair(hi, lo) =>
      HalvesBack(Hex4Value(hi), Hex4Value(lo));
      var first := FourBack(hi);
      var second := FourBack(lo);
      c := Eight(JoinSurrogates(Hex4Value(hi), Hex4Value(lo)), first, second);
  }

  /** What a char is read as is settled by the char. */
  lemma ReadAsOne(c: Char, v: bytes)
    requires c.Ok() && c.ReadAs(v)
    ensures UnitOf(c).Ok() && v == UnitOf(c).Value()
  {
    hide IsChar, CodePoint, RuneBytes, FourDigits, LETTERS, IsHex4, Hex4Value, JoinSurrogates, ShortEscape;
    UnitSound(c);
    if c.Four? || c.Eight? {
      CharIsItsRune(v);
      CharIsItsRune(UnitOf(c).Value());
    }
  }

  function UnitsOf(cs: seq<Char>): seq<Unit>
    requires CharsOk(cs)
  {
    if |cs| == 0 then [] else [UnitOf(cs[0])] + UnitsOf(cs[1..])
  }

  lemma {:induction false} UnitsSound(cs: seq<Char>)
    requires CharsOk(cs)
    ensures UnitsOk(UnitsOf(cs)) && UnitsText(UnitsOf(cs)) == CharsText(cs)
    ensures CharsReadAs(cs, UnitsValue(UnitsOf(cs)))
    decreases |cs|
  {
    hide UnitOf, Char.Ok, Char.Text, Char.ReadAs, Unit.Ok, Unit.Text, Unit.Value;
    if |cs| > 0 {
      assert cs[0] in cs && CharsOk(cs[1..]);
      UnitSound(cs[0]);
      UnitsSound(cs[1..]);
      assert UnitsOf(cs)[1..] == UnitsOf(cs[1..]);
      assert UnitsValue(UnitsOf(cs)) == UnitOf(cs[0]).Value() + UnitsValue(UnitsOf(cs[1..]));
    }
  }

  lemma {:induction false} CharsOf(us: seq<Unit>) returns (cs: seq<Char>)
    requires UnitsOk(us)
    ensures CharsOk(cs) && UnitsOf(cs) == us
    decreases |us|
  {
    hide UnitOf, Char.Ok, Unit.Ok;
    if |us| == 0 {
      cs := [];
    } else {
      assert us[0] in us && UnitsOk(us[1..]);
      var c := CharOf(us[0]);
      var rest := CharsOf(us[1..]);
      cs := [c] + rest;
      assert cs[1..] == rest;
      assert us == [us[0]] + us[1..];
    }
  }

  /** What chars are read as is settled by the chars. */
  lemma {:induction false} CharsReadAsOne(cs: seq<Char>, v: bytes)
    requires CharsOk(cs) && CharsReadAs(cs, v)
    ensures UnitsOk(UnitsOf(cs)) && v == UnitsValue(UnitsOf(cs))
    decreases |cs|
  {
    hide UnitOf, Char.Ok, Char.ReadAs, Unit.Ok, Unit.Value;
    UnitsSound(cs);
    if |cs| > 0 {
      var part, rest :| v == part + rest && cs[0].ReadAs(part) && CharsReadAs(cs[1..], rest);
      assert cs[0] in cs && CharsOk(cs[1..]);
      ReadAsOne(cs[0], part);
      CharsReadAsOne(cs[1..], rest);
      assert UnitsOf(cs)[1..] == UnitsOf(cs[1..]);
    }
  }

  /** A string as it is written, in its quotes. */
  function Written(cs: seq<Char>): bytes
    requires CharsOk(cs)
  {
    [34] + CharsText(cs) + [34]
  }

  /** str accepts v ending at end exactly when chars read as v stand there in quotes, and v is UTF-8 as a whole. */
  lemma StringExact(buf: bytes, pos: nat, v: bytes, end: nat)
    requires pos <= |buf|
    ensures Str(buf, pos) == Parsed.Ok(v, end) <==>
            exists cs :: CharsOk(cs) && HasAt(buf, pos, Written(cs)) && end == pos + |Written(cs)| && CharsReadAs(cs, v) && ValidUtf8(v)
  {
    hide Str, HasAt, CharsOk, CharsReadAs, ValidUtf8, UnitsOk, UnitsOf, CharsText, UnitsText, UnitsValue;
    StrExact(buf, pos, v, end);
    if Str(buf, pos) == Parsed.Ok(v, end) {
      var us :| UnitsOk(us) && HasAt(buf, pos, StringText(us)) && end == pos + |StringText(us)| && UnitsValue(us) == v && ValidUtf8(v);
      var cs := CharsOf(us);
      UnitsSound(cs);
      assert StringText(us) == Written(cs);
    }
    if cs :| CharsOk(cs) && HasAt(buf, pos, Written(cs)) && end == pos + |Written(cs)| && CharsReadAs(cs, v) && ValidUtf8(v) {
      UnitsSound(cs);
      CharsReadAsOne(cs, v);
      assert StringText(UnitsOf(cs)) == Written(cs);
    }
  }

  // ---- Surrogate pairs ----

  lemma {:induction false} CharIsUtf8(c: bytes)
    requires IsChar(c)
    ensures ValidUtf8(c)
  {
    assert c + Concat([]) == c;
    assert IsPartition(c, [c]);
    ValidUtf8Exact(c);
  }

  /** A string of one char. */
  lemma OneChar(c: Char, v: bytes)
    requires c.Ok() && c.ReadAs(v)
    ensures CharsOk([c]) && CharsReadAs([c], v) && Written([c]) == [34] + c.Text() + [34]
  {
    hide Char.Ok, Char.ReadAs, Char.Text;
    assert [c][1..] == [];
    assert CharsReadAs([], []) && v == v + [];
    assert CharsReadAs([c], v);
    assert CharsText([c]) == c.Text() + [] == c.Text();
  }

  /** Every code point past the first plane, escaped as its two halves in any case, is read as its own char. */
  lemma PairRead(buf: bytes, pos: nat, cp: nat, first: Case, second: Case)
    requires 0x10000 <= cp <= 0x10FFFF
    requires var hi, lo := 0xD800 + (cp - 0x10000) / 0x400, 0xDC00 + (cp - 0x10000) % 0x400;
             HasAt(buf, pos, [34] + ([92, 117] + FourDigits(hi, first) + [92, 117] + FourDigits(lo, second)) + [34])
    ensures pos <= |buf| && Str(buf, pos).Ok? && Str(buf, pos).pos == pos + 14
    ensures var c := Str(buf, pos).value; IsChar(c) && CodePoint(c) == cp
  {
    hide HasAt, FourDigits, IsChar, CodePoint, ValidUtf8, Str, CharsOk, CharsReadAs, Written;
    var c, v := Eight(cp, first, second), RuneBytes(cp);
    RuneIsItsChar(cp);
    CharIsUtf8(v);
    OneChar(c, v);
    HasAtInside(buf, pos, Written([c]));
    FourSize(0xD800 + (cp - 0x10000) / 0x400, first);
    FourSize(0xDC00 + (cp - 0x10000) % 0x400, second);
    StringExact(buf, pos, v, pos + 14);
  }

  lemma FourSize(u: nat, cases: Case)
    requires u < 0x10000
    ensures |FourDigits(u, cases)| == 4
  {
  }

  lemma GrinningDigits()
    ensures FourDigits(0xD83D, Case(false, false, false, false)) == [100, 56, 51, 100]
    ensures FourDigits(0xDE00, Case(false, false, false, false)) == [100, 101, 48, 48]
    ensures RuneBytes(0x1F600) == [0xF0, 0x9F, 0x98, 0x80]
  {
  }

  lemma GrinningSpelled(s: bytes)
    requires Spells(s, "\"\\ud83d\\ude00\"")
    ensures s == [34] + ([92, 117] + [100, 56, 51, 100] + [92, 117] + [100, 101, 48, 48]) + [34]
  {
  }

  /** The grinning face, escaped: U+1F600 in four bytes. */
  lemma GrinningFace(s: bytes)
    requires Spells(s, "\"\\ud83d\\ude00\"")
    ensures Str(s, 0) == Parsed.Ok([0xF0, 0x9F, 0x98, 0x80], 14)
  {
    hide Str, IsChar, CodePoint, FourDigits, Spells, RuneBytes;
    GrinningDigits();
    GrinningSpelled(s);
    HasAtSlice(s, 0, |s|);
    assert s[0..|s|] == s;
    PairRead(s, 0, 0x1F600, Case(false, false, false, false), Case(false, false, false, false));
    CharIsItsRune(Str(s, 0).value);
  }

  // ---- Refused strings ----

  predicate DigitsAt(buf: bytes, p: nat) {
    p + 4 <= |buf| && forall k :: p <= k < p + 4 ==> 48 <= buf[k] <= 57 || 65 <= buf[k] <= 70 || 97 <= buf[k] <= 102
  }

  predicate OpensHex(buf: bytes, p: nat) {
    p + 1 < |buf| && buf[p] == 92 && buf[p + 1] == 117
  }

  /** What stands at p is no char and no quote: the word for it, and the offset the reader has reached. */
  ghost predicate Fault(buf: bytes, p: nat, w: Word, at: nat) {
    if p >= |buf| then w == Malformed && at == p
    else if buf[p] < 32 then w == BadString && at == p
    else if buf[p] != 92 then false
    else if p + 1 == |buf| then w == Malformed && at == p + 1
    else if buf[p + 1] != 117 then buf[p + 1] !in LETTERS && w == BadString && at == p + 2
    else if !DigitsAt(buf, p + 2) then w == BadString && at == p + 2
    else HalfFault(buf, p, Hex4Value(buf[p + 2..p + 6]), w, at)
  }

  /** After four digits: a low half comes first, or a high one has no low one behind it. */
  ghost predicate HalfFault(buf: bytes, p: nat, u: nat, w: Word, at: nat) {
    if 0xDC00 <= u <= 0xDFFF then w == BadString && at == p + 6
    else if !(0xD800 <= u <= 0xDBFF) then false
    else if !OpensHex(buf, p + 6) then w == BadString && at == p + 6
    else if !DigitsAt(buf, p + 8) then w == BadString && at == p + 8
    else !(0xDC00 <= Hex4Value(buf[p + 8..p + 12]) <= 0xDFFF) && w == BadString && at == p + 12
  }

  lemma DigitsAreHex(buf: bytes, p: nat)
    ensures DigitsAt(buf, p) <==> p + 4 <= |buf| && IsHex4(buf[p..p + 4])
  {
    if p + 4 <= |buf| {
      var h := buf[p..p + 4];
      assert forall k :: 0 <= k < 4 ==> h[k] == buf[p + k];
      if IsHex4(h) {
        forall k | p <= k < p + 4 ensures HexValue(buf[k]) >= 0 {
          assert h[k - p] in h;
        }
      }
      if DigitsAt(buf, p) {
        forall c | c in h ensures HexValue(c) >= 0 {
        }
      }
    }
  }

  /** The escape at a backslash is refused exactly at a fault. */
  lemma EscapeFault(buf: bytes, p: nat, w: Word, at: nat)
    requires p < |buf| && buf[p] == 92
    ensures Escape(buf, p) == Refuse(w, at) <==> Fault(buf, p, w, at)
  {
    hide Hex4Value, IsHex4, RuneBytes, DigitsAt, LETTERS, ShortEscape;
    DigitsAreHex(buf, p + 2);
    DigitsAreHex(buf, p + 8);
    if p + 1 < |buf| {
      LettersExact(buf[p + 1]);
      assert ShortEscape(buf[p + 1]) < 0 <==> buf[p + 1] !in LETTERS by { LettersAreBytes(buf[p + 1]); }
    }
  }

  lemma LettersAreBytes(c: byte)
    ensures ShortEscape(c) < 0 <==> c !in LETTERS
  {
  }

  lemma {:induction false} BodyOverUnits(buf: bytes, pos: nat, us: seq<Unit>, out: bytes)
    requires UnitsOk(us) && HasAt(buf, pos, UnitsText(us))
    ensures pos + |UnitsText(us)| <= |buf|
    ensures StrBody(buf, pos, out) == StrBody(buf, pos + |UnitsText(us)|, out + UnitsValue(us))
    decreases |us|
  {
    hide HasAt, StrBody, Unit.Text, Unit.Value, Unit.Ok;
    HasAtInside(buf, pos, UnitsText(us));
    if |us| == 0 {
      assert out + UnitsValue(us) == out;
    } else {
      var u, rest := us[0], us[1..];
      assert u in us && UnitsOk(rest);
      HasAtSplit(buf, pos, u.Text(), UnitsText(rest));
      BodyOnUnit(buf, pos, u, out);
      BodyOverUnits(buf, pos + |u.Text()|, rest, out + u.Value());
      assert out + UnitsValue(us) == (out + u.Value()) + UnitsValue(rest);
    }
  }

  /** Where the string loop stops, it stops with a quote or a fault. */
  ghost predicate BodyEnds(buf: bytes, p: nat, v: bytes, w: Word, at: nat) {
    if p < |buf| && buf[p] == 34 then !ValidUtf8(v) && w == BadString && at == p + 1 else Fault(buf, p, w, at)
  }

  lemma BodyHere(buf: bytes, p: nat, v: bytes, w: Word, at: nat)
    requires p <= |buf| && BodyEnds(buf, p, v, w, at)
    ensures StrBody(buf, p, v) == Refuse(w, at)
  {
    hide ValidUtf8, Escape, HalfFault, DigitsAt, LETTERS;
    if p < |buf| && buf[p] == 92 {
      EscapeFault(buf, p, w, at);
    }
  }

  lemma {:induction false} BodyRefused(buf: bytes, pos: nat, out: bytes, w: Word, at: nat) returns (us: seq<Unit>)
    requires pos <= |buf| && StrBody(buf, pos, out) == Refuse(w, at)
    ensures UnitsOk(us) && HasAt(buf, pos, UnitsText(us))
    ensures BodyEnds(buf, pos + |UnitsText(us)|, out + UnitsValue(us), w, at)
    decreases |buf| - pos
  {
    hide HasAt, ValidUtf8, Escape, HalfFault, DigitsAt, LETTERS, Unit.Ok, Unit.Text, Unit.Value;
    var escapes := pos < |buf| && buf[pos] == BACKSLASH;
    if pos >= |buf| || buf[pos] == QUOTE || (buf[pos] < 0x20) || (escapes && Escape(buf, pos).Refuse?) {
      us := [];
      HasAtNothing(buf, pos);
      assert out + UnitsValue(us) == out;
      if escapes {
        EscapeFault(buf, pos, w, at);
      }
    } else {
      var u := UnitAt(buf, pos);
      BodyOnUnit(buf, pos, u, out);
      HasAtInside(buf, pos, u.Text());
      var rest := BodyRefused(buf, pos + |u.Text()|, out + u.Value(), w, at);
      us := [u] + rest;
      assert us[1..] == rest;
      HasAtJoin(buf, pos, u.Text(), UnitsText(rest));
      assert out + UnitsValue(us) == (out + u.Value()) + UnitsValue(rest);
    }
  }

  lemma HasAtNothing(buf: bytes, pos: nat)
    requires pos <= |buf|
    ensures HasAt(buf, pos, [])
  {
  }

  /** A byte that neither ends the loop nor is refused begins a char. */
  lemma UnitAt(buf: bytes, pos: nat) returns (u: Unit)
    requires pos < |buf| && buf[pos] != QUOTE && buf[pos] >= 0x20 && (buf[pos] == BACKSLASH ==> Escape(buf, pos).Ok?)
    ensures u.Ok() && HasAt(buf, pos, u.Text()) && |u.Text()| > 0
  {
    hide HasAt, Escape;
    if buf[pos] == BACKSLASH {
      u := EscapeGivesUnit(buf, pos);
    } else {
      u := Plain(buf[pos]);
      HasAtByte(buf, pos);
    }
  }

  /**
   A string is refused exactly so: there is no quote; or chars that can be read
   are followed by a fault; or by the closing quote, and are not UTF-8 together.
   */
  lemma RefusalExact(buf: bytes, pos: nat, w: Word, at: nat)
    requires pos < |buf|
    ensures buf[pos] != 34 ==> (Str(buf, pos) == Refuse(w, at) <==> w == WrongType && at == pos)
    ensures buf[pos] == 34 ==>
              (Str(buf, pos) == Refuse(w, at) <==>
               exists cs, v :: && CharsOk(cs) && CharsReadAs(cs, v) && HasAt(buf, pos + 1, CharsText(cs))
                               && BodyEnds(buf, pos + 1 + |CharsText(cs)|, v, w, at))
  {
    hide HasAt, StrBody, BodyEnds, CharsOk, CharsReadAs, UnitsOk, UnitsOf, CharsText, UnitsText, UnitsValue;
    if buf[pos] == 34 {
      if Str(buf, pos) == Refuse(w, at) {
        var us := BodyRefused(buf, pos + 1, [], w, at);
        var cs := CharsOf(us);
        UnitsSound(cs);
        assert [] + UnitsValue(us) == UnitsValue(us);
      }
      if cs, v :| CharsOk(cs) && CharsReadAs(cs, v) && HasAt(buf, pos + 1, CharsText(cs)) && BodyEnds(buf, pos + 1 + |CharsText(cs)|, v, w, at) {
        UnitsSound(cs);
        CharsReadAsOne(cs, v);
        BodyOverUnits(buf, pos + 1, UnitsOf(cs), []);
        assert [] + v == v;
        BodyHere(buf, pos + 1 + |CharsText(cs)|, v, w, at);
      }
    }
  }

  // ---- The writer's escapes ----

  /**
   The writer escapes no more than it must, each byte one way: a letter where
   there is one, four lower-case digits for the other controls, and otherwise
   the byte itself; the slash stays bare.
   */
  lemma WrittenOneWay(c: byte)
    ensures c != 47 && c in LETTERS.Values ==>
              exists letter :: letter in LETTERS && LETTERS[letter] == c && Encoding.EscByte(c) == [92, letter]
    ensures c < 0x20 && c !in LETTERS.Values ==> Encoding.EscByte(c) == [92, 117] + FourDigits(c, Case(false, false, false, false))
    ensures c == 47 || (c >= 0x20 && c !in LETTERS.Values) ==> Encoding.EscByte(c) == [c]
  {
    LetterValues();
    if c < 0x20 {
      assert c / 0x1000 == 0 && c / 0x100 % 16 == 0 && c / 0x10 % 16 == c / 16;
    }
    assert 34 in LETTERS && 92 in LETTERS && 98 in LETTERS && 102 in LETTERS && 110 in LETTERS && 114 in LETTERS && 116 in LETTERS;
  }

  lemma LetterValues()
    ensures LETTERS.Values == {34, 92, 47, 8, 12, 10, 13, 9}
  {
    assert forall v :: v in LETTERS.Values ==> exists l :: l in LETTERS && LETTERS[l] == v;
    assert 34 in LETTERS && 92 in LETTERS && 47 in LETTERS && 98 in LETTERS && 102 in LETTERS && 110 in LETTERS && 114 in LETTERS && 116 in LETTERS;
  }
}
