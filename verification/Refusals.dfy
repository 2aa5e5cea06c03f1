/**
 The word of a refusal and the byte it names, told from the text: the first
 member, element or token that is not what it should be decides both.
 */
module Refusals {
  import opened Basics
  import opened Bytes
  import opened Utf8
  import opened Scan
  import opened Grammar
  import opened Tokens
  import opened Numerals
  import opened Skipper
  import opened Schema
  import opened Decoding
  import opened Encoding
  import opened Wire
  import Timestamp

  // ---- Tokens ----

  /** The bytes a value of a kind may begin with. */
  predicate Begins(k: Kind, c: byte) {
    match k
    case KBool => c == 116 || c == 102
    case KInt(_, _) => c == 45 || 48 <= c <= 57
    case KList(_) => c == 91
    case KRecord(_, _) => c == 123
    case KRaw => true
    case _ => c == 34
  }

  /** A value that begins as no value of its kind does is of the wrong type, at its first byte. */
  lemma WrongBeginning(k: Kind, buf: bytes, pos: nat, depth: nat)
    requires pos <= |buf| && !Begins(k, At(buf, pos))
    ensures Decode(k, buf, pos, depth) == Refuse(WrongType, pos)
  {
    hide Timestamp.Normalized, Magnitude;
  }

  /** A string that is no member of a closed enum is refused behind it, and one that names no time at its beginning. */
  lemma WrongWord(k: Kind, buf: bytes, pos: nat, depth: nat)
    requires pos <= |buf| && Str(buf, pos).Ok?
    ensures k.KEnum? && (forall i :: 0 <= i < |k.words| ==> Ascii(k.words[i]) != Str(buf, pos).value) ==>
              Decode(k, buf, pos, depth) == Refuse(BadEnum, Str(buf, pos).pos)
    ensures k.KTime? && Timestamp.Normalized(Str(buf, pos).value) == [] ==> Decode(k, buf, pos, depth) == Refuse(BadTimestamp, pos)
  {
    hide Str, Timestamp.Normalized;
    if k.KEnum? {
      var i := WordIndex(k.words, Str(buf, pos).value);
    }
  }

  /** A string that is refused is refused so wherever one is expected. */
  lemma StringRefused(k: Kind, buf: bytes, pos: nat, depth: nat)
    requires pos <= |buf| && Str(buf, pos).Refuse? && (k.KStr? || k.KEnum? || k.KTime? || (k.KRaw? && At(buf, pos) == 34))
    ensures Decode(k, buf, pos, depth) == Refuse(Str(buf, pos).word, Str(buf, pos).at)
  {
    hide Str, Timestamp.Normalized;
  }

  /** Once digits begin, an integer is refused for its spelling alone. */
  lemma IntegerWord(buf: bytes, pos: nat, lo: int64, hi: int64)
    requires pos <= |buf| && IsDigit(At(buf, if At(buf, pos) == MINUS then pos + 1 else pos))
    ensures Integer(buf, pos, lo, hi).Refuse? ==> Integer(buf, pos, lo, hi).word == NumberSpelling
  {
    hide Accumulate;
    AccumulateWord(buf, if At(buf, pos) == MINUS then pos + 1 else pos, 0);
  }

  /** A number that is no integer, or out of its bounds, is a number spelled wrong. */
  lemma WrongNumber(k: Kind, n: Number, buf: bytes, pos: nat, depth: nat)
    requires k.KInt? && n.Ok() && HasAt(buf, pos, n.Text()) && !CarriesOn(At(buf, pos + |n.Text()|))
    requires !(IsInteger(n) && k.lo <= IntegerValue(n) <= k.hi)
    ensures pos <= |buf| && Decode(k, buf, pos, depth).Refuse? && Decode(k, buf, pos, depth).word == NumberSpelling
  {
    hide HasAt, Integer, IsInteger, IntegerValue, CarriesOn, Number.Text, Number.Ok;
    IntegerRead(n, buf, pos, k.lo, k.hi);
    NumberBegins(n, buf, pos);
    IntegerWord(buf, pos, k.lo, k.hi);
  }

  lemma NumberBegins(n: Number, buf: bytes, pos: nat)
    requires n.Ok() && HasAt(buf, pos, n.Text())
    ensures pos <= |buf| && IsDigit(At(buf, if At(buf, pos) == MINUS then pos + 1 else pos))
  {
    hide HasAt, Number.FracText, Number.ExpText;
    NumberText(n);
    HasAtThree(buf, pos, n.SignText(), n.whole, n.FracText() + n.ExpText());
    HasAtFirst(buf, pos + |n.SignText()|, n.whole);
    if n.neg {
      HasAtFirst(buf, pos, [MINUS]);
    }
  }

  lemma {:induction false} AccumulateWord(buf: bytes, pos: nat, u: uint64)
    requires pos <= |buf|
    ensures Accumulate(buf, pos, u).Refuse? ==> Accumulate(buf, pos, u).word == NumberSpelling
    decreases |buf| - pos
  {
    if IsDigit(At(buf, pos)) && u <= LAST_TENTH {
      AccumulateWord(buf, pos + 1, u * 10 + (buf[pos] - ZERO));
    }
  }

  /** The number that numerals spell. */
  function Amount(s: bytes): (n: nat)
    requires forall c :: c in s ==> Numeral(c)
  {
    if |s| == 0 then 0
    else
      assert s[|s| - 1] in s;
      assert Numeral(s[|s| - 1]);
      Amount(s[..|s| - 1]) * 10 + (s[|s| - 1] - 48)
  }

  lemma PrefixNumerals(s: bytes, j: nat)
    requires (forall c :: c in s ==> Numeral(c)) && j <= |s|
    ensures forall c :: c in s[..j] ==> Numeral(c)
  {
  }

  /** The digits before place j leave room for one more. */
  ghost predicate RoomUpTo(s: bytes, j: nat)
    requires (forall c :: c in s ==> Numeral(c)) && j <= |s|
  {
    forall i :: 0 <= i < j ==> (PrefixNumerals(s, i); Amount(s[..i]) <= 922337203685477580)
  }

  lemma {:induction false} AccumulatesTo(buf: bytes, pos: nat, s: bytes, j: nat)
    requires HasAt(buf, pos, s) && (forall c :: c in s ==> Numeral(c)) && j <= |s| && RoomUpTo(s, j)
    ensures pos + j <= |buf| && forall c :: c in s[..j] ==> Numeral(c)
    ensures Amount(s[..j]) < TWO64 && Accumulate(buf, pos, 0) == Accumulate(buf, pos + j, Amount(s[..j]))
  {
    hide HasAt;
    HasAtInside(buf, pos, s);
    PrefixNumerals(s, j);
    if j > 0 {
      AccumulatesTo(buf, pos, s, j - 1);
      HasAtIndex(buf, pos, s, j - 1);
      PrefixNumerals(s, j - 1);
      assert s[..j][..j - 1] == s[..j - 1] && s[j - 1] in s;
    }
  }

  /** A digit stands at each place of the digits, and none behind them. */
  ghost predicate DigitsStand(buf: bytes, start: nat, s: bytes) {
    && Run(s) && (s[0] == 48 ==> |s| == 1) && HasAt(buf, start, s)
    && (s == [48] || !IsDigit(At(buf, start + |s|)))
  }

  lemma MagnitudeByte(buf: bytes, start: nat, s: bytes, j: nat)
    requires DigitsStand(buf, start, s) && j <= |s| && RoomUpTo(s, j)
    ensures start < |buf| && IsDigit(buf[start])
    ensures j == |s| ==> Magnitude(buf, start).Ok? && Magnitude(buf, start).pos == start + |s|
    ensures j < |s| && (PrefixNumerals(s, j); Amount(s[..j]) > 922337203685477580) ==> Magnitude(buf, start) == Refuse(NumberSpelling, start + j)
  {
    hide HasAt;
    HasAtFirst(buf, start, s);
    assert s[0] in s;
    AccumulatesTo(buf, start, s, j);
    if j < |s| {
      HasAtIndex(buf, start, s, j);
      assert s[j] in s;
      if s[0] == 48 {
        assert s[..0] == [];
      }
    }
  }

  /**
   The byte an integer is refused at: the first digit that follows more than
   922337203685477580, when there is one, and the byte behind its digits otherwise.
   */
  lemma NumberByte(k: Kind, buf: bytes, pos: nat, depth: nat, minus: bool, s: bytes, j: nat)
    requires k.KInt? && HasAt(buf, pos, if minus then [45] else [])
    requires DigitsStand(buf, if minus then pos + 1 else pos, s) && j <= |s| && RoomUpTo(s, j)
    ensures var start, r := if minus then pos + 1 else pos, Decode(k, buf, pos, depth);
            && pos <= |buf|
            && (j < |s| && (PrefixNumerals(s, j); Amount(s[..j]) > 922337203685477580) ==> r == Refuse(NumberSpelling, start + j))
            && (j == |s| && r.Refuse? ==> r == Refuse(NumberSpelling, start + |s|))
  {
    hide Magnitude, DigitsStand, RoomUpTo, Amount;
    var start := if minus then pos + 1 else pos;
    MagnitudeByte(buf, start, s, j);
    if minus {
      HasAtFirst(buf, pos, [45]);
    }
  }

  /** The word stands at pos. */
  ghost predicate WordAt(buf: bytes, pos: nat, word: string) {
    pos + |word| <= |buf| && Spells(buf[pos..pos + |word|], word)
  }

  lemma LiteralsSpelled(buf: bytes, pos: nat)
    ensures |TRUE_TEXT| == 4 && |FALSE_TEXT| == 5 && |NULL_TEXT| == 4
    ensures HasAt(buf, pos, TRUE_TEXT) <==> WordAt(buf, pos, "true")
    ensures HasAt(buf, pos, FALSE_TEXT) <==> WordAt(buf, pos, "false")
    ensures HasAt(buf, pos, NULL_TEXT) <==> WordAt(buf, pos, "null")
  {
    assert Spells(TRUE_TEXT, "true") && Spells(FALSE_TEXT, "false") && Spells(NULL_TEXT, "null");
    hide TRUE_TEXT, FALSE_TEXT, NULL_TEXT;
    forall word: string, text: bytes | Spells(text, word) ensures HasAt(buf, pos, text) <==> WordAt(buf, pos, word) {
      SpelledSize(text, word);
      if pos + |text| <= |buf| {
        SpelledOnce(text, buf[pos..pos + |text|], word);
      }
    }
  }

  /** A letter that begins true, false or null is read with its word, and malformed when the word does not follow; null is no boolean. */
  lemma LiteralExact(buf: bytes, pos: nat, depth: nat)
    requires pos < |buf|
    ensures buf[pos] == 116 ==>
              && Decode(KBool, buf, pos, depth) == (if WordAt(buf, pos, "true") then Parsed.Ok(VBool(true), pos + 4) else Refuse(Malformed, pos))
              && Skip(buf, pos, depth) == (if WordAt(buf, pos, "true") then Parsed.Ok((), pos + 4) else Refuse(Malformed, pos))
    ensures buf[pos] == 102 ==>
              && Decode(KBool, buf, pos, depth) == (if WordAt(buf, pos, "false") then Parsed.Ok(VBool(false), pos + 5) else Refuse(Malformed, pos))
              && Skip(buf, pos, depth) == (if WordAt(buf, pos, "false") then Parsed.Ok((), pos + 5) else Refuse(Malformed, pos))
    ensures buf[pos] == 110 ==>
              && Decode(KBool, buf, pos, depth) == Refuse(WrongType, pos)
              && Skip(buf, pos, depth) == (if WordAt(buf, pos, "null") then Parsed.Ok((), pos + 4) else Refuse(Malformed, pos))
  {
    hide HasAt, TRUE_TEXT, FALSE_TEXT, NULL_TEXT, WordAt, Str, SkipContainer, SkipNumber;
    LiteralsSpelled(buf, pos);
  }

  /** A container opened below the sixty-fourth level is refused at its bracket. */
  lemma TooDeep(k: Kind, buf: bytes, pos: nat, depth: nat)
    requires pos < |buf| && depth >= 64
    ensures buf[pos] == 123 && (k.KRecord? || k.KRaw?) ==> Decode(k, buf, pos, depth) == Refuse(DepthExceeded, pos)
    ensures buf[pos] == 91 && (k.KList? || k.KRaw?) ==> Decode(k, buf, pos, depth) == Refuse(DepthExceeded, pos)
  {
    if buf[pos] == 123 || buf[pos] == 91 {
      assert SkipContainer(buf, pos, depth) == Refuse(DepthExceeded, pos);
      assert Skip(buf, pos, depth) == Refuse(DepthExceeded, pos);
    }
    if k.KRecord? {
      assert buf[pos] == 123 ==> DecodeRecord(k, buf, pos, depth) == Refuse(DepthExceeded, pos);
    } else if k.KList? {
      assert buf[pos] == 91 ==> DecodeList(k, buf, pos, depth) == Refuse(DepthExceeded, pos);
    }
  }

  /** What is left over after a value and its blanks is refused where it begins. */
  lemma LeftOver(k: Kind, buf: bytes, depth: nat, v: Value, end: nat, next: nat)
    requires Decode(k, buf, SkipWs(buf, 0), depth) == Parsed.Ok(v, end)
    requires end <= next < |buf| && AllSpace(buf[end..next]) && !IsSpace(buf[next])
    ensures DecodeText(k, buf, depth) == Refuse(TrailingBytes, next)
  {
    hide Decode, SkipWs;
    HasAtSlice(buf, end, next);
    BlanksSkipped(buf, end, buf[end..next]);
  }

  // ---- Records ----

  /** Members with a comma after each. */
  function Followed(ms: seq<Member>): bytes {
    if |ms| == 0 then [] else (MemberText(ms[0]) + [COMMA]) + Followed(ms[1..])
  }

  /** The loop over members passes those that fit. */
  lemma {:induction false} MembersOver(k: Kind, ms: seq<Member>, buf: bytes, pos: nat, depth: nat, part: Partial)
    requires k.KRecord? && |part.values| == |k.fields| && MembersSyntax(ms) && HasAt(buf, pos, Followed(ms))
    requires InterpMembers(k, ms, depth, part).Some?
    ensures pos + |Followed(ms)| <= |buf|
    ensures DecodeMembers(k, buf, pos, depth, part) == DecodeMembers(k, buf, pos + |Followed(ms)|, depth, InterpMembers(k, ms, depth, part).value)
    decreases |ms|
  {
    hide HasAt, DecodeMembers, InterpMember, Syntax, MemberText, UnitsOk, BlanksOk;
    HasAtInside(buf, pos, Followed(ms));
    if |ms| > 0 {
      var m, rest := ms[0], ms[1..];
      HasAtSplit(buf, pos, MemberText(m) + [COMMA], Followed(rest));
      HasAtSplit(buf, pos, MemberText(m), [COMMA]);
      HasAtFirst(buf, pos + |MemberText(m)|, [COMMA]);
      MemberRead(k, m, buf, pos, depth, part);
      MembersOver(k, rest, buf, pos + |MemberText(m)| + 1, depth, InterpMember(k, m, depth, part).value);
    } else {
      NoMembers(k, depth, part);
    }
  }

  /** Where a member's key is read, and what is made of it. */
  lemma KeyRefused(m: Member, buf: bytes, pos: nat, next: byte)
    requires UnitsOk(m.key) && AllSpace(m.keyed) && AllSpace(m.coloned)
    requires HasAt(buf, pos, KeyText(m)) && At(buf, pos + |KeyText(m)|) == next && !IsSpace(next)
    ensures pos <= |buf|
    ensures !ValidUtf8(UnitsValue(m.key)) ==> KeyAt(buf, pos) == Refuse(BadString, pos + |StringText(m.key)|)
  {
    hide HasAt, ValidUtf8, Str, StringText, AllSpace;
    KeyRead(m, buf, pos, next);
    HasAtSplit(buf, pos, StringText(m.key), m.keyed + ([COLON] + m.coloned));
    StringRead(buf, pos, m.key);
  }

  /** A member up to its value, and a byte that may begin one. */
  predicate KeyStands(m: Member, buf: bytes, pos: nat) {
    && AllSpace(m.before) && AllSpace(m.keyed) && AllSpace(m.coloned) && UnitsOk(m.key)
    && HasAt(buf, pos, m.before + KeyText(m)) && !IsSpace(At(buf, pos + |m.before| + |KeyText(m)|))
  }

  lemma KeyStandsAt(m: Member, buf: bytes, pos: nat)
    requires KeyStands(m, buf, pos)
    ensures pos <= |buf| && SkipWs(buf, pos) == pos + |m.before| && pos + |m.before| + |KeyText(m)| <= |buf|
    ensures KeyAt(buf, pos + |m.before|) ==
            if ValidUtf8(UnitsValue(m.key)) then Parsed.Ok(KeyOf(m), pos + |m.before| + |KeyText(m)|)
            else Refuse(BadString, pos + |m.before| + |StringText(m.key)|)
  {
    hide HasAt, ValidUtf8, KeyAt, AllSpace, KeyText, StringText, UnitsOk, UnitsValue;
    HasAtSplit(buf, pos, m.before, KeyText(m));
    var k := pos + |m.before|;
    KeyRead(m, buf, k, At(buf, k + |KeyText(m)|));
    KeyRefused(m, buf, k, At(buf, k + |KeyText(m)|));
    HasAtInside(buf, k, KeyText(m));
    BlanksSkipped(buf, pos, m.before);
  }

  /** What the switch on a key refuses. */
  lemma FieldRefused(k: Kind, key: bytes, buf: bytes, pos: nat, depth: nat, part: Partial)
    requires k.KRecord? && pos <= |buf| && |part.values| == |k.fields|
    ensures var i, r := IndexOf(k.fields, key), DecodeField(k, key, buf, pos, depth, part);
            && (i >= 0 && i in part.seen ==> r == Refuse(DuplicateField, pos))
            && (i < 0 && !k.open ==> r == Refuse(UnknownField, pos))
            && (i >= 0 && i !in part.seen && Decode(k.fields[i].kind, buf, pos, depth).Refuse? ==>
                  r == Refuse(Decode(k.fields[i].kind, buf, pos, depth).word, Decode(k.fields[i].kind, buf, pos, depth).at))
            && (i < 0 && k.open && Skip(buf, pos, depth).Refuse? ==> r == Refuse(Skip(buf, pos, depth).word, Skip(buf, pos, depth).at))
  {
    hide Decode, Skip, IndexOf;
  }

  lemma MembersRefuse(k: Kind, buf: bytes, pos: nat, depth: nat, part: Partial)
    requires k.KRecord? && pos <= |buf| && |part.values| == |k.fields|
    ensures var key, r := KeyAt(buf, SkipWs(buf, pos)), DecodeMembers(k, buf, pos, depth, part);
            && (key.Refuse? ==> r == Refuse(key.word, key.at))
            && (key.Ok? ==> var f := DecodeField(k, key.value, buf, key.pos, depth, part); f.Refuse? ==> r == Refuse(f.word, f.at))
  {
    hide KeyAt, SkipWs, DecodeField;
  }

  /** The record decoder over an opened record, its first byte past the blanks no closing brace. */
  lemma RecordRefuses(k: Kind, buf: bytes, pos: nat, depth: nat)
    requires k.KRecord? && pos < |buf| && buf[pos] == 123 && depth < 64 && At(buf, SkipWs(buf, pos + 1)) != RBRACE
    ensures var r := DecodeMembers(k, buf, pos + 1, depth + 1, Partial({}, Zeros(k.fields)));
            r.Refuse? ==> Decode(k, buf, pos, depth) == Refuse(r.word, r.at)
  {
    hide DecodeMembers, Zeros, SkipWs;
    DecodeMembersFromBlank(k, buf, pos + 1, depth + 1, Partial({}, Zeros(k.fields)));
    assert Decode(k, buf, pos, depth) == DecodeRecord(k, buf, pos, depth);
  }

  /** The members fit, and none repeats a field. */
  predicate Fine(k: Kind, ms: seq<Member>, depth: nat)
    requires k.KRecord? && MembersSyntax(ms)
  {
    InterpMembers(k, ms, depth, Partial({}, Zeros(k.fields))).Some?
  }

  /** Fine members are those that each fit, no field being named twice. */
  lemma FineExact(k: Kind, ms: seq<Member>, depth: nat)
    requires k.KRecord? && MembersSyntax(ms)
    ensures forall m :: m in ms ==> UnitsOk(m.key) && Syntax(m.value)
    ensures Fine(k, ms, depth) <==> (forall m :: m in ms ==> Fits(k, m, depth)) && Once(AllReadAs(k, ms, depth), {})
  {
    MembersExact(k, ms, depth, Partial({}, Zeros(k.fields)));
  }

  /** The fields seen after fine members are those some member names. */
  lemma SeenExact(k: Kind, ms: seq<Member>, depth: nat, i: nat)
    requires k.KRecord? && WellFormed(k) && MembersSyntax(ms) && Fine(k, ms, depth)
    ensures forall m :: m in ms ==> UnitsOk(m.key)
    ensures i in InterpMembers(k, ms, depth, Partial({}, Zeros(k.fields))).value.seen <==> exists m :: m in ms && IsField(k, m, i)
  {
    hide WellFormed, IsField, UnitsOk, Syntax, ReadAs, Once, Wire.Filled, InterpMembers, Fits;
    MembersExact(k, ms, depth, Partial({}, Zeros(k.fields)));
    PlacesExact(k, ms, depth);
    var ps := AllReadAs(k, ms, depth);
    if m :| m in ms && IsField(k, m, i) {
      var j :| 0 <= j < |ms| && ms[j] == m;
      assert Names(ps, i);
    }
    if Names(ps, i) {
      var j :| 0 <= j < |ps| && ps[j].0 == i;
      assert ms[j] in ms && IsField(k, ms[j], i);
    }
  }

  /** A record opened, fine members each with its comma, and the key of one more. */
  predicate Opened(k: Kind, ms: seq<Member>, m: Member, buf: bytes, pos: nat, depth: nat)
    requires k.KRecord?
  {
    && depth < 64 && MembersSyntax(ms) && Fine(k, ms, depth + 1)
    && HasAt(buf, pos, [123] + (Followed(ms) + (m.before + KeyText(m)))) && KeyStands(m, buf, pos + 1 + |Followed(ms)|)
  }

  /** Where the value of that member stands. */
  function ValueAt(ms: seq<Member>, m: Member, pos: nat): nat {
    pos + 1 + |Followed(ms)| + |m.before| + |KeyText(m)|
  }

  lemma OpenedReaches(k: Kind, ms: seq<Member>, m: Member, buf: bytes, pos: nat, depth: nat)
    requires k.KRecord? && Opened(k, ms, m, buf, pos, depth)
    ensures pos < |buf| && buf[pos] == 123 && pos + 1 + |Followed(ms)| <= |buf| && At(buf, SkipWs(buf, pos + 1)) != RBRACE
    ensures DecodeMembers(k, buf, pos + 1, depth + 1, Partial({}, Zeros(k.fields))) ==
            DecodeMembers(k, buf, pos + 1 + |Followed(ms)|, depth + 1, InterpMembers(k, ms, depth + 1, Partial({}, Zeros(k.fields))).value)
  {
    hide HasAt, DecodeMembers, InterpMembers, KeyText, Followed, Zeros, KeyAt, AllSpace, UnitsOk, UnitsValue, ValidUtf8;
    HasAtThree(buf, pos, [123], Followed(ms), m.before + KeyText(m));
    HasAtFirst(buf, pos, [123]);
    MembersOver(k, ms, buf, pos + 1, depth + 1, Partial({}, Zeros(k.fields)));
    NoBraceNext(ms, m, buf, pos + 1);
  }

  /** What stands first after the opening brace is a quote. */
  lemma NoBraceNext(ms: seq<Member>, m: Member, buf: bytes, pos: nat)
    requires MembersSyntax(ms) && HasAt(buf, pos, Followed(ms)) && KeyStands(m, buf, pos + |Followed(ms)|)
    ensures pos <= |buf| && At(buf, SkipWs(buf, pos)) != RBRACE
  {
    hide HasAt, KeyAt, AllSpace, UnitsOk, UnitsValue, ValidUtf8, Syntax;
    HasAtInside(buf, pos, Followed(ms));
    if ms == [] {
      HasAtSplit(buf, pos, m.before, KeyText(m));
      FirstOfKey(m);
      HasAtFirst(buf, pos + |m.before|, KeyText(m));
      BlanksSkipped(buf, pos, m.before);
    } else {
      HasAtSplit(buf, pos, MemberText(ms[0]) + [COMMA], Followed(ms[1..]));
      HasAtSplit(buf, pos, MemberText(ms[0]), [COMMA]);
      FirstOfMember(ms[0], buf, pos);
    }
  }

  lemma FirstOfKey(m: Member)
    ensures |KeyText(m)| > 0 && KeyText(m)[0] == QUOTE
  {
  }

  lemma FirstOfMember(m: Member, buf: bytes, pos: nat)
    requires HasAt(buf, pos, MemberText(m)) && AllSpace(m.before)
    ensures pos <= |buf| && At(buf, SkipWs(buf, pos)) == QUOTE
  {
    hide HasAt, AllSpace, KeyText;
    HasAtSplit(buf, pos, m.before, KeyText(m) + (Print(m.value) + m.after));
    FirstOfKey(m);
    HasAtFirst(buf, pos + |m.before|, KeyText(m) + (Print(m.value) + m.after));
    BlanksSkipped(buf, pos, m.before);
  }

  /**
   The first member that does not fit decides: a key that is not UTF-8 is
   refused behind it, and a field named again, or a key a closed record does not
   know, where the value begins; what the value is refused for is what the record
   is refused for.
   */
  lemma RecordRefused(k: Kind, ms: seq<Member>, m: Member, buf: bytes, pos: nat, depth: nat)
    requires k.KRecord? && WellFormed(k) && Opened(k, ms, m, buf, pos, depth)
    ensures UnitsOk(m.key) && (forall x :: x in ms ==> UnitsOk(x.key)) && ValueAt(ms, m, pos) <= |buf|
    ensures var v, r := ValueAt(ms, m, pos), Decode(k, buf, pos, depth);
            && (!ValidUtf8(UnitsValue(m.key)) ==> r == Refuse(BadString, pos + 1 + |Followed(ms)| + |m.before| + |StringText(m.key)|))
            && (ValidUtf8(UnitsValue(m.key)) ==>
                  && (forall i: nat, x :: IsField(k, m, i) && x in ms && IsField(k, x, i) ==> r == Refuse(DuplicateField, v))
                  && ((forall i: nat :: !IsField(k, m, i)) && !k.open ==> r == Refuse(UnknownField, v))
                  && (forall i: nat :: IsField(k, m, i) && i < |k.fields| && (forall x :: x in ms ==> !IsField(k, x, i))
                                       && Decode(k.fields[i].kind, buf, v, depth + 1).Refuse? ==>
                        r == Refuse(Decode(k.fields[i].kind, buf, v, depth + 1).word, Decode(k.fields[i].kind, buf, v, depth + 1).at))
                  && ((forall i: nat :: !IsField(k, m, i)) && k.open && Skip(buf, v, depth + 1).Refuse? ==>
                        r == Refuse(Skip(buf, v, depth + 1).word, Skip(buf, v, depth + 1).at)))
  {
    hide HasAt, Decode, DecodeMembers, InterpMembers, KeyText, Followed, Zeros, KeyAt, AllSpace, UnitsOk, UnitsValue, ValidUtf8, StringText;
    hide WellFormed, IsField, IndexOf, DecodeField, Skip, Fine;
    assert Fine(k, ms, depth + 1) && MembersSyntax(ms) && KeyStands(m, buf, pos + 1 + |Followed(ms)|);
    FineStarts(k, ms, depth + 1);
    var part := InterpMembers(k, ms, depth + 1, Partial({}, Zeros(k.fields))).value;
    var p, v := pos + 1 + |Followed(ms)|, ValueAt(ms, m, pos);
    OpenedReaches(k, ms, m, buf, pos, depth);
    RecordRefuses(k, buf, pos, depth);
    KeyStandsAt(m, buf, p);
    MembersRefuse(k, buf, p, depth + 1, part);
    FieldRefused(k, KeyOf(m), buf, v, depth + 1, part);
    var at := IndexOf(k.fields, KeyOf(m));
    forall i: nat ensures IsField(k, m, i) <==> at == i {
      FieldsApart(k, m, i);
    }
    assert at >= 0 ==> IsField(k, m, at);
    forall i: nat ensures i in part.seen <==> exists x :: x in ms && IsField(k, x, i) {
      SeenExact(k, ms, depth + 1, i);
    }
  }

  lemma FineStarts(k: Kind, ms: seq<Member>, depth: nat)
    requires k.KRecord? && MembersSyntax(ms) && Fine(k, ms, depth)
    ensures InterpMembers(k, ms, depth, Partial({}, Zeros(k.fields))).Some?
    ensures forall m :: m in ms ==> UnitsOk(m.key)
  {
    EachSyntax(ms);
  }

  /** A record whose members are all fine and which lacks a required field is refused behind its brace. */
  lemma FieldMissing(k: Kind, t: Json, buf: bytes, pos: nat, depth: nat, i: nat)
    requires k.KRecord? && WellFormed(k) && t.Obj? && Syntax(t) && HasAt(buf, pos, Print(t)) && depth < 64
    requires Fine(k, t.members, depth + 1) && i < |k.fields| && k.fields[i].omit == Never
    requires forall m :: m in t.members ==> UnitsOk(m.key) && !IsField(k, m, i)
    ensures pos <= |buf| && Decode(k, buf, pos, depth) == Refuse(MissingField, pos + |Print(t)|)
  {
    hide HasAt, SkipWs, DecodeMembers, AllSpace, InterpMembers, Zeros, UnitsOk, IsField, WellFormed, MembersSyntax, MembersText;
    var start := Partial({}, Zeros(k.fields));
    SeenExact(k, t.members, depth + 1, i);
    HasAtFirst(buf, pos, Print(t));
    Container(buf, pos, LBRACE, t.lead, MembersText(t.members), RBRACE);
    if |t.members| == 0 {
      NoMembers(k, depth + 1, start);
      NoMembersText(t.members);
    } else {
      FirstMember(t.members, buf, pos + 1);
      MembersRead(k, t.members, buf, pos + 1, depth + 1, start);
      DecodeMembersFromBlank(k, buf, pos + 1, depth + 1, start);
    }
    assert Decode(k, buf, pos, depth) == DecodeRecord(k, buf, pos, depth);
  }

  lemma NoMembersText(ms: seq<Member>)
    requires ms == []
    ensures MembersText(ms) == []
  {
  }

  // ---- Lists ----

  /** Elements with a comma after each. */
  function Listed(items: seq<Item>): bytes {
    if |items| == 0 then [] else (ItemText(items[0]) + [COMMA]) + Listed(items[1..])
  }

  lemma {:induction false} ItemsOver(k: Kind, items: seq<Item>, buf: bytes, pos: nat, depth: nat, out: seq<Value>)
    requires k.KList? && ItemsSyntax(items) && HasAt(buf, pos, Listed(items))
    requires InterpItems(k.elem, items, depth, out).Some?
    ensures pos + |Listed(items)| <= |buf|
    ensures DecodeItems(k, buf, pos, depth, out) == DecodeItems(k, buf, pos + |Listed(items)|, depth, InterpItems(k.elem, items, depth, out).value)
    decreases |items|
  {
    hide HasAt, DecodeItems, Interp, Syntax, ItemText;
    HasAtInside(buf, pos, Listed(items));
    if |items| > 0 {
      var i, rest := items[0], items[1..];
      HasAtSplit(buf, pos, ItemText(i) + [COMMA], Listed(rest));
      HasAtSplit(buf, pos, ItemText(i), [COMMA]);
      HasAtFirst(buf, pos + |ItemText(i)|, [COMMA]);
      ItemRead(k, i, buf, pos, depth, out);
      ItemsOver(k, rest, buf, pos + |ItemText(i)| + 1, depth, out + [Interp(k.elem, i.value, depth).value]);
    }
  }

  lemma ItemsRefuse(k: Kind, buf: bytes, pos: nat, depth: nat, out: seq<Value>)
    requires k.KList? && pos <= |buf|
    ensures var v, r := Decode(k.elem, buf, SkipWs(buf, pos), depth), DecodeItems(k, buf, pos, depth, out);
            v.Refuse? ==> r == Refuse(v.word, v.at)
  {
    hide Decode, SkipWs;
  }

  lemma ListRefuses(k: Kind, buf: bytes, pos: nat, depth: nat)
    requires k.KList? && pos < |buf| && buf[pos] == 91 && depth < 64 && At(buf, SkipWs(buf, pos + 1)) != RBRACKET
    ensures var r := DecodeItems(k, buf, pos + 1, depth + 1, []);
            r.Refuse? ==> Decode(k, buf, pos, depth) == Refuse(r.word, r.at)
  {
    hide DecodeItems, SkipWs;
    DecodeItemsFromBlank(k, buf, pos + 1, depth + 1, []);
    assert Decode(k, buf, pos, depth) == DecodeList(k, buf, pos, depth);
  }

  /** A list is refused for what its first element that means nothing is refused for. */
  lemma ListRefused(k: Kind, items: seq<Item>, before: bytes, buf: bytes, pos: nat, depth: nat)
    requires k.KList? && depth < 64 && ItemsSyntax(items) && AllSpace(before)
    requires forall i :: 0 <= i < |items| ==> Syntax(items[i].value) && Interp(k.elem, items[i].value, depth + 1).Some?
    requires HasAt(buf, pos, [91] + (Listed(items) + before))
    requires var v := pos + 1 + |Listed(items)| + |before|; !IsSpace(At(buf, v)) && At(buf, v) != RBRACKET
    ensures var v := pos + 1 + |Listed(items)| + |before|;
            && v <= |buf|
            && var e := Decode(k.elem, buf, v, depth + 1);
               e.Refuse? ==> Decode(k, buf, pos, depth) == Refuse(e.word, e.at)
  {
    hide HasAt, Decode, DecodeItems, Interp, InterpItems, Syntax, Listed, AllSpace;
    HasAtThree(buf, pos, [91], Listed(items), before);
    HasAtFirst(buf, pos, [91]);
    AllMean(k.elem, items, depth + 1, []);
    ItemsOver(k, items, buf, pos + 1, depth + 1, []);
    BlanksSkipped(buf, pos + 1 + |Listed(items)|, before);
    ItemsRefuse(k, buf, pos + 1 + |Listed(items)|, depth + 1, InterpItems(k.elem, items, depth + 1, []).value);
    NoBracketNext(items, before, buf, pos + 1);
    ListRefuses(k, buf, pos, depth);
  }

  lemma {:induction false} AllMean(elem: Kind, items: seq<Item>, depth: nat, out: seq<Value>)
    requires ItemsSyntax(items) && forall i :: 0 <= i < |items| ==> Syntax(items[i].value) && Interp(elem, items[i].value, depth).Some?
    ensures InterpItems(elem, items, depth, out).Some?
    decreases |items|
  {
    hide Interp, Syntax;
    if |items| > 0 {
      var rest := items[1..];
      assert forall i :: 0 <= i < |rest| ==> rest[i] == items[i + 1];
      AllMean(elem, rest, depth, out + [Interp(elem, items[0].value, depth).value]);
    }
  }

  lemma NoBracketNext(items: seq<Item>, before: bytes, buf: bytes, pos: nat)
    requires ItemsSyntax(items) && AllSpace(before) && HasAt(buf, pos, Listed(items)) && HasAt(buf, pos + |Listed(items)|, before)
    requires var v := pos + |Listed(items)| + |before|; !IsSpace(At(buf, v)) && At(buf, v) != RBRACKET
    ensures pos <= |buf| && At(buf, SkipWs(buf, pos)) != RBRACKET
  {
    hide HasAt, AllSpace, Syntax;
    HasAtInside(buf, pos, Listed(items));
    if items == [] {
      BlanksSkipped(buf, pos, before);
    } else {
      HasAtSplit(buf, pos, ItemText(items[0]) + [COMMA], Listed(items[1..]));
      HasAtSplit(buf, pos, ItemText(items[0]), [COMMA]);
      ItemOpens(items[0], buf, pos);
    }
  }

  lemma ItemOpens(i: Item, buf: bytes, pos: nat)
    requires AllSpace(i.before) && Syntax(i.value) && HasAt(buf, pos, ItemText(i))
    ensures pos <= |buf| && At(buf, SkipWs(buf, pos)) != RBRACKET
  {
    hide HasAt, AllSpace, Syntax, Print;
    PrintNonEmpty(i.value);
    HasAtSplit(buf, pos, i.before, Print(i.value) + i.after);
    HasAtFirst(buf, pos + |i.before|, Print(i.value) + i.after);
    BlanksSkipped(buf, pos, i.before);
  }

  // ---- Values skipped ----

  /** The keys of members. */
  function KeysOf(ms: seq<Member>): set<bytes>
    requires forall m :: m in ms ==> UnitsOk(m.key)
  {
    set m | m in ms :: KeyOf(m)
  }

  /** The skipper's loop passes members that are carried. */
  lemma {:induction false} SkipOver(ms: seq<Member>, buf: bytes, pos: nat, depth: nat, seen: set<bytes>)
    requires MembersSyntax(ms) && MembersCarried(ms, depth, seen) && HasAt(buf, pos, Followed(ms))
    ensures pos + |Followed(ms)| <= |buf| && forall m :: m in ms ==> UnitsOk(m.key)
    ensures SkipMembers(buf, pos, depth, seen) == SkipMembers(buf, pos + |Followed(ms)|, depth, seen + KeysOf(ms))
    decreases |ms|
  {
    hide HasAt, SkipMembers, Syntax, MemberText, UnitsOk, BlanksOk, Carried, ValidUtf8, KeyOf;
    HasAtInside(buf, pos, Followed(ms));
    EachSyntax(ms);
    if |ms| > 0 {
      var m, rest := ms[0], ms[1..];
      HasAtSplit(buf, pos, MemberText(m) + [COMMA], Followed(rest));
      HasAtSplit(buf, pos, MemberText(m), [COMMA]);
      HasAtFirst(buf, pos + |MemberText(m)|, [COMMA]);
      SkipMemberStep(m, buf, pos, depth, seen);
      SkipOver(rest, buf, pos + |MemberText(m)| + 1, depth, seen + {KeyOf(m)});
      assert forall x :: x in ms <==> x == m || x in rest;
      assert (seen + {KeyOf(m)}) + KeysOf(rest) == seen + KeysOf(ms);
    } else {
      assert seen + KeysOf(ms) == seen;
    }
  }

  /** A repeated key is refused behind its closing quote, before its colon is looked for. */
  lemma KeySkipped(m: Member, buf: bytes, pos: nat, seen: set<bytes>)
    requires KeyStands(m, buf, pos) && ValidUtf8(UnitsValue(m.key)) && KeyOf(m) in seen
    ensures pos <= |buf| && pos + |m.before| <= |buf|
    ensures SkipKey(buf, pos + |m.before|, seen) == Refuse(DuplicateKey, pos + |m.before| + |StringText(m.key)|)
  {
    hide HasAt, ValidUtf8, KeyAt, AllSpace, StringText, UnitsOk, UnitsValue, Str;
    HasAtSplit(buf, pos, m.before, KeyText(m));
    HasAtSplit(buf, pos + |m.before|, StringText(m.key), m.keyed + ([COLON] + m.coloned));
    StringRead(buf, pos + |m.before|, m.key);
    FirstOfKey(m);
    HasAtFirst(buf, pos + |m.before|, KeyText(m));
  }

  lemma SkipMembersRefuse(buf: bytes, pos: nat, depth: nat, seen: set<bytes>)
    requires pos <= |buf|
    ensures var key, r := SkipKey(buf, SkipWs(buf, pos), seen), SkipMembers(buf, pos, depth, seen);
            && (key.Refuse? ==> r == Refuse(key.word, key.at))
            && (key.Ok? && Skip(buf, key.pos, depth).Refuse? ==> r == Refuse(Skip(buf, key.pos, depth).word, Skip(buf, key.pos, depth).at))
  {
    hide Skip, SkipKey, SkipWs;
  }

  lemma ObjectRefuses(buf: bytes, pos: nat, depth: nat)
    requires pos < |buf| && buf[pos] == 123 && depth < 64 && At(buf, SkipWs(buf, pos + 1)) != RBRACE
    ensures var r := SkipMembers(buf, pos + 1, depth + 1, {}); r.Refuse? ==> Skip(buf, pos, depth) == Refuse(r.word, r.at)
  {
    hide SkipMembers, SkipWs;
    MembersFromBlank(buf, pos + 1, depth + 1);
    assert Skip(buf, pos, depth) == SkipContainer(buf, pos, depth);
  }

  /** A key named twice in an object that is skipped is refused behind the second of them. */
  lemma KeyTwice(ms: seq<Member>, m: Member, buf: bytes, pos: nat, depth: nat)
    requires depth < 64 && MembersSyntax(ms) && MembersCarried(ms, depth + 1, {})
    requires HasAt(buf, pos, [123] + (Followed(ms) + (m.before + KeyText(m)))) && KeyStands(m, buf, pos + 1 + |Followed(ms)|)
    requires ValidUtf8(UnitsValue(m.key)) && exists x :: x in ms && UnitsOk(x.key) && UnitsValue(x.key) == UnitsValue(m.key)
    ensures pos < |buf| && Skip(buf, pos, depth) == Refuse(DuplicateKey, pos + 1 + |Followed(ms)| + |m.before| + |StringText(m.key)|)
  {
    hide HasAt, SkipMembers, KeyText, Followed, AllSpace, UnitsOk, UnitsValue, ValidUtf8, StringText, Syntax, KeyAt, Str, SkipKey, Skip, MembersCarried;
    HasAtThree(buf, pos, [123], Followed(ms), m.before + KeyText(m));
    HasAtFirst(buf, pos, [123]);
    SkipOver(ms, buf, pos + 1, depth + 1, {});
    var p := pos + 1 + |Followed(ms)|;
    KeyStandsAt(m, buf, p);
    NoBraceNext(ms, m, buf, pos + 1);
    var x :| x in ms && UnitsOk(x.key) && UnitsValue(x.key) == UnitsValue(m.key);
    assert KeyOf(x) in KeysOf(ms);
    KeySkipped(m, buf, p, {} + KeysOf(ms));
    SkipMembersRefuse(buf, p, depth + 1, {} + KeysOf(ms));
    ObjectRefuses(buf, pos, depth);
  }
}
