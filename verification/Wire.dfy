/**
 The wire format with no loop in it: how a record and a list are laid out, what is
 a blank and a number, which members make a record, and how deep a value may nest.
 */
module Wire {
  import opened Basics
  import opened Bytes
  import opened Utf8
  import opened Scan
  import opened Grammar
  import opened Skipper
  import opened Schema
  import opened Encoding
  import Tokens
  import Timestamp

  // ---- Layout ----

  /** A line feed and two spaces for each level. */
  function NewLine(depth: nat): bytes {
    [10] + seq<byte>(2 * depth, i => 32)
  }

  /** Parts with commas between them. */
  function Joined(parts: seq<bytes>): bytes {
    if |parts| == 0 then []
    else if |parts| == 1 then parts[0]
    else parts[0] + [44] + Joined(parts[1..])
  }

  lemma {:induction false} PadSpaces(depth: nat)
    ensures Pad(depth) == seq<byte>(2 * depth, i => 32)
  {
    if depth > 0 {
      PadSpaces(depth - 1);
      assert [SPACE, SPACE] + seq<byte>(2 * (depth - 1), i => 32) == seq<byte>(2 * depth, i => 32);
    }
  }

  lemma LineIs(depth: nat)
    ensures Line(depth) == NewLine(depth)
  {
    PadSpaces(depth);
  }

  /** Each part with a comma before it. */
  function Trailed(parts: seq<bytes>): bytes {
    if |parts| == 0 then [] else [44] + parts[0] + Trailed(parts[1..])
  }

  lemma {:induction false} JoinedTrails(parts: seq<bytes>)
    requires |parts| > 0
    ensures Joined(parts) == parts[0] + Trailed(parts[1..])
  {
    if |parts| == 1 {
      assert parts[0] + [] == parts[0];
    } else {
      JoinedTrails(parts[1..]);
    }
  }

  lemma LineOfPad(depth: nat)
    ensures NewLine(depth) == [10] + Pad(depth)
  {
    LineIs(depth);
  }

  /** Elements, each on a line of its own. */
  function Lines(texts: seq<bytes>, depth: nat): (r: seq<bytes>)
    ensures |r| == |texts| && forall i :: 0 <= i < |r| ==> r[i] == NewLine(depth + 1) + texts[i]
  {
    seq(|texts|, i requires 0 <= i < |texts| => NewLine(depth + 1) + texts[i])
  }

  /** texts are what the encoder writes for the elements, one level down. */
  ghost predicate ItemTexts(k: Kind, items: seq<Value>, depth: nat, texts: seq<bytes>)
    requires k.KList? && forall x :: x in items ==> Shaped(k.elem, x)
  {
    |texts| == |items| && forall i :: 0 <= i < |items| ==> Encode(k.elem, items[i], depth + 1) == Written(texts[i])
  }

  lemma OneItem(k: Kind, items: seq<Value>, depth: nat)
    requires k.KList? && |items| > 0 && forall x :: x in items ==> Shaped(k.elem, x)
    ensures Encode(k.elem, items[0], depth + 1).Written? && EncodeItems(k, items[1..], depth).Written? ==>
              EncodeItems(k, items, depth) ==
              Written(Pad(depth + 1) + (Encode(k.elem, items[0], depth + 1).text + ((if |items| > 1 then [44] else []) + ([10] + EncodeItems(k, items[1..], depth).text))))
    ensures EncodeItems(k, [], depth) == Written([])
  {
    hide Encode, Shaped, Pad;
  }

  lemma {:induction false} ItemsJoined(k: Kind, items: seq<Value>, depth: nat, texts: seq<bytes>)
    requires k.KList? && |items| > 0 && (forall x :: x in items ==> Shaped(k.elem, x)) && ItemTexts(k, items, depth, texts)
    ensures EncodeItems(k, items, depth).Written? && [10] + EncodeItems(k, items, depth).text == Joined(Lines(texts, depth)) + [10]
    decreases |items|
  {
    hide Encode, EncodeItems, Shaped, Pad, NewLine;
    var rest, more := items[1..], texts[1..];
    LineOfPad(depth + 1);
    OneItem(k, items, depth);
    var line := NewLine(depth + 1) + texts[0];
    assert line == [10] + (Pad(depth + 1) + texts[0]);
    assert Lines(texts, depth) == [line] + Lines(more, depth);
    if |rest| > 0 {
      ItemsJoined(k, rest, depth, more);
      assert [10] + EncodeItems(k, items, depth).text == line + [44] + ([10] + EncodeItems(k, rest, depth).text);
    } else {
      assert rest == [] && [10] + EncodeItems(k, items, depth).text == line + [10];
    }
  }

  /** A list is brackets around its elements, one to a line; an empty one is the two brackets. */
  lemma ListLayout(k: Kind, v: Value, depth: nat, texts: seq<bytes>)
    requires k.KList? && Shaped(k, v) && ItemTexts(k, v.items, depth, texts)
    ensures Encode(k, v, depth) ==
            Written(if v.items == [] then [91, 93] else [91] + Joined(Lines(texts, depth)) + NewLine(depth) + [93])
  {
    hide NewLine, Pad, Joined, EncodeItems;
    if |v.items| > 0 {
      ItemsJoined(k, v.items, depth, texts);
      LineOfPad(depth);
      var text := EncodeItems(k, v.items, depth).text;
      assert [91, 10] + (text + (Pad(depth) + [93])) == [91] + ([10] + text) + Pad(depth) + [93];
      assert [91] + (Joined(Lines(texts, depth)) + [10]) + Pad(depth) + [93] == [91] + Joined(Lines(texts, depth)) + ([10] + Pad(depth)) + [93];
    }
  }

  // ---- Records ----

  /** A field is left out when it is absent, or when its rule says so and it holds its type's zero. */
  predicate LeftOut(omit: Omit, x: Value) {
    match omit
    case Never => false
    case WhenAbsent => x == VNone
    case AtZero => x == VStr([]) || x == VBool(false) || x == VInt(0) || x == VList([])
  }

  /** The written fields from i on: a new line, the name, a colon, a space, the value. */
  function FieldParts(k: Kind, vs: seq<Value>, i: nat, depth: nat, texts: seq<bytes>): seq<bytes>
    requires k.KRecord? && |vs| == |k.fields| == |texts| && i <= |vs|
    decreases |vs| - i
  {
    if i == |vs| then []
    else if LeftOut(k.fields[i].omit, vs[i]) then FieldParts(k, vs, i + 1, depth, texts)
    else [NewLine(depth + 1) + Esc(Ascii(k.fields[i].name)) + [58, 32] + texts[i]] + FieldParts(k, vs, i + 1, depth, texts)
  }

  /** texts are what the encoder writes for the fields it does not leave out. */
  ghost predicate FieldTexts(k: Kind, vs: seq<Value>, depth: nat, texts: seq<bytes>)
    requires k.KRecord? && |vs| == |k.fields|
    requires forall i :: 0 <= i < |vs| ==> FieldShaped(k, i, vs[i])
  {
    |texts| == |vs| && forall i :: 0 <= i < |vs| && !LeftOut(k.fields[i].omit, vs[i]) ==>
      Shaped(k.fields[i].kind, vs[i]) && Encode(k.fields[i].kind, vs[i], depth + 1) == Written(texts[i])
  }

  lemma OneField(k: Kind, vs: seq<Value>, i: nat, depth: nat)
    requires k.KRecord? && |vs| == |k.fields| && i < |vs| && forall j :: 0 <= j < |vs| ==> FieldShaped(k, j, vs[j])
    ensures LeftOut(k.fields[i].omit, vs[i]) ==> EncodeFields(k, vs, i, depth) == EncodeFields(k, vs, i + 1, depth)
    ensures !LeftOut(k.fields[i].omit, vs[i]) ==> Shaped(k.fields[i].kind, vs[i])
    ensures !LeftOut(k.fields[i].omit, vs[i]) && Encode(k.fields[i].kind, vs[i], depth + 1).Written? && EncodeFields(k, vs, i + 1, depth).Written? ==>
              EncodeFields(k, vs, i, depth) ==
              Written((if i > 0 then [44] else []) + (FieldLead(k, i, depth) + (Encode(k.fields[i].kind, vs[i], depth + 1).text + EncodeFields(k, vs, i + 1, depth).text)))
  {
    hide Encode, FieldLead;
    assert FieldShaped(k, i, vs[i]);
  }

  lemma PartText(line: bytes, name: bytes, text: bytes, rest: bytes)
    ensures [44] + ((line + (name + [58, 32])) + (text + rest)) == [44] + (line + name + [58, 32] + text) + rest
  {
  }

  lemma {:induction false} FieldsTrail(k: Kind, vs: seq<Value>, i: nat, depth: nat, texts: seq<bytes>)
    requires k.KRecord? && |vs| == |k.fields| && 0 < i <= |vs|
    requires (forall j :: 0 <= j < |vs| ==> FieldShaped(k, j, vs[j])) && FieldTexts(k, vs, depth, texts)
    ensures EncodeFields(k, vs, i, depth) == Written(Trailed(FieldParts(k, vs, i, depth, texts)))
    decreases |vs| - i
  {
    hide Encode, Shaped, LeftOut, NewLine, FieldShaped, Esc;
    if i < |vs| {
      hide EncodeFields;
      FieldsTrail(k, vs, i + 1, depth, texts);
      OneField(k, vs, i, depth);
      LineIs(depth + 1);
      if !LeftOut(k.fields[i].omit, vs[i]) {
        var rest := FieldParts(k, vs, i + 1, depth, texts);
        assert FieldParts(k, vs, i, depth, texts)[1..] == rest;
        PartText(NewLine(depth + 1), Esc(Ascii(k.fields[i].name)), texts[i], Trailed(rest));
      }
    }
  }

  /** A record is braces around its written fields in order, one to a line, with commas between them. */
  lemma RecordLayout(k: Kind, v: Value, depth: nat, texts: seq<bytes>)
    requires k.KRecord? && Shaped(k, v) && WellFormed(k) && v.VRecord? && |v.fields| == |k.fields|
    requires (forall i :: 0 <= i < |v.fields| ==> FieldShaped(k, i, v.fields[i])) && FieldTexts(k, v.fields, depth, texts)
    requires forall i :: 0 <= i < |v.fields| && k.fields[i].kind.KEnum? ==> Known(k.fields[i].kind.words, v.fields[i])
    ensures Encode(k, v, depth) == Written([123] + Joined(FieldParts(k, v.fields, 0, depth, texts)) + NewLine(depth) + [125])
  {
    hide Shaped, LeftOut, NewLine, FieldShaped, Esc, EncodeFields, Joined, Trailed;
    var vs := v.fields;
    FirstWritten(k);
    FieldsTrail(k, vs, 1, depth, texts);
    OneField(k, vs, 0, depth);
    LineIs(depth);
    LineIs(depth + 1);
    var parts := FieldParts(k, vs, 0, depth, texts);
    assert parts[1..] == FieldParts(k, vs, 1, depth, texts);
    JoinedTrails(parts);
    var rest := Trailed(parts[1..]);
    assert [] + (FieldLead(k, 0, depth) + (texts[0] + rest)) == parts[0] + rest;
    assert [123] + (Joined(parts) + (NewLine(depth) + [125])) == [123] + Joined(parts) + NewLine(depth) + [125];
  }

  lemma FirstWritten(k: Kind)
    requires k.KRecord? && WellFormed(k)
    ensures |k.fields| > 0 && forall x :: !LeftOut(k.fields[0].omit, x)
  {
  }

  // ---- Scalars ----

  lemma BooleanLayout(b: bool, depth: nat)
    ensures Encode(KBool, VBool(b), depth).Written? && Spells(Encode(KBool, VBool(b), depth).text, if b then "true" else "false")
  {
  }

  /** A member of a closed enum is its own word. */
  lemma EnumLayout(words: seq<ascii>, i: nat, depth: nat)
    requires i < |words|
    ensures Encode(KEnum(words), VEnum(i + 1), depth) == Written(Esc(Ascii(words[i])))
  {
    hide Esc;
  }

  // ---- Blanks and numbers ----

  predicate Blank(c: byte) {
    c == 32 || c == 9 || c == 10 || c == 13
  }

  /** Blanks are passed up to the first byte that is none. */
  lemma BlanksExact(buf: bytes, pos: nat, end: nat)
    requires pos <= |buf|
    ensures SkipWs(buf, pos) == end <==>
            && pos <= end <= |buf| && (forall i :: pos <= i < end ==> Blank(buf[i])) && (end < |buf| ==> !Blank(buf[end]))
  {
    var p := SkipWs(buf, pos);
    forall i | pos <= i < p ensures Blank(buf[i]) {
      assert buf[i] == buf[pos..p][i - pos] && buf[i] in buf[pos..p];
    }
  }

  predicate Numeral(c: byte) {
    48 <= c <= 57
  }

  predicate Run(s: bytes) {
    |s| > 0 && forall c :: c in s ==> Numeral(c)
  }

  /** An exponent: e or E, a sign or none, and numerals. */
  predicate Scales(s: bytes) {
    |s| > 1 && (s[0] == 101 || s[0] == 69) && Run(if s[1] == 43 || s[1] == 45 then s[2..] else s[1..])
  }

  /** A number in four parts: a minus or nothing, a whole without leading zeros, a point and numerals or nothing, an exponent or nothing. */
  predicate Figures(sign: bytes, whole: bytes, fraction: bytes, exponent: bytes) {
    && (sign == [] || sign == [45])
    && Run(whole) && (whole[0] == 48 ==> |whole| == 1)
    && (fraction == [] || (fraction[0] == 46 && Run(fraction[1..])))
    && (exponent == [] || Scales(exponent))
  }

  /** The byte c would carry the number on. */
  predicate Continues(whole: bytes, fraction: bytes, exponent: bytes, c: byte) {
    if exponent != [] then Numeral(c)
    else if fraction != [] then Numeral(c) || c == 101 || c == 69
    else c == 46 || c == 101 || c == 69 || (whole != [48] && Numeral(c))
  }

  /** A number stands from pos to end and is not carried on. */
  predicate FiguresAt(buf: bytes, pos: nat, end: nat, sign: bytes, whole: bytes, fraction: bytes, exponent: bytes) {
    && Figures(sign, whole, fraction, exponent)
    && pos <= end <= |buf| && buf[pos..end] == sign + (whole + (fraction + exponent))
    && (end < |buf| ==> !Continues(whole, fraction, exponent, buf[end]))
  }

  lemma PartsFigure(n: Number, c: byte)
    requires n.Ok()
    ensures Figures(n.SignText(), n.whole, n.FracText(), n.ExpText())
    ensures Continues(n.whole, n.FracText(), n.ExpText(), c) <==> !n.EndsBefore(c)
  {
    if n.exp.Some? {
      var e := n.exp.value;
      var s := e.Text();
      assert s[0] == e.mark && s[1..] == e.sign + e.digits;
      if e.sign == [] {
        assert s[1] in e.digits && s[1..] == e.digits;
      } else {
        assert s[2..] == e.digits;
      }
    }
  }

  /** The number of four parts. */
  function NumberOf(sign: bytes, whole: bytes, fraction: bytes, exponent: bytes): Number {
    Number(sign != [], whole, if fraction == [] then None else Some(fraction[1..]),
           if |exponent| < 2 then None
           else Some(if exponent[1] == 43 || exponent[1] == 45 then Exponent(exponent[0], [exponent[1]], exponent[2..])
                     else Exponent(exponent[0], [], exponent[1..])))
  }

  lemma FiguresNumber(sign: bytes, whole: bytes, fraction: bytes, exponent: bytes)
    requires Figures(sign, whole, fraction, exponent)
    ensures var n := NumberOf(sign, whole, fraction, exponent);
            n.Ok() && n.SignText() == sign && n.whole == whole && n.FracText() == fraction && n.ExpText() == exponent
  {
    if exponent != [] {
      var e := NumberOf(sign, whole, fraction, exponent).exp.value;
      assert e.Text() == exponent;
    }
  }

  /** A number is skipped exactly when its four parts stand there and nothing carries it on. */
  lemma NumberExact(buf: bytes, pos: nat, end: nat)
    requires pos <= |buf|
    ensures SkipNumber(buf, pos) == Parsed.Ok((), end) <==>
            exists sign, whole, fraction, exponent :: FiguresAt(buf, pos, end, sign, whole, fraction, exponent)
  {
    hide SkipNumber, Figures, Continues, Number.Ok, Number.SignText, Number.FracText, Number.ExpText, Number.EndsBefore;
    if SkipNumber(buf, pos) == Parsed.Ok((), end) {
      var n := Tokens.NumberSound(buf, pos);
      PartsFigure(n, At(buf, end));
      assert FiguresAt(buf, pos, end, n.SignText(), n.whole, n.FracText(), n.ExpText());
    }
    if sign, whole, fraction, exponent :| FiguresAt(buf, pos, end, sign, whole, fraction, exponent) {
      FiguresNumber(sign, whole, fraction, exponent);
      var n := NumberOf(sign, whole, fraction, exponent);
      PartsFigure(n, At(buf, end));
      NothingContinues(whole, fraction, exponent);
      Tokens.NumberRead(buf, pos, n);
    }
  }

  /** No number is carried on past the end. */
  lemma NothingContinues(whole: bytes, fraction: bytes, exponent: bytes)
    ensures !Continues(whole, fraction, exponent, 0)
  {
  }

  // ---- Which members make a record ----

  lemma {:induction false} EachSyntax(ms: seq<Member>)
    requires MembersSyntax(ms)
    ensures forall m :: m in ms ==> UnitsOk(m.key) && Syntax(m.value)
  {
    hide Syntax, UnitsOk;
    if |ms| > 0 {
      EachSyntax(ms[1..]);
    }
  }

  /** The member is the record's field i. */
  predicate IsField(k: Kind, m: Member, i: nat)
    requires k.KRecord? && UnitsOk(m.key)
  {
    i < |k.fields| && Ascii(k.fields[i].name) == UnitsValue(m.key)
  }

  /** Fields of different names have different bytes. */
  lemma FieldsApart(k: Kind, m: Member, i: nat)
    requires k.KRecord? && WellFormed(k) && UnitsOk(m.key)
    ensures IsField(k, m, i) <==> IndexOf(k.fields, KeyOf(m)) == i
  {
    hide UnitsValue, WellFormed;
    var j := IndexOf(k.fields, KeyOf(m));
    if IsField(k, m, i) && j >= 0 {
      AsciiInjective(k.fields[i].name, k.fields[j].name);
      NamesApart(k);
    }
  }

  lemma NamesApart(k: Kind)
    requires k.KRecord? && WellFormed(k)
    ensures forall i, j :: 0 <= i < j < |k.fields| ==> k.fields[i].name != k.fields[j].name
  {
  }

  /** A member the record can take: its key is UTF-8, and its value means something for its field, or is carried by an open record. */
  predicate Fits(k: Kind, m: Member, depth: nat)
    requires k.KRecord? && UnitsOk(m.key) && Syntax(m.value)
  {
    && ValidUtf8(KeyOf(m))
    && var i := IndexOf(k.fields, KeyOf(m));
       if i >= 0 then Interp(k.fields[i].kind, m.value, depth).Some? else k.open && Carried(m.value, depth)
  }

  /** A member as it is read: the place of its field, or -1, and the value for it. */
  function ReadAs(k: Kind, m: Member, depth: nat): (int, Value)
    requires k.KRecord? && UnitsOk(m.key) && Syntax(m.value)
  {
    var i := IndexOf(k.fields, KeyOf(m));
    (i, if i >= 0 && Interp(k.fields[i].kind, m.value, depth).Some? then Interp(k.fields[i].kind, m.value, depth).value else VNone)
  }

  function AllReadAs(k: Kind, ms: seq<Member>, depth: nat): (ps: seq<(int, Value)>)
    requires k.KRecord? && forall m :: m in ms ==> UnitsOk(m.key) && Syntax(m.value)
    ensures |ps| == |ms| && forall j :: 0 <= j < |ms| ==> ps[j] == ReadAs(k, ms[j], depth)
  {
    seq(|ms|, j requires 0 <= j < |ms| => ReadAs(k, ms[j], depth))
  }

  /** No field is read twice, nor is one of those already seen. */
  predicate Once(ps: seq<(int, Value)>, seen: set<nat>) {
    && (forall j :: 0 <= j < |ps| && ps[j].0 >= 0 ==> ps[j].0 !in seen)
    && (forall a, b :: 0 <= a < b < |ps| && ps[a].0 >= 0 ==> ps[a].0 != ps[b].0)
  }

  /** Field i was read. */
  predicate Names(ps: seq<(int, Value)>, i: int) {
    exists j :: 0 <= j < |ps| && ps[j].0 == i
  }

  lemma NamesStep(p: (int, Value), rest: seq<(int, Value)>, i: int)
    ensures Names([p] + rest, i) <==> p.0 == i || Names(rest, i)
  {
    var ps := [p] + rest;
    if j :| 0 <= j < |rest| && rest[j].0 == i {
      assert ps[j + 1].0 == i;
    }
    if j :| 0 <= j < |ps| && ps[j].0 == i {
      assert j > 0 ==> ps[j] == rest[j - 1];
    }
    if p.0 == i {
      assert ps[0].0 == i;
    }
  }

  /** The fields hold what was read for them, and the others what they held. */
  predicate Filled(ps: seq<(int, Value)>, before: seq<Value>, after: seq<Value>) {
    && |after| == |before|
    && (forall j :: 0 <= j < |ps| && 0 <= ps[j].0 < |after| ==> after[ps[j].0] == ps[j].1)
    && (forall i :: 0 <= i < |after| && !Names(ps, i) ==> after[i] == before[i])
  }

  /** The fields seen are those read and those seen before. */
  ghost predicate Gathered(ps: seq<(int, Value)>, before: set<nat>, after: set<nat>) {
    forall i: nat :: i in after <==> i in before || Names(ps, i)
  }

  lemma OnceStep(p: (int, Value), rest: seq<(int, Value)>, seen: set<nat>)
    ensures Once([p] + rest, seen) <==> (p.0 >= 0 ==> p.0 !in seen) && Once(rest, if p.0 >= 0 then seen + {p.0} else seen)
  {
    var ps, more := [p] + rest, if p.0 >= 0 then seen + {p.0} else seen;
    if Once(ps, seen) {
      assert ps[0] == p;
      forall j | 0 <= j < |rest| && rest[j].0 >= 0 ensures rest[j].0 !in more {
        assert ps[j + 1] == rest[j];
      }
      forall a, b | 0 <= a < b < |rest| && rest[a].0 >= 0 ensures rest[a].0 != rest[b].0 {
        assert ps[a + 1] == rest[a] && ps[b + 1] == rest[b];
      }
    }
    if Once(rest, more) && (p.0 >= 0 ==> p.0 !in seen) {
      forall j | 0 <= j < |ps| && ps[j].0 >= 0 ensures ps[j].0 !in seen {
        assert j > 0 ==> ps[j] == rest[j - 1];
      }
      forall a, b | 0 <= a < b < |ps| && ps[a].0 >= 0 ensures ps[a].0 != ps[b].0 {
        assert ps[b] == rest[b - 1] && (a > 0 ==> ps[a] == rest[a - 1]);
      }
    }
  }

  lemma FilledStep(p: (int, Value), rest: seq<(int, Value)>, seen: set<nat>, before: seq<Value>, after: seq<Value>)
    requires Once([p] + rest, seen) && p.0 < |before|
    requires Filled(rest, if p.0 >= 0 then before[p.0 := p.1] else before, after)
    ensures Filled([p] + rest, before, after)
  {
    hide Once, Names;
    var ps := [p] + rest;
    if p.0 >= 0 {
      NamedFirstOnly(p, rest, seen);
    }
    forall j | 0 <= j < |ps| && 0 <= ps[j].0 < |after| ensures after[ps[j].0] == ps[j].1 {
      if j > 0 {
        assert ps[j] == rest[j - 1];
      }
    }
    forall i | 0 <= i < |after| && !Names(ps, i) ensures after[i] == before[i] {
      NamesStep(p, rest, i);
    }
  }

  lemma NamedFirstOnly(p: (int, Value), rest: seq<(int, Value)>, seen: set<nat>)
    requires Once([p] + rest, seen) && p.0 >= 0
    ensures !Names(rest, p.0)
  {
    var ps := [p] + rest;
    assert ps[0] == p;
    forall j | 0 <= j < |rest| ensures rest[j].0 != p.0 {
      assert ps[j + 1] == rest[j];
    }
  }

  lemma GatheredStep(p: (int, Value), rest: seq<(int, Value)>, before: set<nat>, after: set<nat>)
    requires Gathered(rest, if p.0 >= 0 then before + {p.0} else before, after)
    ensures Gathered([p] + rest, before, after)
  {
    hide Names;
    forall i: nat ensures Names([p] + rest, i) <==> p.0 == i || Names(rest, i) {
      NamesStep(p, rest, i);
    }
  }

  lemma OneMember(k: Kind, ms: seq<Member>, depth: nat, part: Partial)
    requires k.KRecord? && MembersSyntax(ms) && |ms| > 0 && |part.values| == |k.fields|
    ensures UnitsOk(ms[0].key) && Syntax(ms[0].value) && MembersSyntax(ms[1..])
    ensures var p := ReadAs(k, ms[0], depth);
            p.0 < |k.fields| &&
            if Fits(k, ms[0], depth) && (p.0 >= 0 ==> p.0 !in part.seen) then
              InterpMembers(k, ms, depth, part) ==
              InterpMembers(k, ms[1..], depth, if p.0 >= 0 then Partial(part.seen + {p.0}, part.values[p.0 := p.1]) else part)
            else InterpMembers(k, ms, depth, part).None?
  {
    hide ValidUtf8, Carried, UnitsOk, Syntax, Interp, IndexOf;
  }

  lemma NoMembersRead(k: Kind, depth: nat, part: Partial)
    requires k.KRecord? && |part.values| == |k.fields|
    ensures InterpMembers(k, [], depth, part) == Some(part)
    ensures Once([], part.seen) && Filled([], part.values, part.values) && Gathered([], part.seen, part.seen)
  {
  }

  /** The members are read one after the other exactly when each fits and none repeats a field. */
  lemma {:induction false} MembersExact(k: Kind, ms: seq<Member>, depth: nat, part: Partial)
    requires k.KRecord? && MembersSyntax(ms) && |part.values| == |k.fields|
    ensures forall m :: m in ms ==> UnitsOk(m.key) && Syntax(m.value)
    ensures var last, ps := InterpMembers(k, ms, depth, part), AllReadAs(k, ms, depth);
            && (last.Some? <==> (forall m :: m in ms ==> Fits(k, m, depth)) && Once(ps, part.seen))
            && (last.Some? ==> Gathered(ps, part.seen, last.value.seen) && Filled(ps, part.values, last.value.values))
    decreases |ms|
  {
    hide UnitsOk, Syntax, InterpMembers, ReadAs, Fits, Once, Filled, Gathered;
    EachSyntax(ms);
    if |ms| == 0 {
      NoMembersRead(k, depth, part);
      assert ms == [] && AllReadAs(k, ms, depth) == [];
    } else {
      var rest, p := ms[1..], ReadAs(k, ms[0], depth);
      OneMember(k, ms, depth, part);
      assert forall m :: m in ms <==> m == ms[0] || m in rest;
      assert AllReadAs(k, ms, depth) == [p] + AllReadAs(k, rest, depth);
      OnceStep(p, AllReadAs(k, rest, depth), part.seen);
      if Fits(k, ms[0], depth) && (p.0 >= 0 ==> p.0 !in part.seen) {
        var next := if p.0 >= 0 then Partial(part.seen + {p.0}, part.values[p.0 := p.1]) else part;
        MembersExact(k, rest, depth, next);
        var last := InterpMembers(k, ms, depth, part);
        if last.Some? {
          FilledStep(p, AllReadAs(k, rest, depth), part.seen, part.values, last.value.values);
          GatheredStep(p, AllReadAs(k, rest, depth), part.seen, last.value.seen);
        }
      }
    }
  }

  /** What a field holds that no member names: nothing for a pointer, and otherwise the zero of its type. */
  predicate Unset(f: Field, x: Value) {
    match f.omit
    case WhenAbsent => x == VNone
    case _ =>
      match f.kind
      case KStr => x == VStr([])
      case KBool => x == VBool(false)
      case KInt(_, _) => x == VInt(0)
      case KList(_) => x == VList([])
      case _ => false
  }

  /** Every member has its place: a field of the record, or nothing when the record is open. */
  predicate Placed(k: Kind, m: Member, depth: nat)
    requires k.KRecord? && UnitsOk(m.key) && Syntax(m.value)
  {
    ValidUtf8(UnitsValue(m.key)) && ((exists i: nat :: i < |k.fields| && IsField(k, m, i)) || (k.open && Carried(m.value, depth)))
  }

  /** Field i is read from the one member that names it, or may be left out and is unset. */
  ghost predicate FieldRead(k: Kind, ms: seq<Member>, depth: nat, i: nat, x: Value)
    requires k.KRecord? && i < |k.fields| && forall m :: m in ms ==> UnitsOk(m.key) && Syntax(m.value)
  {
    && (forall j :: 0 <= j < |ms| && IsField(k, ms[j], i) ==> Interp(k.fields[i].kind, ms[j].value, depth) == Some(x))
    && ((forall j :: 0 <= j < |ms| ==> !IsField(k, ms[j], i)) ==> !k.fields[i].omit.Never? && Unset(k.fields[i], x))
  }

  /** No field is named by two members. */
  ghost predicate NamedOnce(k: Kind, ms: seq<Member>)
    requires k.KRecord? && forall m :: m in ms ==> UnitsOk(m.key) && Syntax(m.value)
  {
    forall a, b, i: nat :: 0 <= a < b < |ms| && IsField(k, ms[a], i) ==> !IsField(k, ms[b], i)
  }

  lemma {:induction false} ZerosUnset(fields: seq<Field>, i: nat)
    requires i < |fields|
    ensures Zeros(fields)[i] == if fields[i].omit.WhenAbsent? then VNone else Zero(fields[i].kind)
  {
    if i > 0 {
      ZerosUnset(fields[1..], i - 1);
    }
  }

  /** The start of a record is what its unset fields hold. */
  lemma UnsetExact(k: Kind, i: nat, x: Value)
    requires k.KRecord? && WellFormed(k) && i < |k.fields| && !k.fields[i].omit.Never?
    ensures Unset(k.fields[i], x) <==> x == Zeros(k.fields)[i]
  {
    ZerosUnset(k.fields, i);
    assert FieldWellFormed(k, i);
  }

  lemma PlacesExact(k: Kind, ms: seq<Member>, depth: nat)
    requires k.KRecord? && WellFormed(k) && forall m :: m in ms ==> UnitsOk(m.key) && Syntax(m.value)
    ensures var ps := AllReadAs(k, ms, depth);
            forall j, i: nat :: 0 <= j < |ms| ==> (IsField(k, ms[j], i) <==> ps[j].0 == i)
  {
    hide WellFormed, IsField, UnitsOk, Syntax, Interp;
    forall j, i: nat | 0 <= j < |ms| ensures IsField(k, ms[j], i) <==> AllReadAs(k, ms, depth)[j].0 == i {
      FieldsApart(k, ms[j], i);
    }
  }

  /** A member fits when it has its place, and its value means something for the field it names. */
  lemma FitsExact(k: Kind, m: Member, depth: nat)
    requires k.KRecord? && WellFormed(k) && UnitsOk(m.key) && Syntax(m.value)
    ensures Fits(k, m, depth) <==>
            Placed(k, m, depth) && forall i: nat :: IsField(k, m, i) ==> i < |k.fields| && Interp(k.fields[i].kind, m.value, depth).Some?
    ensures forall i: nat :: IsField(k, m, i) && Fits(k, m, depth) ==>
              i < |k.fields| && Interp(k.fields[i].kind, m.value, depth) == Some(ReadAs(k, m, depth).1)
  {
    hide WellFormed, IsField, Syntax, Interp, ValidUtf8, Carried;
    PlaceBounded(k, m);
    var at := IndexOf(k.fields, KeyOf(m));
    forall i: nat ensures IsField(k, m, i) <==> at == i {
      FieldsApart(k, m, i);
    }
    if at >= 0 {
      assert IsField(k, m, at);
    }
  }

  /** The tree of a record, told member by member and field by field. */
  ghost predicate IsRecord(k: Kind, ms: seq<Member>, depth: nat, xs: seq<Value>)
    requires k.KRecord? && forall m :: m in ms ==> UnitsOk(m.key) && Syntax(m.value)
  {
    && |xs| == |k.fields|
    && (forall m :: m in ms ==> Placed(k, m, depth))
    && NamedOnce(k, ms)
    && forall i :: 0 <= i < |xs| ==> FieldRead(k, ms, depth, i, xs[i])
  }

  lemma RecordMeans(k: Kind, ms: seq<Member>, depth: nat, xs: seq<Value>)
    requires k.KRecord? && WellFormed(k) && MembersSyntax(ms)
    ensures forall m :: m in ms ==> UnitsOk(m.key) && Syntax(m.value)
    ensures var last := InterpMembers(k, ms, depth, Partial({}, Zeros(k.fields)));
            last.Some? && Required(k.fields) <= last.value.seen && last.value.values == xs ==> IsRecord(k, ms, depth, xs)
  {
    hide WellFormed, IsField, UnitsOk, Syntax, Interp, ValidUtf8, Carried, Fits, ReadAs, Placed, InterpMembers, Unset, Zeros;
    MembersExact(k, ms, depth, Partial({}, Zeros(k.fields)));
    PlacesExact(k, ms, depth);
    var last, ps := InterpMembers(k, ms, depth, Partial({}, Zeros(k.fields))), AllReadAs(k, ms, depth);
    if last.Some? && Required(k.fields) <= last.value.seen && last.value.values == xs {
      forall m | m in ms ensures Fits(k, m, depth) && Placed(k, m, depth) {
        FitsExact(k, m, depth);
      }
      forall i | 0 <= i < |xs| ensures FieldRead(k, ms, depth, i, xs[i]) {
        forall j | 0 <= j < |ms| && IsField(k, ms[j], i) ensures Interp(k.fields[i].kind, ms[j].value, depth) == Some(xs[i]) {
          FitsExact(k, ms[j], depth);
        }
        if forall j :: 0 <= j < |ms| ==> !IsField(k, ms[j], i) {
          assert !Names(ps, i);
          assert i !in Required(k.fields);
          UnsetExact(k, i, xs[i]);
        }
      }
    }
  }

  lemma RecordFits(k: Kind, ms: seq<Member>, depth: nat, xs: seq<Value>)
    requires k.KRecord? && WellFormed(k) && forall m :: m in ms ==> UnitsOk(m.key) && Syntax(m.value)
    requires IsRecord(k, ms, depth, xs)
    ensures (forall m :: m in ms ==> Fits(k, m, depth)) && Once(AllReadAs(k, ms, depth), {})
  {
    hide WellFormed, IsField, UnitsOk, Syntax, Interp, ValidUtf8, Carried, Fits, ReadAs, Placed, Unset;
    var ps := AllReadAs(k, ms, depth);
    PlacesExact(k, ms, depth);
    forall j | 0 <= j < |ms| ensures Fits(k, ms[j], depth) {
      FitsExact(k, ms[j], depth);
      PlaceBounded(k, ms[j]);
      forall i: nat | IsField(k, ms[j], i) ensures Interp(k.fields[i].kind, ms[j].value, depth).Some? {
        assert FieldRead(k, ms, depth, i, xs[i]);
      }
    }
    forall a, b | 0 <= a < b < |ps| && ps[a].0 >= 0 ensures ps[a].0 != ps[b].0 {
      assert IsField(k, ms[a], ps[a].0);
      assert !IsField(k, ms[b], ps[a].0);
    }
  }

  lemma RecordMade(k: Kind, ms: seq<Member>, depth: nat, xs: seq<Value>)
    requires k.KRecord? && WellFormed(k) && MembersSyntax(ms)
    ensures forall m :: m in ms ==> UnitsOk(m.key) && Syntax(m.value)
    ensures var last := InterpMembers(k, ms, depth, Partial({}, Zeros(k.fields)));
            IsRecord(k, ms, depth, xs) ==> last.Some? && Required(k.fields) <= last.value.seen && last.value.values == xs
  {
    hide WellFormed, IsField, UnitsOk, Syntax, Interp, ValidUtf8, Carried, Fits, ReadAs, Placed, InterpMembers, Unset, Zeros, Once, NamedOnce;
    MembersExact(k, ms, depth, Partial({}, Zeros(k.fields)));
    PlacesExact(k, ms, depth);
    var last, ps := InterpMembers(k, ms, depth, Partial({}, Zeros(k.fields))), AllReadAs(k, ms, depth);
    if IsRecord(k, ms, depth, xs) {
      RecordFits(k, ms, depth, xs);
      forall i | i in Required(k.fields) ensures i in last.value.seen {
        assert FieldRead(k, ms, depth, i, xs[i]);
        var j :| 0 <= j < |ms| && IsField(k, ms[j], i);
        assert Names(ps, i);
      }
      forall i | 0 <= i < |xs| ensures last.value.values[i] == xs[i] {
        assert FieldRead(k, ms, depth, i, xs[i]);
        if j :| 0 <= j < |ms| && IsField(k, ms[j], i) {
          FitsExact(k, ms[j], depth);
        } else {
          assert !Names(ps, i);
          UnsetExact(k, i, xs[i]);
        }
      }
    }
  }

  lemma PlaceBounded(k: Kind, m: Member)
    requires k.KRecord? && UnitsOk(m.key)
    ensures forall i: nat :: IsField(k, m, i) ==> i < |k.fields|
  {
  }

  /**
   A record is read with its fields exactly when it opens within 64 levels, every
   member has its place and no field two, and each field comes from its member or
   may be left out.
   */
  lemma RecordExact(k: Kind, t: Json, depth: nat, v: Value)
    requires k.KRecord? && WellFormed(k) && Syntax(t) && t.Obj?
    ensures forall m :: m in t.members ==> UnitsOk(m.key) && Syntax(m.value)
    ensures Interp(k, t, depth) == Some(v) <==> depth < 64 && v.VRecord? && IsRecord(k, t.members, depth + 1, v.fields)
  {
    hide WellFormed, UnitsOk, InterpMembers, IsRecord, Zeros, Required;
    EachSyntax(t.members);
    if v.VRecord? {
      RecordMeans(k, t.members, depth + 1, v.fields);
      RecordMade(k, t.members, depth + 1, v.fields);
    }
  }

  // ---- Lists and depth ----

  /** What the elements mean, one by one. */
  function Meant(elem: Kind, items: seq<Item>, depth: nat): Option<seq<Value>>
    requires ItemsSyntax(items)
  {
    if |items| == 0 then Some([])
    else
      var first, rest := Interp(elem, items[0].value, depth), Meant(elem, items[1..], depth);
      if first.Some? && rest.Some? then Some([first.value] + rest.value) else None
  }

  lemma {:induction false} ItemsMeant(elem: Kind, items: seq<Item>, depth: nat, out: seq<Value>)
    requires ItemsSyntax(items)
    ensures var m := Meant(elem, items, depth);
            InterpItems(elem, items, depth, out) == if m.Some? then Some(out + m.value) else None
    decreases |items|
  {
    hide Syntax, Interp;
    if |items| == 0 {
      assert out + [] == out;
    } else {
      var first, rest := Interp(elem, items[0].value, depth), Meant(elem, items[1..], depth);
      if first.Some? {
        ItemsMeant(elem, items[1..], depth, out + [first.value]);
        if rest.Some? {
          assert (out + [first.value]) + rest.value == out + ([first.value] + rest.value);
        }
      }
    }
  }

  /** The values of a list's elements are those each element means. */
  lemma {:induction false} MeantExact(elem: Kind, items: seq<Item>, depth: nat, vs: seq<Value>)
    requires ItemsSyntax(items)
    ensures forall i :: 0 <= i < |items| ==> Syntax(items[i].value)
    ensures Meant(elem, items, depth) == Some(vs) <==>
            |vs| == |items| && forall i :: 0 <= i < |items| ==> Interp(elem, items[i].value, depth) == Some(vs[i])
    decreases |items|
  {
    hide Syntax, Interp;
    if |items| > 0 {
      var rest := items[1..];
      if |vs| > 0 {
        MeantExact(elem, rest, depth, vs[1..]);
        assert vs == [vs[0]] + vs[1..];
      } else {
        MeantExact(elem, rest, depth, []);
      }
      forall i | 0 < i < |items| ensures items[i] == rest[i - 1] && (|vs| == |items| ==> vs[1..][i - 1] == vs[i]) {
      }
    }
  }

  /** A list is read with its elements exactly when it opens within 64 levels and each element means its own value. */
  lemma ListExact(k: Kind, t: Json, depth: nat, v: Value)
    requires k.KList? && Syntax(t) && t.Arr?
    ensures forall i :: 0 <= i < |t.items| ==> Syntax(t.items[i].value)
    ensures Interp(k, t, depth) == Some(v) <==>
            && depth < 64 && v.VList? && |v.items| == |t.items|
            && forall i :: 0 <= i < |t.items| ==> Interp(k.elem, t.items[i].value, depth + 1) == Some(v.items[i])
  {
    hide InterpItems, Meant;
    ItemsMeant(k.elem, t.items, depth + 1, []);
    MeantExact(k.elem, t.items, depth + 1, if v.VList? then v.items else []);
    if Meant(k.elem, t.items, depth + 1).Some? {
      assert [] + Meant(k.elem, t.items, depth + 1).value == Meant(k.elem, t.items, depth + 1).value;
    }
  }

  /** n arrays, each the only element of the one around it. */
  function Nested(n: nat): Json
    requires n > 0
  {
    Arr([], if n == 1 then [] else [Item([], Nested(n - 1), [])])
  }

  /** One more pair of brackets. */
  lemma WrappedText(t: Json)
    requires Syntax(t)
    ensures var w := Arr([], [Item([], t, [])]); Syntax(w) && Print(w) == [91] + Print(t) + [93]
  {
    var item := Item([], t, []);
    assert ItemText(item) == Print(t);
    assert ItemsText([item]) == ItemText(item) + [];
    assert [item][1..] == [];
  }

  lemma WrappedCarried(t: Json, depth: nat)
    requires Syntax(t) && Syntax(Arr([], [Item([], t, [])]))
    ensures Carried(Arr([], [Item([], t, [])]), depth) <==> depth < 64 && Carried(t, depth + 1)
  {
    var items := [Item([], t, [])];
    assert items[1..] == [] && ItemsCarried([], depth + 1);
    assert ItemsCarried(items, depth + 1) <==> Carried(t, depth + 1) && ItemsCarried(items[1..], depth + 1);
  }

  lemma {:induction false} NestedText(n: nat)
    requires n > 0
    ensures Syntax(Nested(n)) && Print(Nested(n)) == seq<byte>(n, i => 91) + seq<byte>(n, i => 93)
  {
    if n == 1 {
      assert Print(Nested(1)) == [91] + ([] + ([] + [93])) == [91, 93];
      assert seq<byte>(1, i => 91) == [91] && seq<byte>(1, i => 93) == [93];
    } else {
      hide Print, Syntax;
      NestedText(n - 1);
      WrappedText(Nested(n - 1));
      assert [91] + seq<byte>(n - 1, i => 91) == seq<byte>(n, i => 91);
      assert seq<byte>(n - 1, i => 93) + [93] == seq<byte>(n, i => 93);
    }
  }

  lemma {:induction false} NestedCarried(n: nat, depth: nat)
    requires n > 0 && Syntax(Nested(n))
    ensures Carried(Nested(n), depth) <==> depth + n <= 64
  {
    if n > 1 {
      NestedText(n - 1);
      NestedCarried(n - 1, depth + 1);
      WrappedCarried(Nested(n - 1), depth);
    }
  }

  /** Nested arrays are skipped exactly down to the sixty-fourth level. */
  lemma SkippedToDepth(n: nat, depth: nat)
    requires n > 0
    ensures var text := seq<byte>(n, i => 91) + seq<byte>(n, i => 93);
            if depth + n <= 64 then Skip(text, 0, depth) == Parsed.Ok((), 2 * n) else Skip(text, 0, depth).Refuse?
  {
    hide Skip, Carried, Syntax, Print;
    var text := seq<byte>(n, i => 91) + seq<byte>(n, i => 93);
    NestedText(n);
    NestedCarried(n, depth);
    HasAtSlice(text, 0, |text|);
    assert text[0..|text|] == text;
    SkipRead(Nested(n), text, 0, depth);
  }
}
