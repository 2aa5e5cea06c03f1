/**
 The pretty-printer: what it writes for a value of a shape, the tree that text
 is, and what every decoder reads back from it.
 */
module Encoding {
  import opened Bytes
  import opened Utf8
  import opened Scan
  import opened Grammar
  import opened Tokens
  import opened Numerals
  import opened Schema
  import Timestamp

  // ---- Strings ----

  function HexDigit(v: nat): (c: byte)
    requires v < 16
    ensures HexValue(c) == v
  {
    if v < 10 then ZERO + v else 'a' as int + (v - 10)
  }

  function EscByte(c: byte): bytes {
    if c == QUOTE then [BACKSLASH, QUOTE]
    else if c == BACKSLASH then [BACKSLASH, BACKSLASH]
    else if c == BACKSPACE then [BACKSLASH, LOWER_B]
    else if c == FORMFEED then [BACKSLASH, LOWER_F]
    else if c == LF then [BACKSLASH, LOWER_N]
    else if c == CR then [BACKSLASH, LOWER_R]
    else if c == TAB then [BACKSLASH, LOWER_T]
    else if c < 0x20 then [BACKSLASH, LOWER_U, ZERO, ZERO, HexDigit(c / 16), HexDigit(c % 16)]
    else [c]
  }

  function EscBytes(s: bytes): bytes {
    if |s| == 0 then [] else EscByte(s[0]) + EscBytes(s[1..])
  }

  function Esc(s: bytes): bytes {
    [QUOTE] + EscBytes(s) + [QUOTE]
  }

  function EscUnit(c: byte): (u: Unit) {
    if c == QUOTE || c == BACKSLASH then Short(c)
    else if c == BACKSPACE then Short(LOWER_B)
    else if c == FORMFEED then Short(LOWER_F)
    else if c == LF then Short(LOWER_N)
    else if c == CR then Short(LOWER_R)
    else if c == TAB then Short(LOWER_T)
    else if c < 0x20 then Hex([ZERO, ZERO, HexDigit(c / 16), HexDigit(c % 16)])
    else Plain(c)
  }

  function EscUnits(s: bytes): seq<Unit> {
    if |s| == 0 then [] else [EscUnit(s[0])] + EscUnits(s[1..])
  }

  lemma EscUnitIsByte(c: byte)
    ensures EscUnit(c).Ok() && EscUnit(c).Text() == EscByte(c) && EscUnit(c).Value() == [c]
  {
  }

  lemma {:induction false} EscUnitsAreBytes(s: bytes)
    ensures UnitsOk(EscUnits(s)) && UnitsText(EscUnits(s)) == EscBytes(s) && UnitsValue(EscUnits(s)) == s
  {
    hide EscUnit, EscByte;
    if |s| > 0 {
      EscUnitIsByte(s[0]);
      EscUnitsAreBytes(s[1..]);
      assert EscUnits(s)[1..] == EscUnits(s[1..]);
    }
  }

  /** str undoes esc for every string that is UTF-8, and refuses what esc writes for any other. */
  lemma EscapedStringRead(buf: bytes, pos: nat, s: bytes)
    requires HasAt(buf, pos, Esc(s))
    ensures pos <= |buf|
    ensures Str(buf, pos) == if ValidUtf8(s) then Parsed.Ok(s, pos + |Esc(s)|) else Refuse(BadString, pos + |Esc(s)|)
  {
    EscUnitsAreBytes(s);
    StringRead(buf, pos, EscUnits(s));
  }

  // ---- Blanks ----

  function Pad(depth: nat): (s: bytes)
    ensures AllSpace(s)
  {
    if depth == 0 then [] else [SPACE, SPACE] + Pad(depth - 1)
  }

  /** A new line at a depth. */
  function Line(depth: nat): (s: bytes)
    ensures AllSpace(s)
  {
    [LF] + Pad(depth)
  }

  // ---- Values an encoder is given ----

  /** A value of the kind's own Go type. */
  predicate Shaped(k: Kind, v: Value)
    decreases k, 1
  {
    match k
    case KStr => v.VStr?
    case KBool => v.VBool?
    case KInt(lo, hi) => v.VInt? && lo <= v.n <= hi
    case KTime => v.VStr?
    case KEnum(_) => v.VEnum?
    case KRaw => v.VRaw?
    case KList(elem) => v.VList? && forall x :: x in v.items ==> Shaped(elem, x)
    case KRecord(fields, _) => v.VRecord? && |v.fields| == |fields| && forall i :: 0 <= i < |fields| ==> FieldShaped(k, i, v.fields[i])
  }

  predicate FieldShaped(k: Kind, i: nat, x: Value)
    requires k.KRecord? && i < |k.fields|
    decreases k, 0
  {
    if k.fields[i].omit.WhenAbsent? && x.VNone? then true else Shaped(k.fields[i].kind, x)
  }

  /** A shape the generator makes: fields named apart, the first never left out, only plain kinds left out at zero. */
  predicate WellFormed(k: Kind)
    decreases k, 1
  {
    match k
    case KList(elem) => WellFormed(elem)
    case KRecord(fields, _) =>
      && |fields| > 0 && fields[0].omit.Never?
      && (forall i, j :: 0 <= i < j < |fields| ==> fields[i].name != fields[j].name)
      && (forall i :: 0 <= i < |fields| ==> FieldWellFormed(k, i))
    case KEnum(words) => forall i, j :: 0 <= i < j < |words| ==> words[i] != words[j]
    case _ => true
  }

  predicate FieldWellFormed(k: Kind, i: nat)
    requires k.KRecord? && i < |k.fields|
    decreases k, 0
  {
    var f := k.fields[i];
    WellFormed(f.kind) && (f.kind.KEnum? ==> f.omit.Never?) && (f.omit.AtZero? ==> f.kind.KStr? || f.kind.KBool? || f.kind.KInt? || f.kind.KList?)
  }

  /** The encoder leaves the field out. */
  predicate Omitted(f: Field, v: Value) {
    match f.omit
    case Never => false
    case WhenAbsent => v.VNone?
    case AtZero => v == VStr([]) || v == VBool(false) || v == VInt(0) || v == VList([])
  }

  predicate Known(words: seq<ascii>, v: Value) {
    v.VEnum? && 1 <= v.tag <= |words|
  }

  // ---- What the encoder writes ----

  /** The bytes an encoder appends, or the refusal it panics with. */
  datatype Encoded = Written(text: bytes) | Panic(word: Word)

  function Encode(k: Kind, v: Value, depth: nat): Encoded
    requires Shaped(k, v)
    decreases k, 2, 0
  {
    match k
    case KStr => Written(Esc(v.s))
    case KBool => Written(if v.b then TRUE_TEXT else FALSE_TEXT)
    case KInt(_, _) => Written(NumText(v.n))
    case KTime => if Timestamp.Normalized(v.s) == [] then Panic(BadTimestamp) else Written(Esc(Timestamp.Normalized(v.s)))
    case KEnum(words) => if Known(words, v) then Written(Esc(Ascii(words[v.tag - 1]))) else Panic(BadEnum)
    case KRaw => Written(v.text)
    case KList(_) =>
      if |v.items| == 0 then Written([LBRACKET, RBRACKET])
      else
        (match EncodeItems(k, v.items, depth)
         case Written(text) => Written([LBRACKET, LF] + (text + (Pad(depth) + [RBRACKET])))
         case Panic(w) => Panic(w))
    case KRecord(fields, _) =>
      if exists i :: 0 <= i < |fields| && fields[i].kind.KEnum? && !Known(fields[i].kind.words, v.fields[i]) then Panic(BadEnum)
      else
        match EncodeFields(k, v.fields, 0, depth)
        case Written(text) => Written([LBRACE] + (text + (Line(depth) + [RBRACE])))
        case Panic(w) => Panic(w)
  }

  /** The elements still to write, each on its own line. */
  function EncodeItems(k: Kind, items: seq<Value>, depth: nat): Encoded
    requires k.KList? && forall x :: x in items ==> Shaped(k.elem, x)
    decreases k, 1, |items|
  {
    if |items| == 0 then Written([])
    else
      match Encode(k.elem, items[0], depth + 1)
      case Panic(w) => Panic(w)
      case Written(text) =>
        match EncodeItems(k, items[1..], depth)
        case Panic(w) => Panic(w)
        case Written(rest) => Written(Pad(depth + 1) + (text + ((if |items| > 1 then [COMMA] else []) + ([LF] + rest))))
  }

  function FieldLead(k: Kind, i: nat, depth: nat): bytes
    requires k.KRecord? && i < |k.fields|
  {
    Line(depth + 1) + (Esc(Ascii(k.fields[i].name)) + [COLON, SPACE])
  }

  /** The fields still to write, from i on. */
  function EncodeFields(k: Kind, vs: seq<Value>, i: nat, depth: nat): Encoded
    requires k.KRecord? && |vs| == |k.fields| && i <= |vs|
    requires forall j :: 0 <= j < |vs| ==> FieldShaped(k, j, vs[j])
    decreases k, 1, |vs| - i
  {
    if i == |vs| then Written([])
    else if Omitted(k.fields[i], vs[i]) then EncodeFields(k, vs, i + 1, depth)
    else
      assert FieldShaped(k, i, vs[i]);
      match Encode(k.fields[i].kind, vs[i], depth + 1)
      case Panic(w) => Panic(w)
      case Written(text) =>
        match EncodeFields(k, vs, i + 1, depth)
        case Panic(w) => Panic(w)
        case Written(rest) => Written((if i > 0 then [COMMA] else []) + (FieldLead(k, i, depth) + (text + rest)))
  }

  // ---- When it does not panic ----

  /** Every closed enum is a member and every timestamp names a time. */
  predicate Writable(k: Kind, v: Value)
    requires Shaped(k, v)
    decreases k, 1
  {
    match k
    case KTime => Timestamp.Normalized(v.s) != []
    case KEnum(words) => Known(words, v)
    case KList(elem) => forall x :: x in v.items ==> Writable(elem, x)
    case KRecord(fields, _) => forall i :: 0 <= i < |fields| ==> FieldWritable(k, i, v.fields[i])
    case _ => true
  }

  predicate FieldWritable(k: Kind, i: nat, x: Value)
    requires k.KRecord? && i < |k.fields| && FieldShaped(k, i, x)
    decreases k, 0
  {
    x.VNone? || Writable(k.fields[i].kind, x)
  }

  // ---- The tree of what it writes ----

  ghost predicate IsRaw(text: bytes) {
    exists t :: Syntax(t) && Print(t) == text
  }

  ghost function RawTree(text: bytes): (t: Json)
    ensures Syntax(t) && (IsRaw(text) ==> Print(t) == text)
  {
    if IsRaw(text) then
      var t :| Syntax(t) && Print(t) == text;
      t
    else Null
  }

  ghost function TreeOf(k: Kind, v: Value, depth: nat): Json
    requires Shaped(k, v)
    decreases k, 2, 0
  {
    match k
    case KStr => Text(EscUnits(v.s))
    case KBool => if v.b then True else False
    case KInt(_, _) => Num(NumberOf(v.n))
    case KTime => Text(EscUnits(Timestamp.Normalized(v.s)))
    case KEnum(words) => if Known(words, v) then Text(EscUnits(Ascii(words[v.tag - 1]))) else Null
    case KRaw => RawTree(v.text)
    case KList(_) => Arr([], ItemsOf(k, v.items, depth))
    case KRecord(_, _) => Obj([], MembersOf(k, v.fields, 0, depth))
  }

  ghost function ItemsOf(k: Kind, items: seq<Value>, depth: nat): seq<Item>
    requires k.KList? && forall x :: x in items ==> Shaped(k.elem, x)
    decreases k, 1, |items|
  {
    if |items| == 0 then []
    else
      [Item(Line(depth + 1), TreeOf(k.elem, items[0], depth + 1), if |items| == 1 then Line(depth) else [])]
      + ItemsOf(k, items[1..], depth)
  }

  ghost function MemberOf(k: Kind, i: nat, x: Value, depth: nat, last: bool): Member
    requires k.KRecord? && i < |k.fields| && Shaped(k.fields[i].kind, x)
    decreases k, 1, 0
  {
    Member(Line(depth + 1), EscUnits(Ascii(k.fields[i].name)), [], [SPACE], TreeOf(k.fields[i].kind, x, depth + 1),
           if last then Line(depth) else [])
  }

  ghost function MembersOf(k: Kind, vs: seq<Value>, i: nat, depth: nat): seq<Member>
    requires k.KRecord? && |vs| == |k.fields| && i <= |vs|
    requires forall j :: 0 <= j < |vs| ==> FieldShaped(k, j, vs[j])
    decreases k, 1, |vs| - i + 1
  {
    if i == |vs| then []
    else
      var rest := MembersOf(k, vs, i + 1, depth);
      if Omitted(k.fields[i], vs[i]) then rest
      else
        assert FieldShaped(k, i, vs[i]);
        [MemberOf(k, i, vs[i], depth, rest == [])] + rest
  }

  /** Every raw value the encoder copies is one JSON value. */
  ghost predicate Embeds(k: Kind, v: Value)
    requires Shaped(k, v)
    decreases k, 1
  {
    match k
    case KRaw => IsRaw(v.text)
    case KList(elem) => forall x :: x in v.items ==> Embeds(elem, x)
    case KRecord(fields, _) => forall i :: 0 <= i < |fields| ==> FieldEmbeds(k, i, v.fields[i])
    case _ => true
  }

  ghost predicate FieldEmbeds(k: Kind, i: nat, x: Value)
    requires k.KRecord? && i < |k.fields| && FieldShaped(k, i, x)
    decreases k, 0
  {
    x.VNone? || Embeds(k.fields[i].kind, x)
  }

  /** What a field must be for the encoder to print it. */
  ghost predicate Printable(k: Kind, v: Value) {
    WellFormed(k) && Shaped(k, v) && Writable(k, v) && Embeds(k, v)
  }

  lemma FieldPrintable(k: Kind, v: Value, i: nat)
    requires k.KRecord? && Printable(k, v) && i < |k.fields|
    ensures FieldShaped(k, i, v.fields[i])
    ensures !Omitted(k.fields[i], v.fields[i]) ==> Printable(k.fields[i].kind, v.fields[i])
  {
    assert FieldShaped(k, i, v.fields[i]) && FieldWritable(k, i, v.fields[i]) && FieldEmbeds(k, i, v.fields[i]) && FieldWellFormed(k, i);
  }

  // ---- The encoder prints its tree ----

  lemma {:induction false} EncodePrints(k: Kind, v: Value, depth: nat)
    requires Printable(k, v)
    ensures Syntax(TreeOf(k, v, depth))
    ensures Encode(k, v, depth) == Written(Print(TreeOf(k, v, depth)))
    decreases k, 2, 0
  {
    hide Encode, TreeOf, Syntax, Print;
    match k
    case KList(elem) => ListPrints(k, v, depth);
    case KRecord(_, _) => RecordPrints(k, v, depth);
    case _ => ScalarPrints(k, v, depth);
  }

  /** A string's text is a tree printed. */
  lemma TextPrints(s: bytes)
    ensures Syntax(Text(EscUnits(s))) && Print(Text(EscUnits(s))) == Esc(s)
  {
    hide EscUnits, EscBytes;
    EscUnitsAreBytes(s);
  }

  lemma ScalarPrints(k: Kind, v: Value, depth: nat)
    requires !k.KList? && !k.KRecord? && Printable(k, v)
    ensures Syntax(TreeOf(k, v, depth))
    ensures Encode(k, v, depth) == Written(Print(TreeOf(k, v, depth)))
  {
    hide Timestamp.Normalized, NumberOf, EscUnits, Esc;
    match k
    case KStr =>
      TextPrints(v.s);
    case KTime =>
      TextPrints(Timestamp.Normalized(v.s));
    case KEnum(words) =>
      TextPrints(Ascii(words[v.tag - 1]));
    case _ =>
  }

  lemma {:induction false} ListPrints(k: Kind, v: Value, depth: nat)
    requires k.KList? && Printable(k, v)
    ensures Syntax(TreeOf(k, v, depth))
    ensures Encode(k, v, depth) == Written(Print(TreeOf(k, v, depth)))
    decreases k, 1, |v.items| + 1
  {
    hide EncodeItems, ItemsOf, ItemsText, ItemsSyntax, Pad;
    NoSpace();
    if |v.items| == 0 {
      EmptyList(k, depth);
    } else {
      ItemsPrint(k, v.items, depth);
      var text, items := EncodeItems(k, v.items, depth).text, ItemsText(ItemsOf(k, v.items, depth));
      assert [LBRACKET, LF] + (text + (Pad(depth) + [RBRACKET])) == [LBRACKET] + (([LF] + (text + Pad(depth))) + [RBRACKET]);
      assert [] + (items + [RBRACKET]) == items + [RBRACKET];
    }
  }

  lemma EmptyList(k: Kind, depth: nat)
    requires k.KList?
    ensures ItemsOf(k, [], depth) == [] && ItemsText([]) == [] && ItemsSyntax([])
  {
  }

  lemma NoSpace()
    ensures AllSpace([]) && AllSpace([SPACE])
  {
  }

  lemma {:induction false} ItemsPrint(k: Kind, items: seq<Value>, depth: nat)
    requires k.KList? && |items| > 0 && (forall x :: x in items ==> Shaped(k.elem, x))
    requires forall x :: x in items ==> Printable(k.elem, x)
    ensures |ItemsOf(k, items, depth)| == |items| && ItemsSyntax(ItemsOf(k, items, depth))
    ensures EncodeItems(k, items, depth).Written?
    ensures [LF] + (EncodeItems(k, items, depth).text + Pad(depth)) == ItemsText(ItemsOf(k, items, depth))
    decreases k, 1, |items|
  {
    hide Pad, AllSpace, Encode, TreeOf, Print, Syntax;
    var rest := items[1..];
    var tree := TreeOf(k.elem, items[0], depth + 1);
    NoSpace();
    EncodePrints(k.elem, items[0], depth + 1);
    var ts := ItemsOf(k, items, depth);
    assert ts[0] == Item(Line(depth + 1), tree, if |items| == 1 then Line(depth) else []);
    if |items| == 1 {
      assert ItemsOf(k, rest, depth) == [] && EncodeItems(k, rest, depth) == Written([]);
      assert ItemsSyntax([]);
      assert ts[1..] == [];
      assert ItemsText(ts) == ItemText(ts[0]);
      OneItem(Pad(depth + 1), Print(tree), Pad(depth));
    } else {
      ItemsPrint(k, rest, depth);
      assert ts[1..] == ItemsOf(k, rest, depth);
      assert ItemsText(ts) == ItemText(ts[0]) + ([COMMA] + ItemsText(ts[1..]));
      MoreItems(Pad(depth + 1), Print(tree), EncodeItems(k, rest, depth).text, Pad(depth));
    }
  }

  lemma OneItem(pad: bytes, text: bytes, shut: bytes)
    ensures [LF] + ((pad + (text + ([] + ([LF] + [])))) + shut) == ([LF] + pad) + (text + ([LF] + shut))
  {
  }

  lemma MoreItems(pad: bytes, text: bytes, rest: bytes, shut: bytes)
    ensures [LF] + ((pad + (text + ([COMMA] + ([LF] + rest)))) + shut)
         == (([LF] + pad) + (text + [])) + ([COMMA] + ([LF] + (rest + shut)))
  {
  }

  lemma {:induction false} RecordPrints(k: Kind, v: Value, depth: nat)
    requires k.KRecord? && Printable(k, v)
    ensures Syntax(TreeOf(k, v, depth))
    ensures Encode(k, v, depth) == Written(Print(TreeOf(k, v, depth)))
    decreases k, 1, |k.fields| + 1
  {
    hide EncodeFields, Line, MembersOf, MembersText, MembersSyntax;
    FieldPrintable(k, v, 0);
    assert forall i :: 0 <= i < |k.fields| && k.fields[i].kind.KEnum? ==> Known(k.fields[i].kind.words, v.fields[i]) by {
      forall i | 0 <= i < |k.fields| && k.fields[i].kind.KEnum? ensures Known(k.fields[i].kind.words, v.fields[i]) {
        assert FieldWellFormed(k, i);
        FieldPrintable(k, v, i);
      }
    }
    FieldsPrint(k, v, 0, depth);
    NoSpace();
    var ms := MembersOf(k, v.fields, 0, depth);
    var text := EncodeFields(k, v.fields, 0, depth).text;
    assert [LBRACE] + (text + (Line(depth) + [RBRACE])) == [LBRACE] + ((text + Line(depth)) + [RBRACE]);
    assert [] + (MembersText(ms) + [RBRACE]) == MembersText(ms) + [RBRACE];
  }

  lemma {:induction false} FieldsPrint(k: Kind, v: Value, i: nat, depth: nat)
    requires k.KRecord? && Printable(k, v) && i <= |k.fields|
    ensures var ms := MembersOf(k, v.fields, i, depth);
            && MembersSyntax(ms)
            && EncodeFields(k, v.fields, i, depth).Written?
            && (i == 0 ==> ms != [])
            && EncodeFields(k, v.fields, i, depth).text + Line(depth) ==
               if ms == [] then Line(depth) else if i == 0 then MembersText(ms) else [COMMA] + MembersText(ms)
    decreases k, 1, |k.fields| - i
  {
    hide Line, AllSpace, Encode, TreeOf, Print, Syntax, EscUnits, Writable, Embeds, WellFormed;
    FirstNotOmitted(k, v);
    if i == |k.fields| {
      assert MembersSyntax([]);
      assert [] + Line(depth) == Line(depth);
    } else {
      FieldPrintable(k, v, i);
      FieldsPrint(k, v, i + 1, depth);
      if !Omitted(k.fields[i], v.fields[i]) {
        FieldPrints(k, v, i, depth);
      }
    }
  }

  lemma FirstNotOmitted(k: Kind, v: Value)
    requires k.KRecord? && Printable(k, v)
    ensures |k.fields| > 0 && !Omitted(k.fields[0], v.fields[0])
  {
  }

  /** A written field is its member, and the rest of the record follows. */
  lemma {:induction false} FieldPrints(k: Kind, v: Value, i: nat, depth: nat)
    requires k.KRecord? && Printable(k, v) && i < |k.fields| && !Omitted(k.fields[i], v.fields[i])
    requires EncodeFields(k, v.fields, i + 1, depth).Written? && MembersSyntax(MembersOf(k, v.fields, i + 1, depth))
    requires var ms := MembersOf(k, v.fields, i + 1, depth);
             EncodeFields(k, v.fields, i + 1, depth).text + Line(depth) ==
             if ms == [] then Line(depth) else [COMMA] + MembersText(ms)
    ensures var ms := MembersOf(k, v.fields, i, depth);
            && MembersSyntax(ms) && ms != []
            && EncodeFields(k, v.fields, i, depth).Written?
            && EncodeFields(k, v.fields, i, depth).text + Line(depth) ==
               if i == 0 then MembersText(ms) else [COMMA] + MembersText(ms)
    decreases k, 1, |k.fields| - i - 1
  {
    hide Line, AllSpace, Encode, TreeOf, Print, Syntax, EscUnits, Writable, Embeds, WellFormed, UnitsOk, UnitsText, EscBytes;
    var f, x := k.fields[i], v.fields[i];
    FieldPrintable(k, v, i);
    EncodePrints(f.kind, x, depth + 1);
    EscUnitsAreBytes(Ascii(f.name));
    NoSpace();
    var tail := MembersOf(k, v.fields, i + 1, depth);
    var ms := MembersOf(k, v.fields, i, depth);
    var m := MemberOf(k, i, x, depth, tail == []);
    assert ms == [m] + tail;
    assert ms[1..] == tail;
    var text := Print(m.value);
    var rest := EncodeFields(k, v.fields, i + 1, depth).text;
    var key := Esc(Ascii(f.name));
    assert EncodeFields(k, v.fields, i, depth).text == (if i > 0 then [COMMA] else []) + (FieldLead(k, i, depth) + (text + rest));
    assert KeyText(m) == key + ([] + ([COLON] + [SPACE]));
    assert MemberText(m) == Line(depth + 1) + (KeyText(m) + (text + (if tail == [] then Line(depth) else [])));
    assert MembersText(ms) == MemberText(m) + (if tail == [] then [] else [COMMA] + MembersText(tail));
    if tail == [] {
      LastField(Line(depth + 1), key, text, rest, Line(depth));
    } else {
      NextField(Line(depth + 1), key, text, rest, Line(depth), [COMMA] + MembersText(tail));
    }
    if i > 0 {
      CommaFirst(FieldLead(k, i, depth) + (text + rest), Line(depth));
    } else {
      assert [] + (FieldLead(k, i, depth) + (text + rest)) == FieldLead(k, i, depth) + (text + rest);
    }
  }

  lemma CommaFirst(a: bytes, b: bytes)
    ensures ([COMMA] + a) + b == [COMMA] + (a + b)
  {
  }

  lemma LastField(line: bytes, key: bytes, text: bytes, rest: bytes, shut: bytes)
    requires rest + shut == shut
    ensures ((line + (key + [COLON, SPACE])) + (text + rest)) + shut
         == (line + ((key + ([] + ([COLON] + [SPACE]))) + (text + shut))) + []
  {
    assert |rest| == 0;
  }

  lemma NextField(line: bytes, key: bytes, text: bytes, rest: bytes, shut: bytes, after: bytes)
    requires rest + shut == after
    ensures ((line + (key + [COLON, SPACE])) + (text + rest)) + shut
         == (line + ((key + ([] + ([COLON] + [SPACE]))) + (text + []))) + after
  {
    assert ((line + (key + [COLON, SPACE])) + (text + rest)) + shut == (line + (key + [COLON, SPACE])) + (text + (rest + shut));
    assert (line + ((key + ([] + ([COLON] + [SPACE]))) + (text + []))) + after == (line + (key + [COLON, SPACE])) + (text + after);
  }
}
