/** Every decoder against the grammar: it reads a printed tree to the value the tree means, or refuses it. */
module Decoding {
  import opened Basics
  import opened Bytes
  import opened Utf8
  import opened Scan
  import opened Grammar
  import opened Tokens
  import opened Numerals
  import opened Skipper
  import opened Schema
  import Timestamp

  /** The byte at pos carries no number on; the skipper asks only that it does not belong to this one. */
  predicate Ends(k: Kind, t: Json, buf: bytes, pos: nat) {
    t.Num? ==> if k.KRaw? then t.n.EndsBefore(At(buf, pos)) else !CarriesOn(At(buf, pos))
  }

  /** The first byte of a printed value says which production it is. */
  lemma FirstByte(t: Json)
    requires Syntax(t)
    ensures |Print(t)| > 0
    ensures var c := Print(t)[0];
            && (c == QUOTE <==> t.Text?) && (c == LBRACKET <==> t.Arr?) && (c == LBRACE <==> t.Obj?)
            && (c == LOWER_T <==> t.True?) && (c == LOWER_F <==> t.False?) && (c == LOWER_N <==> t.Null?)
            && (c == MINUS || IsDigit(c) <==> t.Num?)
  {
    if t.Num? {
      assert t.n.whole[0] in t.n.whole;
    }
  }

  lemma ScalarRead(k: Kind, t: Json, buf: bytes, pos: nat, depth: nat)
    requires k.KStr? || k.KTime? || k.KEnum?
    requires Syntax(t) && HasAt(buf, pos, Print(t))
    ensures pos <= |buf|
    ensures match Interp(k, t, depth)
            case Some(v) => Decode(k, buf, pos, depth) == Parsed.Ok(v, pos + |Print(t)|)
            case None => Decode(k, buf, pos, depth).Refuse?
  {
    hide HasAt, ValidUtf8, Timestamp.Normalized, WordIndex;
    FirstByte(t);
    HasAtFirst(buf, pos, Print(t));
    if t.Text? {
      StringRead(buf, pos, t.units);
    }
  }

  lemma BooleanRead(t: Json, buf: bytes, pos: nat, depth: nat)
    requires Syntax(t) && HasAt(buf, pos, Print(t))
    ensures pos <= |buf|
    ensures match Interp(KBool, t, depth)
            case Some(v) => Decode(KBool, buf, pos, depth) == Parsed.Ok(v, pos + |Print(t)|)
            case None => Decode(KBool, buf, pos, depth).Refuse?
  {
    hide HasAt;
    FirstByte(t);
    HasAtFirst(buf, pos, Print(t));
  }

  lemma {:induction false} DecodeRead(k: Kind, t: Json, buf: bytes, pos: nat, depth: nat)
    requires Syntax(t) && HasAt(buf, pos, Print(t)) && Ends(k, t, buf, pos + |Print(t)|)
    ensures pos <= |buf|
    ensures match Interp(k, t, depth)
            case Some(v) => Decode(k, buf, pos, depth) == Parsed.Ok(v, pos + |Print(t)|)
            case None => Decode(k, buf, pos, depth).Refuse?
    decreases t, 3
  {
    hide HasAt, ValidUtf8, Str, SkipNumber, SkipWs, Skip, Integer, Boolean, DecodeList, DecodeRecord, Carried, Print, InterpItems, InterpMembers;
    FirstByte(t);
    HasAtFirst(buf, pos, Print(t));
    match k
    case KBool => BooleanRead(t, buf, pos, depth);
    case KInt(lo, hi) => IntegerKindRead(k, t, buf, pos, depth);
    case KRaw => RawRead(t, buf, pos, depth);
    case KList(elem) => ListRead(k, t, buf, pos, depth);
    case KRecord(fields, open) => RecordRead(k, t, buf, pos, depth);
    case _ => ScalarRead(k, t, buf, pos, depth);
  }

  lemma IntegerKindRead(k: Kind, t: Json, buf: bytes, pos: nat, depth: nat)
    requires k.KInt? && Syntax(t) && HasAt(buf, pos, Print(t)) && Ends(k, t, buf, pos + |Print(t)|)
    ensures pos <= |buf|
    ensures match Interp(k, t, depth)
            case Some(v) => Decode(k, buf, pos, depth) == Parsed.Ok(v, pos + |Print(t)|)
            case None => Decode(k, buf, pos, depth).Refuse?
  {
    hide HasAt, Magnitude;
    FirstByte(t);
    HasAtFirst(buf, pos, Print(t));
    if t.Num? {
      hide Integer;
      IntegerRead(t.n, buf, pos, k.lo, k.hi);
    }
  }

  lemma RawRead(t: Json, buf: bytes, pos: nat, depth: nat)
    requires Syntax(t) && HasAt(buf, pos, Print(t)) && Ends(KRaw, t, buf, pos + |Print(t)|)
    ensures pos <= |buf|
    ensures match Interp(KRaw, t, depth)
            case Some(v) => Decode(KRaw, buf, pos, depth) == Parsed.Ok(v, pos + |Print(t)|)
            case None => Decode(KRaw, buf, pos, depth).Refuse?
  {
    hide Skip, Print, Syntax, Carried;
    SkipRead(t, buf, pos, depth);
  }

  lemma {:induction false} ListRead(k: Kind, t: Json, buf: bytes, pos: nat, depth: nat)
    requires k.KList? && Syntax(t) && HasAt(buf, pos, Print(t))
    ensures pos <= |buf|
    ensures match Interp(k, t, depth)
            case Some(v) => Decode(k, buf, pos, depth) == Parsed.Ok(v, pos + |Print(t)|)
            case None => Decode(k, buf, pos, depth).Refuse?
    decreases t, 2
  {
    hide HasAt, SkipWs, DecodeItems, AllSpace, InterpItems;
    FirstByte(t);
    HasAtFirst(buf, pos, Print(t));
    if t.Arr? {
      var inner := ItemsText(t.items);
      Container(buf, pos, LBRACKET, t.lead, inner, RBRACKET);
      if |t.items| == 0 {
        NoItems(k.elem, depth + 1, []);
      } else if depth < DEPTH_LIMIT {
        FirstItem(t.items, buf, pos + 1);
        ItemsRead(k, t.items, buf, pos + 1, depth + 1, []);
        DecodeItemsFromBlank(k, buf, pos + 1, depth + 1, []);
      }
    }
  }

  lemma NoItems(elem: Kind, depth: nat, out: seq<Value>)
    ensures ItemsSyntax([]) && InterpItems(elem, [], depth, out) == Some(out)
  {
  }

  lemma DecodeItemsFromBlank(k: Kind, buf: bytes, pos: nat, depth: nat, out: seq<Value>)
    requires k.KList? && pos <= |buf|
    ensures DecodeItems(k, buf, SkipWs(buf, pos), depth, out) == DecodeItems(k, buf, pos, depth, out)
  {
    hide Decode;
    SpacesTwice(buf, pos);
  }

  /** One turn of the list loop. */
  lemma {:induction false} ItemRead(k: Kind, i: Item, buf: bytes, pos: nat, depth: nat, out: seq<Value>)
    requires k.KList? && AllSpace(i.before) && Syntax(i.value) && AllSpace(i.after) && HasAt(buf, pos, ItemText(i))
    requires var c := At(buf, pos + |ItemText(i)|); c == COMMA || c == RBRACKET
    ensures pos + |ItemText(i)| <= |buf|
    ensures match Interp(k.elem, i.value, depth)
            case None => DecodeItems(k, buf, pos, depth, out).Refuse?
            case Some(v) =>
              DecodeItems(k, buf, pos, depth, out) ==
              if At(buf, pos + |ItemText(i)|) == COMMA then DecodeItems(k, buf, pos + |ItemText(i)| + 1, depth, out + [v])
              else Parsed.Ok(out + [v], pos + |ItemText(i)|)
    decreases i, 0
  {
    hide HasAt, SkipWs, Decode, AllSpace, Interp, Syntax, Print;
    PrintNonEmpty(i.value);
    HasAtInside(buf, pos, ItemText(i));
    Framed(buf, pos, i.before, Print(i.value), i.after);
    DecodeRead(k.elem, i.value, buf, pos + |i.before|, depth);
  }

  lemma {:induction false} ItemsRead(k: Kind, items: seq<Item>, buf: bytes, pos: nat, depth: nat, out: seq<Value>)
    requires k.KList? && |items| > 0 && ItemsSyntax(items) && HasAt(buf, pos, ItemsText(items))
    requires At(buf, pos + |ItemsText(items)|) == RBRACKET
    ensures pos <= |buf|
    ensures match InterpItems(k.elem, items, depth, out)
            case Some(vs) => DecodeItems(k, buf, pos, depth, out) == Parsed.Ok(vs, pos + |ItemsText(items)|)
            case None => DecodeItems(k, buf, pos, depth, out).Refuse?
    decreases items, 0
  {
    hide HasAt, SkipWs, DecodeItems, AllSpace, Interp, Syntax, ItemText;
    var rest := items[1..];
    var text := ItemText(items[0]);
    Separated(buf, pos, text, ItemsText(rest), |items| == 1);
    ItemRead(k, items[0], buf, pos, depth, out);
    match Interp(k.elem, items[0].value, depth)
    case None =>
    case Some(v) =>
      if |items| > 1 {
        ItemsRead(k, rest, buf, pos + |text| + 1, depth, out + [v]);
      } else {
        NoItems(k.elem, depth, out + [v]);
      }
  }

  lemma {:induction false} RecordRead(k: Kind, t: Json, buf: bytes, pos: nat, depth: nat)
    requires k.KRecord? && Syntax(t) && HasAt(buf, pos, Print(t))
    ensures pos <= |buf|
    ensures match Interp(k, t, depth)
            case Some(v) => Decode(k, buf, pos, depth) == Parsed.Ok(v, pos + |Print(t)|)
            case None => Decode(k, buf, pos, depth).Refuse?
    decreases t, 2
  {
    hide HasAt, SkipWs, DecodeMembers, AllSpace, InterpMembers, Required, Zeros;
    FirstByte(t);
    HasAtFirst(buf, pos, Print(t));
    if t.Obj? {
      var start := Partial({}, Zeros(k.fields));
      Container(buf, pos, LBRACE, t.lead, MembersText(t.members), RBRACE);
      if |t.members| == 0 {
        NoMembers(k, depth + 1, start);
      } else if depth < DEPTH_LIMIT {
        FirstMember(t.members, buf, pos + 1);
        MembersRead(k, t.members, buf, pos + 1, depth + 1, start);
        DecodeMembersFromBlank(k, buf, pos + 1, depth + 1, start);
      }
    }
  }

  lemma NoMembers(k: Kind, depth: nat, part: Partial)
    requires k.KRecord? && |part.values| == |k.fields|
    ensures MembersSyntax([]) && InterpMembers(k, [], depth, part) == Some(part)
  {
  }

  lemma DecodeMembersFromBlank(k: Kind, buf: bytes, pos: nat, depth: nat, part: Partial)
    requires k.KRecord? && pos <= |buf| && |part.values| == |k.fields|
    ensures DecodeMembers(k, buf, SkipWs(buf, pos), depth, part) == DecodeMembers(k, buf, pos, depth, part)
  {
    hide DecodeField, KeyAt;
    SpacesTwice(buf, pos);
  }

  /** The switch on a key against the reading of a member. */
  lemma {:induction false} FieldRead(k: Kind, m: Member, buf: bytes, pos: nat, depth: nat, part: Partial)
    requires k.KRecord? && |part.values| == |k.fields| && UnitsOk(m.key) && Syntax(m.value) && ValidUtf8(KeyOf(m))
    requires HasAt(buf, pos, Print(m.value)) && Closes(At(buf, pos + |Print(m.value)|))
    ensures pos <= |buf|
    ensures match InterpMember(k, m, depth, part)
            case Some(next) => DecodeField(k, KeyOf(m), buf, pos, depth, part) == Parsed.Ok(next, pos + |Print(m.value)|)
            case None => DecodeField(k, KeyOf(m), buf, pos, depth, part).Refuse?
    decreases m, 0
  {
    hide HasAt, Decode, Skip, Interp, Syntax, Print, Carried, ValidUtf8, UnitsValue, IndexOf;
    HasAtInside(buf, pos, Print(m.value));
    var i := IndexOf(k.fields, KeyOf(m));
    if i >= 0 && i !in part.seen {
      DecodeRead(k.fields[i].kind, m.value, buf, pos, depth);
    } else if i < 0 && k.open {
      SkipRead(m.value, buf, pos, depth);
    }
  }

  /** One turn of a record decoder's loop over members. */
  lemma MembersTurn(k: Kind, buf: bytes, pos: nat, depth: nat, part: Partial)
    requires k.KRecord? && pos <= |buf| && |part.values| == |k.fields|
    ensures var key := KeyAt(buf, SkipWs(buf, pos));
            && (key.Refuse? ==> DecodeMembers(k, buf, pos, depth, part).Refuse?)
            && (key.Ok? ==>
                  var field := DecodeField(k, key.value, buf, key.pos, depth, part);
                  && (field.Refuse? ==> DecodeMembers(k, buf, pos, depth, part).Refuse?)
                  && (field.Ok? ==>
                        var n := SkipWs(buf, field.pos);
                        DecodeMembers(k, buf, pos, depth, part) ==
                        if At(buf, n) == COMMA then DecodeMembers(k, buf, n + 1, depth, field.value) else Parsed.Ok(field.value, n)))
  {
    hide KeyAt, SkipWs, DecodeField;
  }

  lemma {:induction false} MemberRead(k: Kind, m: Member, buf: bytes, pos: nat, depth: nat, part: Partial)
    requires k.KRecord? && |part.values| == |k.fields|
    requires BlanksOk(m) && UnitsOk(m.key) && Syntax(m.value) && HasAt(buf, pos, MemberText(m))
    requires var c := At(buf, pos + |MemberText(m)|); c == COMMA || c == RBRACE
    ensures pos + |MemberText(m)| <= |buf|
    ensures match InterpMember(k, m, depth, part)
            case None => DecodeMembers(k, buf, pos, depth, part).Refuse?
            case Some(next) =>
              DecodeMembers(k, buf, pos, depth, part) ==
              if At(buf, pos + |MemberText(m)|) == COMMA then DecodeMembers(k, buf, pos + |MemberText(m)| + 1, depth, next)
              else Parsed.Ok(next, pos + |MemberText(m)|)
    decreases m, 1
  {
    hide HasAt, SkipWs, AllSpace, ValidUtf8, KeyAt, Str, Interp, Syntax, Print, MemberText, KeyText, UnitsValue, DecodeField, Carried, IndexOf;
    hide DecodeMembers;
    HasAtInside(buf, pos, MemberText(m));
    MemberParts(m, buf, pos);
    MembersTurn(k, buf, pos, depth, part);
    if ValidUtf8(KeyOf(m)) {
      FieldRead(k, m, buf, pos + |m.before| + |KeyText(m)|, depth, part);
    }
  }

  lemma {:induction false} MembersRead(k: Kind, members: seq<Member>, buf: bytes, pos: nat, depth: nat, part: Partial)
    requires k.KRecord? && |part.values| == |k.fields|
    requires |members| > 0 && MembersSyntax(members) && HasAt(buf, pos, MembersText(members))
    requires At(buf, pos + |MembersText(members)|) == RBRACE
    ensures pos <= |buf|
    ensures match InterpMembers(k, members, depth, part)
            case Some(last) => DecodeMembers(k, buf, pos, depth, part) == Parsed.Ok(last, pos + |MembersText(members)|)
            case None => DecodeMembers(k, buf, pos, depth, part).Refuse?
    decreases members, 0
  {
    hide HasAt, SkipWs, DecodeMembers, AllSpace, InterpMember, Syntax, MemberText, UnitsOk, BlanksOk;
    var rest := members[1..];
    var text := MemberText(members[0]);
    Separated(buf, pos, text, MembersText(rest), |members| == 1);
    MemberRead(k, members[0], buf, pos, depth, part);
    match InterpMember(k, members[0], depth, part)
    case None =>
    case Some(next) =>
      if |members| > 1 {
        MembersRead(k, rest, buf, pos + |text| + 1, depth, next);
      } else {
        NoMembers(k, depth, next);
      }
  }

  // ---- What a decoder accepts is a printed tree ----

  lemma ScalarSound(k: Kind, buf: bytes, pos: nat, depth: nat) returns (t: Json)
    requires (k.KStr? || k.KTime? || k.KEnum?) && pos <= |buf| && Decode(k, buf, pos, depth).Ok?
    ensures Syntax(t) && HasAt(buf, pos, Print(t)) && !t.Num? && Decode(k, buf, pos, depth).pos == pos + |Print(t)|
  {
    hide HasAt, ValidUtf8, Str, Timestamp.Normalized, WordIndex;
    var us := StringSound(buf, pos);
    t := Text(us);
  }

  lemma BooleanSound(buf: bytes, pos: nat, depth: nat) returns (t: Json)
    requires pos <= |buf| && Decode(KBool, buf, pos, depth).Ok?
    ensures Syntax(t) && HasAt(buf, pos, Print(t)) && !t.Num? && Decode(KBool, buf, pos, depth).pos == pos + |Print(t)|
  {
    hide HasAt;
    t := if At(buf, pos) == LOWER_T then True else False;
  }

  lemma {:induction false} DecodeSound(k: Kind, buf: bytes, pos: nat, depth: nat) returns (t: Json)
    requires pos <= |buf| && Decode(k, buf, pos, depth).Ok?
    ensures Syntax(t) && HasAt(buf, pos, Print(t)) && Ends(k, t, buf, pos + |Print(t)|)
    ensures Decode(k, buf, pos, depth).pos == pos + |Print(t)|
    decreases k, 2, 0
  {
    hide HasAt, Boolean, Str, Skip, Integer, DecodeList, DecodeRecord;
    match k
    case KBool =>
      t := BooleanSound(buf, pos, depth);
    case KInt(lo, hi) =>
      var n := IntegerSound(buf, pos, lo, hi);
      t := Num(n);
    case KRaw =>
      t := SkipSound(buf, pos, depth);
    case KList(elem) =>
      t := ListSound(k, buf, pos, depth);
    case KRecord(fields, open) =>
      t := RecordSound(k, buf, pos, depth);
    case _ =>
      t := ScalarSound(k, buf, pos, depth);
  }

  lemma {:induction false} ListSound(k: Kind, buf: bytes, pos: nat, depth: nat) returns (t: Json)
    requires k.KList? && pos <= |buf| && DecodeList(k, buf, pos, depth).Ok?
    ensures t.Arr? && Syntax(t) && HasAt(buf, pos, Print(t))
    ensures DecodeList(k, buf, pos, depth).pos == pos + |Print(t)|
    decreases k, 1, 0
  {
    hide HasAt, DecodeItems, SkipWs, AllSpace, ItemText;
    var p := SkipWs(buf, pos + 1);
    var lead, inner: bytes := [], [];
    EmptyAt(buf, pos + 1);
    EmptyAt(buf, p);
    if At(buf, p) == RBRACKET {
      lead := BlanksAt(buf, pos + 1);
      t := Arr(lead, []);
      assert ItemsSyntax([]);
    } else {
      DecodeItemsFromBlank(k, buf, pos + 1, depth + 1, []);
      var items := ItemsSound(k, buf, pos + 1, depth + 1, []);
      inner := ItemsText(items);
      t := Arr([], items);
      NoBlanks();
    }
    ContainerAt(buf, pos, lead, inner, RBRACKET);
  }

  lemma NoBlanks()
    ensures AllSpace([])
  {
  }

  lemma {:induction false} ItemsSound(k: Kind, buf: bytes, pos: nat, depth: nat, out: seq<Value>) returns (items: seq<Item>)
    requires k.KList? && pos <= |buf| && DecodeItems(k, buf, pos, depth, out).Ok?
    ensures |items| > 0 && ItemsSyntax(items) && HasAt(buf, pos, ItemsText(items))
    ensures DecodeItems(k, buf, pos, depth, out).pos == pos + |ItemsText(items)|
    decreases k, 0, |buf| - pos
  {
    hide HasAt, SkipWs, Decode, AllSpace, Syntax, Print, MembersText, MembersSyntax;
    var before := BlanksAt(buf, pos);
    var p := pos + |before|;
    var value := DecodeSound(k.elem, buf, p, depth);
    var e := p + |Print(value)|;
    var after := BlanksAt(buf, e);
    var i := Item(before, value, after);
    JoinThree(buf, pos, before, Print(value), after);
    var n := pos + |ItemText(i)|;
    assert n == e + |after|;
    var rest: seq<Item> := [];
    if At(buf, n) == COMMA {
      rest := ItemsSound(k, buf, n + 1, depth, out + [Decode(k.elem, buf, p, depth).value]);
      JoinRest(buf, pos, ItemText(i), ItemsText(rest));
    }
    items := [i] + rest;
    assert items[1..] == rest;
    assert ItemsSyntax(rest);
    assert ItemText(i) + [] == ItemText(i);
  }

  lemma {:induction false} RecordSound(k: Kind, buf: bytes, pos: nat, depth: nat) returns (t: Json)
    requires k.KRecord? && pos <= |buf| && DecodeRecord(k, buf, pos, depth).Ok?
    ensures t.Obj? && Syntax(t) && HasAt(buf, pos, Print(t))
    ensures DecodeRecord(k, buf, pos, depth).pos == pos + |Print(t)|
    decreases k, 1, 0
  {
    hide HasAt, DecodeMembers, SkipWs, AllSpace, MemberText, Zeros, Required;
    var p := SkipWs(buf, pos + 1);
    var start := Partial({}, Zeros(k.fields));
    var lead, inner: bytes := [], [];
    EmptyAt(buf, pos + 1);
    EmptyAt(buf, p);
    if At(buf, p) == RBRACE {
      lead := BlanksAt(buf, pos + 1);
      t := Obj(lead, []);
      assert MembersSyntax([]);
    } else {
      DecodeMembersFromBlank(k, buf, pos + 1, depth + 1, start);
      var members := MembersSound(k, buf, pos + 1, depth + 1, start);
      inner := MembersText(members);
      t := Obj([], members);
      NoBlanks();
    }
    ContainerAt(buf, pos, lead, inner, RBRACE);
  }

  lemma {:induction false} FieldSound(k: Kind, key: bytes, buf: bytes, pos: nat, depth: nat, part: Partial) returns (t: Json)
    requires k.KRecord? && pos <= |buf| && |part.values| == |k.fields| && DecodeField(k, key, buf, pos, depth, part).Ok?
    ensures Syntax(t) && HasAt(buf, pos, Print(t)) && DecodeField(k, key, buf, pos, depth, part).pos == pos + |Print(t)|
    decreases k, 0, 0
  {
    hide HasAt, Decode, Skip, Syntax, Print, IndexOf;
    var i := IndexOf(k.fields, key);
    if i >= 0 {
      t := DecodeSound(k.fields[i].kind, buf, pos, depth);
    } else {
      t := SkipSound(buf, pos, depth);
    }
  }

  lemma {:induction false} MembersSound(k: Kind, buf: bytes, pos: nat, depth: nat, part: Partial) returns (members: seq<Member>)
    requires k.KRecord? && pos <= |buf| && |part.values| == |k.fields| && DecodeMembers(k, buf, pos, depth, part).Ok?
    ensures |members| > 0 && MembersSyntax(members) && HasAt(buf, pos, MembersText(members))
    ensures DecodeMembers(k, buf, pos, depth, part).pos == pos + |MembersText(members)|
    decreases k, 0, |buf| - pos
  {
    hide HasAt, SkipWs, DecodeField, AllSpace, Syntax, Print, ItemsText, ItemsSyntax, Str, KeyAt, MemberText, ValidUtf8;
    var p := SkipWs(buf, pos);
    var key, v := KeyAt(buf, p).value, KeyAt(buf, p).pos;
    var value := FieldSound(k, key, buf, v, depth, part);
    HasAtInside(buf, v, Print(value));
    var m := MemberAt(buf, pos, value);
    var n := pos + |MemberText(m)|;
    var rest: seq<Member> := [];
    if At(buf, n) == COMMA {
      rest := MembersSound(k, buf, n + 1, depth, DecodeField(k, key, buf, v, depth, part).value);
      JoinRest(buf, pos, MemberText(m), MembersText(rest));
    }
    members := [m] + rest;
    assert members[1..] == rest;
    assert MembersSyntax(rest);
    assert MemberText(m) + [] == MemberText(m);
  }

  // ---- Decoding, exactly ----

  /** t stands at pos and means v. */
  ghost predicate Means(k: Kind, t: Json, buf: bytes, pos: nat, depth: nat, v: Value) {
    Syntax(t) && HasAt(buf, pos, Print(t)) && Ends(k, t, buf, pos + |Print(t)|) && Interp(k, t, depth) == Some(v)
  }

  /** A decoder returns v and stops at end exactly when a printed tree that means v stands there. */
  lemma DecodeExact(k: Kind, buf: bytes, pos: nat, depth: nat, v: Value, end: nat)
    requires pos <= |buf|
    ensures Decode(k, buf, pos, depth) == Parsed.Ok(v, end) <==>
            exists t :: Means(k, t, buf, pos, depth, v) && end == pos + |Print(t)|
  {
    hide HasAt, Decode, Interp, Syntax, Print;
    if Decode(k, buf, pos, depth) == Parsed.Ok(v, end) {
      var t := DecodeSound(k, buf, pos, depth);
      DecodeRead(k, t, buf, pos, depth);
      assert Means(k, t, buf, pos, depth, v);
    }
    if t :| Means(k, t, buf, pos, depth, v) && end == pos + |Print(t)| {
      DecodeRead(k, t, buf, pos, depth);
    }
  }

  /** Whenever a typed decoder and the skipper both accept from one offset, they stop at the same byte. */
  lemma TypedAndSkippedAgree(k: Kind, buf: bytes, pos: nat, depth: nat, skipDepth: nat)
    requires pos <= |buf| && Decode(k, buf, pos, depth).Ok? && Skip(buf, pos, skipDepth).Ok?
    ensures Decode(k, buf, pos, depth).pos == Skip(buf, pos, skipDepth).pos
  {
    hide HasAt, Decode, Skip, Syntax, Print, Carried;
    var t := DecodeSound(k, buf, pos, depth);
    SkipRead(t, buf, pos, skipDepth);
  }

  /** A text is blanks, one printed tree, and blanks. */
  ghost predicate IsText(k: Kind, buf: bytes, depth: nat, v: Value, lead: bytes, t: Json, trail: bytes) {
    && AllSpace(lead) && Syntax(t) && AllSpace(trail)
    && buf == lead + (Print(t) + trail)
    && Interp(k, t, depth) == Some(v)
  }

  /** The text is refused inside its value, not for what stands after it. */
  predicate Rejects(k: Kind, buf: bytes, depth: nat) {
    Decode(k, buf, SkipWs(buf, 0), depth).Refuse? && DecodeText(k, buf, depth).Refuse?
  }

  /** A printed text decodes to what its tree means. */
  lemma TextRead(k: Kind, buf: bytes, depth: nat, lead: bytes, t: Json, trail: bytes)
    requires AllSpace(lead) && Syntax(t) && AllSpace(trail) && buf == lead + (Print(t) + trail)
    ensures match Interp(k, t, depth)
            case Some(v) => DecodeText(k, buf, depth) == Parsed.Ok(v, |buf|)
            case None => Rejects(k, buf, depth)
  {
    hide HasAt, Decode, Interp, Syntax, Print, SkipWs;
    PrintNonEmpty(t);
    assert buf[0..] == buf;
    HasAtSlice(buf, 0, |buf|);
    assert buf[0..|buf|] == buf;
    Framed(buf, 0, lead, Print(t), trail);
    DecodeRead(k, t, buf, |lead|, depth);
  }

  /** A whole text is accepted with value v exactly when it is blanks around a printed tree that means v. */
  lemma DecodeTextExact(k: Kind, buf: bytes, depth: nat, v: Value)
    ensures DecodeText(k, buf, depth).Ok? && DecodeText(k, buf, depth).value == v <==>
            exists lead, t, trail :: IsText(k, buf, depth, v, lead, t, trail)
  {
    hide DecodeText, IsText;
    if DecodeText(k, buf, depth).Ok? && DecodeText(k, buf, depth).value == v {
      var lead, t, trail := TextSound(k, buf, depth, v);
    }
    if lead, t, trail :| IsText(k, buf, depth, v, lead, t, trail) {
      TextMeans(k, buf, depth, v, lead, t, trail);
    }
  }

  lemma TextSound(k: Kind, buf: bytes, depth: nat, v: Value) returns (lead: bytes, t: Json, trail: bytes)
    requires DecodeText(k, buf, depth).Ok? && DecodeText(k, buf, depth).value == v
    ensures IsText(k, buf, depth, v, lead, t, trail)
  {
    hide HasAt, Decode, Interp, Syntax, Print, SkipWs, AllSpace;
    lead := BlanksAt(buf, 0);
    t := DecodeSound(k, buf, |lead|, depth);
    DecodeRead(k, t, buf, |lead|, depth);
    trail := BlanksAt(buf, |lead| + |Print(t)|);
    JoinThree(buf, 0, lead, Print(t), trail);
    HasAtWhole(buf, lead + (Print(t) + trail));
  }

  lemma TextMeans(k: Kind, buf: bytes, depth: nat, v: Value, lead: bytes, t: Json, trail: bytes)
    requires IsText(k, buf, depth, v, lead, t, trail)
    ensures DecodeText(k, buf, depth).Ok? && DecodeText(k, buf, depth).value == v
  {
    hide DecodeText, Interp, Syntax, Print, AllSpace;
    TextRead(k, buf, depth, lead, t, trail);
  }

  lemma HasAtWhole(buf: bytes, part: bytes)
    requires HasAt(buf, 0, part) && |part| == |buf|
    ensures buf == part
  {
    assert buf[0..|buf|] == buf;
  }
}
