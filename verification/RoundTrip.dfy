/** The decoder undoes the encoder, for every shape the generator makes and every value of it. */
module RoundTrip {
  import opened Basics
  import opened Bytes
  import opened Utf8
  import opened Scan
  import opened Grammar
  import opened Tokens
  import opened Numerals
  import opened Skipper
  import opened Schema
  import opened Decoding
  import opened Encoding
  import Timestamp

  // ---- Panics ----

  /** An encoder panics exactly on a closed enum that is no member or a timestamp that names no time. */
  lemma {:induction false} EncodePanics(k: Kind, v: Value, depth: nat)
    requires WellFormed(k) && Shaped(k, v) && !Writable(k, v)
    ensures Encode(k, v, depth).Panic?
    decreases k, 2, 0
  {
    hide EncodeItems, EncodeFields, Timestamp.Normalized;
    match k
    case KList(elem) =>
      ItemsPanic(k, v.items, depth);
    case KRecord(fields, _) =>
      var i :| 0 <= i < |fields| && !FieldWritable(k, i, v.fields[i]);
      FieldsPanic(k, v.fields, 0, i, depth);
    case _ =>
  }

  lemma {:induction false} ItemsPanic(k: Kind, items: seq<Value>, depth: nat)
    requires k.KList? && WellFormed(k) && (forall x :: x in items ==> Shaped(k.elem, x)) && !(forall x :: x in items ==> Writable(k.elem, x))
    ensures EncodeItems(k, items, depth).Panic?
    decreases k, 1, |items|
  {
    hide Encode, Pad;
    if !Writable(k.elem, items[0]) {
      EncodePanics(k.elem, items[0], depth + 1);
    } else {
      ItemsPanic(k, items[1..], depth);
    }
  }

  lemma {:induction false} FieldsPanic(k: Kind, vs: seq<Value>, i: nat, bad: nat, depth: nat)
    requires k.KRecord? && WellFormed(k) && |vs| == |k.fields| && i <= bad < |vs|
    requires forall j :: 0 <= j < |vs| ==> FieldShaped(k, j, vs[j])
    requires !FieldWritable(k, bad, vs[bad])
    ensures EncodeFields(k, vs, i, depth).Panic?
    decreases k, 1, bad - i
  {
    hide Encode, FieldLead, Writable;
    if i == bad {
      assert FieldShaped(k, i, vs[i]) && FieldWellFormed(k, i);
      if Omitted(k.fields[i], vs[i]) {
        ZeroIsWritable(k.fields[i].kind, vs[i]);
      } else {
        EncodePanics(k.fields[i].kind, vs[i], depth + 1);
      }
    } else {
      FieldsPanic(k, vs, i + 1, bad, depth);
    }
  }

  lemma ZeroIsWritable(k: Kind, v: Value)
    requires Shaped(k, v) && (k.KStr? || k.KBool? || k.KInt? || k.KList?)
    requires v == VStr([]) || v == VBool(false) || v == VInt(0) || v == VList([])
    ensures Writable(k, v) && v == Zero(k)
  {
  }

  // ---- What is read back ----

  /** Every written string is UTF-8, every raw value is carried, and no container opens below the limit. */
  ghost predicate Acceptable(k: Kind, v: Value, depth: nat)
    requires Shaped(k, v)
    decreases k, 1
  {
    match k
    case KStr => ValidUtf8(v.s)
    case KRaw => Carried(RawTree(v.text), depth)
    case KList(elem) => depth < DEPTH_LIMIT && forall x :: x in v.items ==> Acceptable(elem, x, depth + 1)
    case KRecord(fields, _) => depth < DEPTH_LIMIT && forall i :: 0 <= i < |fields| ==> FieldAcceptable(k, i, v.fields[i], depth + 1)
    case _ => true
  }

  ghost predicate FieldAcceptable(k: Kind, i: nat, x: Value, depth: nat)
    requires k.KRecord? && i < |k.fields| && FieldShaped(k, i, x)
    decreases k, 0
  {
    Omitted(k.fields[i], x) || x.VNone? || Acceptable(k.fields[i].kind, x, depth)
  }

  /** The value read back: the one written, with its timestamps normalised. */
  function Norm(k: Kind, v: Value): Value
    requires Shaped(k, v)
    decreases k, 1
  {
    match k
    case KTime => VStr(Timestamp.Normalized(v.s))
    case KList(elem) => VList(NormItems(k, v.items))
    case KRecord(fields, _) => VRecord(seq(|fields|, i requires 0 <= i < |fields| => NormField(k, i, v.fields[i])))
    case _ => v
  }

  function NormItems(k: Kind, items: seq<Value>): (out: seq<Value>)
    requires k.KList? && forall x :: x in items ==> Shaped(k.elem, x)
    ensures |out| == |items|
    decreases k, 0, |items|
  {
    if |items| == 0 then [] else [Norm(k.elem, items[0])] + NormItems(k, items[1..])
  }

  function NormField(k: Kind, i: nat, x: Value): Value
    requires k.KRecord? && i < |k.fields| && FieldShaped(k, i, x)
    decreases k, 0, 0
  {
    if Omitted(k.fields[i], x) then x else Norm(k.fields[i].kind, x)
  }

  lemma {:induction false} ResultIsUtf8(s: bytes)
    requires Timestamp.Normalized(s) != []
    ensures ValidUtf8(Timestamp.Normalized(s))
  {
    hide Timestamp.Normalized;
    Timestamp.NormalizedShows(s);
    var r := Timestamp.Normalized(s);
    ShapeIsAscii(r);
    AsciiFromValid(r, 0);
  }

  lemma ShapeIsAscii(r: bytes)
    requires Timestamp.Shape(r)
    ensures forall j :: 0 <= j < |r| ==> r[j] < 0x80
  {
  }

  lemma {:induction false} WordIndexOf(words: seq<ascii>, i: nat)
    requires i < |words| && forall a, b :: 0 <= a < b < |words| ==> words[a] != words[b]
    ensures WordIndex(words, Ascii(words[i])) == i
  {
    if i < |words| - 1 {
      if Ascii(words[|words| - 1]) == Ascii(words[i]) {
        AsciiInjective(words[|words| - 1], words[i]);
        assert false;
      }
      WordIndexOf(words[..|words| - 1], i);
    }
  }

  lemma {:induction false} IndexOfName(fields: seq<Field>, i: nat)
    requires i < |fields| && forall a, b :: 0 <= a < b < |fields| ==> fields[a].name != fields[b].name
    ensures IndexOf(fields, Ascii(fields[i].name)) == i
  {
    if i < |fields| - 1 {
      if Ascii(fields[|fields| - 1].name) == Ascii(fields[i].name) {
        AsciiInjective(fields[|fields| - 1].name, fields[i].name);
        assert false;
      }
      IndexOfName(fields[..|fields| - 1], i);
    }
  }

  lemma {:induction false} ZerosAt(fields: seq<Field>, i: nat)
    requires i < |fields|
    ensures Zeros(fields)[i] == if fields[i].omit.WhenAbsent? then VNone else Zero(fields[i].kind)
  {
    if i > 0 {
      ZerosAt(fields[1..], i - 1);
    }
  }

  /** An omitted field is what a new record holds. */
  lemma OmittedIsZero(k: Kind, v: Value, i: nat)
    requires k.KRecord? && Printable(k, v) && i < |k.fields| && Omitted(k.fields[i], v.fields[i])
    ensures Zeros(k.fields)[i] == v.fields[i]
  {
    ZerosAt(k.fields, i);
    assert FieldShaped(k, i, v.fields[i]) && FieldWellFormed(k, i);
    if k.fields[i].omit.AtZero? {
      ZeroIsWritable(k.fields[i].kind, v.fields[i]);
    }
  }

  // ---- The tree's meaning ----

  lemma ScalarMeans(k: Kind, v: Value, indent: nat, depth: nat)
    requires !k.KList? && !k.KRecord? && Printable(k, v) && Syntax(TreeOf(k, v, indent))
    ensures Interp(k, TreeOf(k, v, indent), depth) == if Acceptable(k, v, depth) then Some(Norm(k, v)) else None
  {
    hide EscUnits, ValidUtf8, Timestamp.Normalized, NumberOf, WordIndex, Carried;
    match k
    case KStr => EscUnitsAreBytes(v.s);
    case KInt(_, _) => NumberOfValue(v.n);
    case KTime =>
      EscUnitsAreBytes(Timestamp.Normalized(v.s));
      ResultIsUtf8(v.s);
      Timestamp.NormalizedIdempotent(v.s);
    case KEnum(words) =>
      EscUnitsAreBytes(Ascii(words[v.tag - 1]));
      AsciiValid(words[v.tag - 1]);
      WordIndexOf(words, v.tag - 1);
    case _ =>
  }

  lemma {:induction false} TreeMeans(k: Kind, v: Value, indent: nat, depth: nat)
    requires Printable(k, v) && Syntax(TreeOf(k, v, indent))
    ensures Interp(k, TreeOf(k, v, indent), depth) == if Acceptable(k, v, depth) then Some(Norm(k, v)) else None
    decreases k, 3, 0
  {
    hide Interp, TreeOf, Acceptable, Norm, Syntax, Writable, Embeds, WellFormed, Shaped;
    match k
    case KList(_) => ListMeans(k, v, indent, depth);
    case KRecord(_, _) => RecordMeans(k, v, indent, depth);
    case _ => ScalarMeans(k, v, indent, depth);
  }

  lemma {:induction false} ListMeans(k: Kind, v: Value, indent: nat, depth: nat)
    requires k.KList? && Printable(k, v) && Syntax(TreeOf(k, v, indent))
    ensures Interp(k, TreeOf(k, v, indent), depth) == if Acceptable(k, v, depth) then Some(Norm(k, v)) else None
    decreases k, 2, 0
  {
    hide InterpItems, InterpMembers, ItemsOf, MembersOf, ItemsSyntax, MembersSyntax, NormItems;
    if depth < DEPTH_LIMIT {
      ItemsMean(k, v.items, indent, depth + 1, []);
      assert [] + NormItems(k, v.items) == NormItems(k, v.items);
    }
  }

  lemma {:induction false} ItemsMean(k: Kind, items: seq<Value>, indent: nat, depth: nat, out: seq<Value>)
    requires k.KList? && (forall x :: x in items ==> Shaped(k.elem, x)) && forall x :: x in items ==> Printable(k.elem, x)
    requires ItemsSyntax(ItemsOf(k, items, indent))
    ensures InterpItems(k.elem, ItemsOf(k, items, indent), depth, out) ==
            if forall x :: x in items ==> Acceptable(k.elem, x, depth) then Some(out + NormItems(k, items)) else None
    decreases k, 1, |items|
  {
    hide Interp, TreeOf, Acceptable, Norm, Syntax, AllSpace, Line, Writable, Embeds, WellFormed;
    var ts := ItemsOf(k, items, indent);
    if |items| == 0 {
      assert out + [] == out;
    } else {
      assert items[0] in items;
      var x, rest := items[0], items[1..];
      assert ts[1..] == ItemsOf(k, rest, indent);
      assert ts[0].value == TreeOf(k.elem, x, indent + 1);
      TreeMeans(k.elem, x, indent + 1, depth);
      ItemsMean(k, rest, indent, depth, out + [Norm(k.elem, x)]);
      assert (out + [Norm(k.elem, x)]) + NormItems(k, rest) == out + NormItems(k, items);
      assert forall y :: y in items <==> y == x || y in rest;
    }
  }

  /** The record once the fields before i are read. */
  function PartialAt(k: Kind, v: Value, i: nat): (part: Partial)
    requires k.KRecord? && Shaped(k, v) && i <= |k.fields|
    ensures |part.values| == |k.fields|
  {
    Partial(set j: nat | j < i && !Omitted(k.fields[j], v.fields[j]),
            seq(|k.fields|, j requires 0 <= j < |k.fields| => if j < i then NormField(k, j, v.fields[j]) else Zeros(k.fields)[j]))
  }

  lemma {:induction false} RecordMeans(k: Kind, v: Value, indent: nat, depth: nat)
    requires k.KRecord? && Printable(k, v) && Syntax(TreeOf(k, v, indent))
    ensures Interp(k, TreeOf(k, v, indent), depth) == if Acceptable(k, v, depth) then Some(Norm(k, v)) else None
    decreases k, 1, |k.fields| + 1
  {
    hide InterpMembers, MembersOf, MembersSyntax, NormField, Zeros, FieldAcceptable, Writable, Embeds, WellFormed;
    if depth < DEPTH_LIMIT {
      MembersMean(k, v, 0, indent, depth + 1);
      var start, last := PartialAt(k, v, 0), PartialAt(k, v, |k.fields|);
      assert start.seen == {};
      assert start.values == Zeros(k.fields);
      assert last.values == Norm(k, v).fields;
      assert Required(k.fields) <= last.seen;
    }
  }

  lemma {:induction false} MembersMean(k: Kind, v: Value, i: nat, indent: nat, depth: nat)
    requires k.KRecord? && Printable(k, v) && i <= |k.fields| && MembersSyntax(MembersOf(k, v.fields, i, indent))
    ensures InterpMembers(k, MembersOf(k, v.fields, i, indent), depth, PartialAt(k, v, i)) ==
            if forall j :: i <= j < |k.fields| ==> FieldAcceptable(k, j, v.fields[j], depth) then Some(PartialAt(k, v, |k.fields|)) else None
    decreases k, 1, |k.fields| - i
  {
    hide Interp, TreeOf, Acceptable, Norm, Syntax, AllSpace, Line, PartialAt, InterpMember, EscUnits, UnitsOk, Writable, Embeds, WellFormed;
    var ms := MembersOf(k, v.fields, i, indent);
    if i == |k.fields| {
      NoMembers(k, depth, PartialAt(k, v, i));
    } else {
      var rest := MembersOf(k, v.fields, i + 1, indent);
      if Omitted(k.fields[i], v.fields[i]) {
        MembersMean(k, v, i + 1, indent, depth);
        PartialSkips(k, v, i);
      } else {
        assert FieldShaped(k, i, v.fields[i]);
        assert ms == [MemberOf(k, i, v.fields[i], indent, rest == [])] + rest;
        assert ms[1..] == rest;
        MembersMean(k, v, i + 1, indent, depth);
        MemberMeans(k, v, i, indent, depth, ms[0]);
      }
    }
  }

  lemma PartialSkips(k: Kind, v: Value, i: nat)
    requires k.KRecord? && Printable(k, v) && i < |k.fields| && Omitted(k.fields[i], v.fields[i])
    ensures PartialAt(k, v, i + 1) == PartialAt(k, v, i)
    ensures FieldAcceptable(k, i, v.fields[i], 0)
  {
    hide Zeros, Norm, Writable, Embeds, WellFormed;
    OmittedIsZero(k, v, i);
    assert PartialAt(k, v, i + 1).seen == PartialAt(k, v, i).seen;
    assert PartialAt(k, v, i + 1).values == PartialAt(k, v, i).values;
  }

  lemma PartialTakes(k: Kind, v: Value, i: nat)
    requires k.KRecord? && Shaped(k, v) && i < |k.fields| && FieldShaped(k, i, v.fields[i]) && !Omitted(k.fields[i], v.fields[i])
    ensures i !in PartialAt(k, v, i).seen
    ensures Shaped(k.fields[i].kind, v.fields[i])
    ensures PartialAt(k, v, i + 1) ==
            Partial(PartialAt(k, v, i).seen + {i}, PartialAt(k, v, i).values[i := Norm(k.fields[i].kind, v.fields[i])])
  {
    hide Zeros, Norm;
    assert PartialAt(k, v, i + 1).seen == PartialAt(k, v, i).seen + {i};
    assert PartialAt(k, v, i + 1).values == PartialAt(k, v, i).values[i := Norm(k.fields[i].kind, v.fields[i])];
  }

  lemma {:induction false} MemberMeans(k: Kind, v: Value, i: nat, indent: nat, depth: nat, m: Member)
    requires k.KRecord? && Printable(k, v) && i < |k.fields| && FieldShaped(k, i, v.fields[i]) && !Omitted(k.fields[i], v.fields[i])
    requires m.key == EscUnits(Ascii(k.fields[i].name)) && UnitsOk(m.key)
    requires m.value == TreeOf(k.fields[i].kind, v.fields[i], indent + 1) && Syntax(m.value)
    ensures InterpMember(k, m, depth, PartialAt(k, v, i)) ==
            if FieldAcceptable(k, i, v.fields[i], depth) then Some(PartialAt(k, v, i + 1)) else None
    decreases k, 1, |k.fields| - i - 1
  {
    hide Interp, TreeOf, Acceptable, Norm, Syntax, AllSpace, PartialAt, EscUnits, UnitsOk, UnitsValue, Writable, Embeds, IndexOf, ValidUtf8;
    FieldPrintable(k, v, i);
    EscUnitsAreBytes(Ascii(k.fields[i].name));
    AsciiValid(k.fields[i].name);
    IndexOfName(k.fields, i);
    PartialTakes(k, v, i);
    TreeMeans(k.fields[i].kind, v.fields[i], indent + 1, depth);
  }

  // ---- The skipper on what the encoder writes ----

  lemma {:induction false} TreeCarried(k: Kind, v: Value, indent: nat, depth: nat)
    requires Printable(k, v) && Syntax(TreeOf(k, v, indent))
    ensures Carried(TreeOf(k, v, indent), depth) <==> Acceptable(k, v, depth)
    decreases k, 2, 0
  {
    hide ItemsCarried, MembersCarried, ItemsOf, MembersOf, EscUnits, ValidUtf8, Timestamp.Normalized, NumberOf, ItemsSyntax, MembersSyntax;
    match k
    case KStr => EscUnitsAreBytes(v.s);
    case KTime =>
      EscUnitsAreBytes(Timestamp.Normalized(v.s));
      ResultIsUtf8(v.s);
    case KEnum(words) =>
      EscUnitsAreBytes(Ascii(words[v.tag - 1]));
      AsciiValid(words[v.tag - 1]);
    case KList(elem) =>
      ItemsTreeCarried(k, v.items, indent, depth + 1);
    case KRecord(_, _) =>
      MembersTreeCarried(k, v, 0, indent, depth + 1, {});
    case _ =>
  }

  lemma {:induction false} ItemsTreeCarried(k: Kind, items: seq<Value>, indent: nat, depth: nat)
    requires k.KList? && (forall x :: x in items ==> Shaped(k.elem, x)) && forall x :: x in items ==> Printable(k.elem, x)
    requires ItemsSyntax(ItemsOf(k, items, indent))
    ensures ItemsCarried(ItemsOf(k, items, indent), depth) <==> forall x :: x in items ==> Acceptable(k.elem, x, depth)
    decreases k, 1, |items|
  {
    hide Carried, TreeOf, Acceptable, Syntax, AllSpace, Line, Writable, Embeds, WellFormed;
    var ts := ItemsOf(k, items, indent);
    if |items| > 0 {
      assert items[0] in items;
      var x, rest := items[0], items[1..];
      assert ts[1..] == ItemsOf(k, rest, indent);
      assert ts[0].value == TreeOf(k.elem, x, indent + 1);
      TreeCarried(k.elem, x, indent + 1, depth);
      ItemsTreeCarried(k, rest, indent, depth);
      assert forall y :: y in items <==> y == x || y in rest;
    }
  }

  lemma {:induction false} MembersTreeCarried(k: Kind, v: Value, i: nat, indent: nat, depth: nat, seen: set<bytes>)
    requires k.KRecord? && Printable(k, v) && i <= |k.fields| && MembersSyntax(MembersOf(k, v.fields, i, indent))
    requires forall j :: i <= j < |k.fields| ==> Ascii(k.fields[j].name) !in seen
    ensures MembersCarried(MembersOf(k, v.fields, i, indent), depth, seen) <==>
            forall j :: i <= j < |k.fields| ==> FieldAcceptable(k, j, v.fields[j], depth)
    decreases k, 1, |k.fields| - i
  {
    hide Carried, TreeOf, Acceptable, Syntax, AllSpace, Line, EscUnits, UnitsOk, UnitsValue, Writable, Embeds, ValidUtf8;
    if i < |k.fields| {
      var ms := MembersOf(k, v.fields, i, indent);
      var rest := MembersOf(k, v.fields, i + 1, indent);
      if Omitted(k.fields[i], v.fields[i]) {
        MembersTreeCarried(k, v, i + 1, indent, depth, seen);
        assert FieldAcceptable(k, i, v.fields[i], depth);
      } else {
        FieldPrintable(k, v, i);
        assert ms == [MemberOf(k, i, v.fields[i], indent, rest == [])] + rest;
        assert ms[1..] == rest;
        EscUnitsAreBytes(Ascii(k.fields[i].name));
        AsciiValid(k.fields[i].name);
        NamesApart(k.fields, i);
        TreeCarried(k.fields[i].kind, v.fields[i], indent + 1, depth);
        MembersTreeCarried(k, v, i + 1, indent, depth, seen + {Ascii(k.fields[i].name)});
        assert FieldAcceptable(k, i, v.fields[i], depth) <==> Acceptable(k.fields[i].kind, v.fields[i], depth);
      }
    }
  }

  lemma NamesApart(fields: seq<Field>, i: nat)
    requires i < |fields| && forall a, b :: 0 <= a < b < |fields| ==> fields[a].name != fields[b].name
    ensures forall j :: i < j < |fields| ==> Ascii(fields[j].name) != Ascii(fields[i].name)
  {
    forall j | i < j < |fields| ensures Ascii(fields[j].name) != Ascii(fields[i].name) {
      if Ascii(fields[j].name) == Ascii(fields[i].name) {
        AsciiInjective(fields[j].name, fields[i].name);
        assert false;
      }
    }
  }

  // ---- The round trip ----

  /**
   Encoding either panics, exactly on a value that is not writable, or writes a
   text the decoder reads back to the normalised value and consumes whole,
   blanks after it included. It refuses the text exactly when a string in it is
   not UTF-8 or a container is too deep. The skipper judges the text the same way.
   */
  lemma EncodeDecode(k: Kind, v: Value, indent: nat, depth: nat, trail: bytes)
    requires WellFormed(k) && Shaped(k, v) && Embeds(k, v) && AllSpace(trail)
    ensures match Encode(k, v, indent)
            case Panic(_) => !Writable(k, v)
            case Written(text) =>
              && Writable(k, v)
              && (if Acceptable(k, v, depth) then DecodeText(k, text + trail, depth) == Parsed.Ok(Norm(k, v), |text + trail|)
                  else Rejects(k, text + trail, depth))
  {
    hide Encode, Acceptable, DecodeText, Rejects, Interp, Syntax, Print, TreeOf, Writable, Norm;
    if !Writable(k, v) {
      EncodePanics(k, v, indent);
    } else {
      EncodePrints(k, v, indent);
      var t := TreeOf(k, v, indent);
      TreeMeans(k, v, indent, depth);
      NoSpace();
      assert [] + (Print(t) + trail) == Print(t) + trail;
      TextRead(k, Print(t) + trail, depth, [], t, trail);
    }
  }

  /** A written value standing anywhere in a buffer, with a byte after it that may follow a value. */
  lemma WrittenIsCarried(k: Kind, v: Value, indent: nat, depth: nat, buf: bytes, pos: nat)
    requires Printable(k, v) && Encode(k, v, indent).Written?
    requires HasAt(buf, pos, Encode(k, v, indent).text) && Closes(At(buf, pos + |Encode(k, v, indent).text|))
    ensures pos <= |buf|
    ensures if Acceptable(k, v, depth) then Skip(buf, pos, depth) == Parsed.Ok((), pos + |Encode(k, v, indent).text|)
            else Skip(buf, pos, depth).Refuse?
  {
    hide HasAt, Encode, Acceptable, Skip, Syntax, Print, TreeOf, Writable, Embeds, WellFormed, Carried;
    EncodePrints(k, v, indent);
    TreeCarried(k, v, indent, depth);
    SkipRead(TreeOf(k, v, indent), buf, pos, depth);
  }

  // ---- Shapes without timestamps, and how deep a shape goes ----

  predicate Timeless(k: Kind)
    decreases k
  {
    match k
    case KTime => false
    case KList(elem) => Timeless(elem)
    case KRecord(fields, _) => forall i :: 0 <= i < |fields| ==> Timeless(fields[i].kind)
    case _ => true
  }

  /** Nothing a timeless shape holds is changed by a round trip. */
  lemma {:induction false} TimelessUnchanged(k: Kind, v: Value)
    requires Timeless(k) && Shaped(k, v)
    ensures Norm(k, v) == v
    decreases k, 1
  {
    match k
    case KList(elem) => TimelessItems(k, v.items);
    case KRecord(fields, _) =>
      forall i | 0 <= i < |fields| ensures NormField(k, i, v.fields[i]) == v.fields[i] {
        assert FieldShaped(k, i, v.fields[i]);
        if !Omitted(fields[i], v.fields[i]) {
          TimelessUnchanged(fields[i].kind, v.fields[i]);
        }
      }
      assert Norm(k, v).fields == v.fields;
    case _ =>
  }

  lemma {:induction false} TimelessItems(k: Kind, items: seq<Value>)
    requires k.KList? && Timeless(k) && forall x :: x in items ==> Shaped(k.elem, x)
    ensures NormItems(k, items) == items
    decreases k, 0, |items|
  {
    if |items| > 0 {
      TimelessUnchanged(k.elem, items[0]);
      TimelessItems(k, items[1..]);
    }
  }

  /** A shape of strings, numbers and containers that fits under the depth limit from this depth on. */
  predicate Fits(k: Kind, depth: nat)
    decreases k
  {
    match k
    case KRaw => false
    case KList(elem) => depth < DEPTH_LIMIT && Fits(elem, depth + 1)
    case KRecord(fields, _) => depth < DEPTH_LIMIT && forall i :: 0 <= i < |fields| ==> Fits(fields[i].kind, depth + 1)
    case _ => true
  }

  /** Every string of the value is UTF-8. */
  predicate AllUtf8(k: Kind, v: Value)
    requires Shaped(k, v)
    decreases k, 1
  {
    match k
    case KStr => ValidUtf8(v.s)
    case KList(elem) => forall x :: x in v.items ==> AllUtf8(elem, x)
    case KRecord(fields, _) => forall i :: 0 <= i < |fields| ==> FieldUtf8(k, i, v.fields[i])
    case _ => true
  }

  predicate FieldUtf8(k: Kind, i: nat, x: Value)
    requires k.KRecord? && i < |k.fields| && FieldShaped(k, i, x)
    decreases k, 0
  {
    x.VNone? || AllUtf8(k.fields[i].kind, x)
  }

  /** For a shape that fits, a value is read back exactly when its strings are UTF-8. */
  lemma {:induction false} FittingIsUtf8(k: Kind, v: Value, depth: nat)
    requires WellFormed(k) && Shaped(k, v) && Fits(k, depth)
    ensures Acceptable(k, v, depth) <==> AllUtf8(k, v)
    ensures Embeds(k, v)
    decreases k
  {
    match k
    case KList(elem) =>
      forall x | x in v.items ensures (Acceptable(elem, x, depth + 1) <==> AllUtf8(elem, x)) && Embeds(elem, x) {
        FittingIsUtf8(elem, x, depth + 1);
      }
    case KRecord(fields, _) =>
      forall i | 0 <= i < |fields|
        ensures (FieldAcceptable(k, i, v.fields[i], depth + 1) <==> FieldUtf8(k, i, v.fields[i])) && FieldEmbeds(k, i, v.fields[i])
      {
        assert FieldShaped(k, i, v.fields[i]) && FieldWellFormed(k, i);
        if !v.fields[i].VNone? {
          FittingIsUtf8(fields[i].kind, v.fields[i], depth + 1);
          if Omitted(fields[i], v.fields[i]) {
            ZeroIsUtf8(fields[i].kind, v.fields[i]);
          }
        }
      }
    case _ =>
  }

  lemma ZeroIsUtf8(k: Kind, v: Value)
    requires Shaped(k, v) && (k.KStr? || k.KBool? || k.KInt? || k.KList?)
    requires v == VStr([]) || v == VBool(false) || v == VInt(0) || v == VList([])
    ensures AllUtf8(k, v)
  {
  }
}
