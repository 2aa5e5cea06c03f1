/**
 Record shapes as data, and what the generated encoders and decoders do for
 every shape. A shape gives each field its wire name, its kind and when an
 encoder leaves it out.
 */
module Schema {
  import opened Basics
  import opened Bytes
  import opened Utf8
  import opened Scan
  import opened Grammar
  import opened Numerals
  import Timestamp

  /** never: always written and required. zero: left out at its zero value. absent: left out when nil. */
  datatype Omit = Never | AtZero | WhenAbsent

  datatype Field = Field(name: ascii, kind: Kind, omit: Omit)

  datatype Kind =
    | KStr
    | KBool
    | KInt(lo: int64, hi: int64)
    | KTime
    | KEnum(words: seq<ascii>)
    | KRaw
    | KList(elem: Kind)
    | KRecord(fields: seq<Field>, open: bool)

  /** A field's value. A closed enum is the private tag counted from 1; VNone is a nil pointer. */
  datatype Value =
    | VStr(s: bytes)
    | VBool(b: bool)
    | VInt(n: int)
    | VEnum(tag: nat)
    | VRaw(text: bytes)
    | VList(items: seq<Value>)
    | VRecord(fields: seq<Value>)
    | VNone

  // ---- Shapes ----

  function IndexOf(fields: seq<Field>, key: bytes): (i: int)
    ensures -1 <= i < |fields|
    ensures i >= 0 ==> Ascii(fields[i].name) == key
    ensures i < 0 ==> forall j :: 0 <= j < |fields| ==> Ascii(fields[j].name) != key
  {
    if |fields| == 0 then -1
    else if Ascii(fields[|fields| - 1].name) == key then |fields| - 1
    else IndexOf(fields[..|fields| - 1], key)
  }

  function WordIndex(words: seq<ascii>, word: bytes): (i: int)
    ensures -1 <= i < |words|
    ensures i >= 0 ==> Ascii(words[i]) == word
    ensures i < 0 ==> forall j :: 0 <= j < |words| ==> Ascii(words[j]) != word
  {
    if |words| == 0 then -1
    else if Ascii(words[|words| - 1]) == word then |words| - 1
    else WordIndex(words[..|words| - 1], word)
  }

  function Zero(k: Kind): Value {
    match k
    case KStr => VStr([])
    case KBool => VBool(false)
    case KInt(_, _) => VInt(0)
    case KTime => VStr([])
    case KEnum(_) => VEnum(0)
    case KRaw => VRaw([])
    case KList(_) => VList([])
    case KRecord(fields, _) => VRecord(Zeros(fields))
  }

  /** What a decoder's new record holds before any field is read. */
  function Zeros(fields: seq<Field>): (vs: seq<Value>)
    ensures |vs| == |fields|
  {
    if |fields| == 0 then [] else [if fields[0].omit.WhenAbsent? then VNone else Zero(fields[0].kind)] + Zeros(fields[1..])
  }

  // ---- Decoding ----

  function Required(fields: seq<Field>): set<nat> {
    set i: nat | i < |fields| && fields[i].omit.Never?
  }

  /** The record being read: which fields were seen, and what they hold. */
  datatype Partial = Partial(seen: set<nat>, values: seq<Value>)

  function Decode(k: Kind, buf: bytes, pos: nat, depth: nat): (r: Parsed<Value>)
    requires pos <= |buf|
    ensures Advances(r, pos, buf)
    decreases k, 2, 0
  {
    match k
    case KStr =>
      (match Str(buf, pos) case Ok(s, p) => Parsed.Ok(VStr(s), p) case Refuse(w, at) => Refuse(w, at))
    case KBool =>
      (match Boolean(buf, pos) case Ok(b, p) => Parsed.Ok(VBool(b), p) case Refuse(w, at) => Refuse(w, at))
    case KInt(lo, hi) =>
      (match Integer(buf, pos, lo, hi) case Ok(n, p) => Parsed.Ok(VInt(n), p) case Refuse(w, at) => Refuse(w, at))
    case KTime =>
      (match Str(buf, pos)
       case Ok(s, p) => if Timestamp.Normalized(s) == [] then Refuse(BadTimestamp, pos) else Parsed.Ok(VStr(s), p)
       case Refuse(w, at) => Refuse(w, at))
    case KEnum(words) =>
      (match Str(buf, pos)
       case Ok(s, p) => if WordIndex(words, s) < 0 then Refuse(BadEnum, p) else Parsed.Ok(VEnum(WordIndex(words, s) + 1), p)
       case Refuse(w, at) => Refuse(w, at))
    case KRaw =>
      (match Skip(buf, pos, depth)
       case Ok(_, p) => Parsed.Ok(VRaw(buf[pos..p]), p)
       case Refuse(w, at) => Refuse(w, at))
    case KList(elem) => DecodeList(k, buf, pos, depth)
    case KRecord(fields, open) => DecodeRecord(k, buf, pos, depth)
  }

  function DecodeList(k: Kind, buf: bytes, pos: nat, depth: nat): (r: Parsed<Value>)
    requires k.KList? && pos <= |buf|
    ensures Advances(r, pos, buf)
    decreases k, 1, 0
  {
    if At(buf, pos) != LBRACKET then Refuse(WrongType, pos)
    else if depth + 1 > DEPTH_LIMIT then Refuse(DepthExceeded, pos)
    else
      var p := SkipWs(buf, pos + 1);
      if At(buf, p) == RBRACKET then Parsed.Ok(VList([]), p + 1)
      else
        match DecodeItems(k, buf, p, depth + 1, [])
        case Refuse(w, at) => Refuse(w, at)
        case Ok(vs, q) => if At(buf, q) == RBRACKET then Parsed.Ok(VList(vs), q + 1) else Refuse(Malformed, q)
  }

  /** The loop over a list's elements, out read so far. */
  function DecodeItems(k: Kind, buf: bytes, pos: nat, depth: nat, out: seq<Value>): (r: Parsed<seq<Value>>)
    requires k.KList? && pos <= |buf|
    ensures Advances(r, pos, buf)
    decreases k, 0, |buf| - pos
  {
    match Decode(k.elem, buf, SkipWs(buf, pos), depth)
    case Refuse(w, at) => Refuse(w, at)
    case Ok(v, e) =>
      var n := SkipWs(buf, e);
      if At(buf, n) == COMMA then DecodeItems(k, buf, n + 1, depth, out + [v]) else Parsed.Ok(out + [v], n)
  }

  function DecodeRecord(k: Kind, buf: bytes, pos: nat, depth: nat): (r: Parsed<Value>)
    requires k.KRecord? && pos <= |buf|
    ensures Advances(r, pos, buf)
    decreases k, 1, 0
  {
    if At(buf, pos) != LBRACE then Refuse(WrongType, pos)
    else if depth + 1 > DEPTH_LIMIT then Refuse(DepthExceeded, pos)
    else
      var p := SkipWs(buf, pos + 1);
      var start := Partial({}, Zeros(k.fields));
      match if At(buf, p) == RBRACE then Parsed.Ok(start, p) else DecodeMembers(k, buf, p, depth + 1, start)
      case Refuse(w, at) => Refuse(w, at)
      case Ok(part, q) =>
        if At(buf, q) != RBRACE then Refuse(Malformed, q)
        else if !(Required(k.fields) <= part.seen) then Refuse(MissingField, q + 1)
        else Parsed.Ok(VRecord(part.values), q + 1)
  }

  /** The loop over a record's members. */
  function DecodeMembers(k: Kind, buf: bytes, pos: nat, depth: nat, part: Partial): (r: Parsed<Partial>)
    requires k.KRecord? && pos <= |buf| && |part.values| == |k.fields|
    ensures Advances(r, pos, buf)
    ensures r.Ok? ==> |r.value.values| == |k.fields|
    decreases k, 0, |buf| - pos
  {
    match KeyAt(buf, SkipWs(buf, pos))
    case Refuse(w, at) => Refuse(w, at)
    case Ok(key, v) =>
      match DecodeField(k, key, buf, v, depth, part)
      case Refuse(w, at) => Refuse(w, at)
      case Ok(next, e) =>
        var n := SkipWs(buf, e);
        if At(buf, n) == COMMA then DecodeMembers(k, buf, n + 1, depth, next) else Parsed.Ok(next, n)
  }

  /** The switch on a member's key. */
  function DecodeField(k: Kind, key: bytes, buf: bytes, pos: nat, depth: nat, part: Partial): (r: Parsed<Partial>)
    requires k.KRecord? && pos <= |buf| && |part.values| == |k.fields|
    ensures Advances(r, pos, buf)
    ensures r.Ok? ==> |r.value.values| == |k.fields|
    decreases k, 0, 0
  {
    var i := IndexOf(k.fields, key);
    if i >= 0 then
      if i in part.seen then Refuse(DuplicateField, pos)
      else
        match Decode(k.fields[i].kind, buf, pos, depth)
        case Refuse(w, at) => Refuse(w, at)
        case Ok(x, p) => Parsed.Ok(Partial(part.seen + {i}, part.values[i := x]), p)
    else if k.open then
      match Skip(buf, pos, depth)
      case Refuse(w, at) => Refuse(w, at)
      case Ok(_, p) => Parsed.Ok(part, p)
    else Refuse(UnknownField, pos)
  }

  /** A whole buffer holding one value and blanks around it, read at a starting depth. */
  function DecodeText(k: Kind, buf: bytes, depth: nat): (r: Parsed<Value>) {
    match Decode(k, buf, SkipWs(buf, 0), depth)
    case Refuse(w, at) => Refuse(w, at)
    case Ok(v, e) => if SkipWs(buf, e) != |buf| then Refuse(TrailingBytes, SkipWs(buf, e)) else Parsed.Ok(v, SkipWs(buf, e))
  }

  // ---- What a tree means for a kind ----

  /** The value a kind gives a syntax tree, with no buffer and no offset; None for a tree it refuses. */
  function Interp(k: Kind, t: Json, depth: nat): (v: Option<Value>)
    requires Syntax(t)
    decreases t, 1
  {
    match k
    case KStr => if t.Text? && ValidUtf8(UnitsValue(t.units)) then Some(VStr(UnitsValue(t.units))) else None
    case KBool => if t.True? then Some(VBool(true)) else if t.False? then Some(VBool(false)) else None
    case KInt(lo, hi) =>
      if t.Num? && IsInteger(t.n) && lo <= IntegerValue(t.n) <= hi then Some(VInt(IntegerValue(t.n))) else None
    case KTime =>
      if t.Text? && ValidUtf8(UnitsValue(t.units)) && Timestamp.Normalized(UnitsValue(t.units)) != []
      then Some(VStr(UnitsValue(t.units))) else None
    case KEnum(words) =>
      if t.Text? && ValidUtf8(UnitsValue(t.units)) && WordIndex(words, UnitsValue(t.units)) >= 0
      then Some(VEnum(WordIndex(words, UnitsValue(t.units)) + 1)) else None
    case KRaw => if Carried(t, depth) then Some(VRaw(Print(t))) else None
    case KList(elem) =>
      if t.Arr? && depth < DEPTH_LIMIT then
        match InterpItems(elem, t.items, depth + 1, [])
        case Some(vs) => Some(VList(vs))
        case None => None
      else None
    case KRecord(fields, open) =>
      if t.Obj? && depth < DEPTH_LIMIT then
        match InterpMembers(k, t.members, depth + 1, Partial({}, Zeros(fields)))
        case Some(part) => if Required(fields) <= part.seen then Some(VRecord(part.values)) else None
        case None => None
      else None
  }

  function InterpItems(elem: Kind, items: seq<Item>, depth: nat, out: seq<Value>): (vs: Option<seq<Value>>)
    requires ItemsSyntax(items)
    decreases items, 0
  {
    if |items| == 0 then Some(out)
    else
      match Interp(elem, items[0].value, depth)
      case Some(v) => InterpItems(elem, items[1..], depth, out + [v])
      case None => None
  }

  /** One member read into the record. */
  function InterpMember(k: Kind, m: Member, depth: nat, part: Partial): (next: Option<Partial>)
    requires k.KRecord? && UnitsOk(m.key) && Syntax(m.value) && |part.values| == |k.fields|
    ensures next.Some? ==> |next.value.values| == |k.fields|
    decreases m, 2
  {
    var i := IndexOf(k.fields, KeyOf(m));
    if !ValidUtf8(KeyOf(m)) then None
    else if i >= 0 then
      if i in part.seen then None
      else
        match Interp(k.fields[i].kind, m.value, depth)
        case Some(x) => Some(Partial(part.seen + {i}, part.values[i := x]))
        case None => None
    else if k.open && Carried(m.value, depth) then Some(part)
    else None
  }

  function InterpMembers(k: Kind, members: seq<Member>, depth: nat, part: Partial): (last: Option<Partial>)
    requires k.KRecord? && MembersSyntax(members) && |part.values| == |k.fields|
    ensures last.Some? ==> |last.value.values| == |k.fields|
    decreases members, 0
  {
    if |members| == 0 then Some(part)
    else
      match InterpMember(k, members[0], depth, part)
      case Some(next) => InterpMembers(k, members[1..], depth, next)
      case None => None
  }
}
