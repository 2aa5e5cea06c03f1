/**
 JSON texts as syntax trees, after sections 2 to 7 of RFC 8259. A tree keeps its
 blanks, so a text is one tree printed. This is the reference the reader is
 compared with; nothing here reads a buffer.
 */
module Grammar {
  import opened Basics
  import opened Bytes
  import opened Utf8
  import opened Scan

  // ---- Strings (section 7) ----

  /** One char of a string: an unescaped byte, a two-character escape, a \u escape, or a pair of them. */
  datatype Unit =
    | Plain(b: byte)
    | Short(letter: byte)
    | Hex(h: bytes)
    | Pair(hi: bytes, lo: bytes)
  {
    predicate Ok() {
      match this
      case Plain(b) => b >= 0x20 && b != QUOTE && b != BACKSLASH
      case Short(c) => ShortEscape(c) >= 0
      case Hex(h) => IsHex4(h) && IsScalar(Hex4Value(h))
      case Pair(hi, lo) => IsHex4(hi) && IsHex4(lo) && IsHighSurrogate(Hex4Value(hi)) && IsLowSurrogate(Hex4Value(lo))
    }

    function Text(): bytes {
      match this
      case Plain(b) => [b]
      case Short(c) => [BACKSLASH, c]
      case Hex(h) => [BACKSLASH, LOWER_U] + h
      case Pair(hi, lo) => [BACKSLASH, LOWER_U] + hi + [BACKSLASH, LOWER_U] + lo
    }

    /** The bytes the char stands for: its own, or the UTF-8 of the code point it escapes. */
    function Value(): bytes
      requires Ok()
    {
      match this
      case Plain(b) => [b]
      case Short(c) => [ShortEscape(c)]
      case Hex(h) => RuneBytes(Hex4Value(h))
      case Pair(hi, lo) => RuneBytes(JoinSurrogates(Hex4Value(hi), Hex4Value(lo)))
    }
  }

  predicate UnitsOk(us: seq<Unit>) {
    forall u :: u in us ==> u.Ok()
  }

  function UnitsText(us: seq<Unit>): bytes {
    if |us| == 0 then [] else us[0].Text() + UnitsText(us[1..])
  }

  function UnitsValue(us: seq<Unit>): bytes
    requires UnitsOk(us)
  {
    if |us| == 0 then [] else us[0].Value() + UnitsValue(us[1..])
  }

  function StringText(us: seq<Unit>): bytes {
    [QUOTE] + UnitsText(us) + [QUOTE]
  }

  // ---- Numbers (section 6) ----

  datatype Exponent = Exponent(mark: byte, sign: bytes, digits: bytes) {
    predicate Ok() {
      && (mark == LOWER_E || mark == UPPER_E)
      && (sign == [] || sign == [PLUS] || sign == [MINUS])
      && |digits| > 0 && AllDigits(digits)
    }

    function Text(): bytes {
      [mark] + sign + digits
    }
  }

  datatype Number = Number(neg: bool, whole: bytes, frac: Option<bytes>, exp: Option<Exponent>) {
    predicate Ok() {
      && |whole| > 0 && AllDigits(whole) && (whole[0] == ZERO ==> |whole| == 1)
      && (frac.Some? ==> |frac.value| > 0 && AllDigits(frac.value))
      && (exp.Some? ==> exp.value.Ok())
    }

    function SignText(): bytes {
      if neg then [MINUS] else []
    }

    function FracText(): bytes {
      if frac.Some? then [DOT] + frac.value else []
    }

    function ExpText(): bytes {
      if exp.Some? then exp.value.Text() else []
    }

    function Text(): bytes {
      SignText() + (whole + (FracText() + ExpText()))
    }

    /** The byte c after the number does not belong to it. */
    predicate EndsBefore(c: byte) {
      if exp.Some? then !IsDigit(c)
      else if frac.Some? then !IsDigit(c) && c != LOWER_E && c != UPPER_E
      else c != DOT && c != LOWER_E && c != UPPER_E && (whole != [ZERO] ==> !IsDigit(c))
    }
  }

  // ---- Values (sections 2 to 5) ----

  datatype Json =
    | True
    | False
    | Null
    | Num(n: Number)
    | Text(units: seq<Unit>)
    | Arr(lead: bytes, items: seq<Item>)
    | Obj(lead: bytes, members: seq<Member>)

  /** An element and the blanks on both sides of it. */
  datatype Item = Item(before: bytes, value: Json, after: bytes)

  datatype Member = Member(before: bytes, key: seq<Unit>, keyed: bytes, coloned: bytes, value: Json, after: bytes)

  predicate Syntax(t: Json) {
    match t
    case Num(n) => n.Ok()
    case Text(us) => UnitsOk(us)
    case Arr(lead, items) =>
      AllSpace(lead) && (|items| > 0 ==> lead == []) && ItemsSyntax(items)
    case Obj(lead, members) =>
      AllSpace(lead) && (|members| > 0 ==> lead == []) && MembersSyntax(members)
    case _ => true
  }

  predicate ItemsSyntax(items: seq<Item>) {
    |items| > 0 ==>
      && AllSpace(items[0].before) && Syntax(items[0].value) && AllSpace(items[0].after)
      && ItemsSyntax(items[1..])
  }

  predicate MembersSyntax(members: seq<Member>) {
    |members| > 0 ==>
      && BlanksOk(members[0]) && UnitsOk(members[0].key) && Syntax(members[0].value)
      && MembersSyntax(members[1..])
  }

  predicate BlanksOk(m: Member) {
    AllSpace(m.before) && AllSpace(m.keyed) && AllSpace(m.coloned) && AllSpace(m.after)
  }

  function Print(t: Json): (s: bytes)
  {
    match t
    case True => TRUE_TEXT
    case False => FALSE_TEXT
    case Null => NULL_TEXT
    case Num(n) => n.Text()
    case Text(us) => StringText(us)
    case Arr(lead, items) => [LBRACKET] + (lead + (ItemsText(items) + [RBRACKET]))
    case Obj(lead, members) => [LBRACE] + (lead + (MembersText(members) + [RBRACE]))
  }

  function ItemText(i: Item): bytes {
    i.before + (Print(i.value) + i.after)
  }

  /** What stands after an element: nothing, or a comma and the rest. */
  function ItemsText(items: seq<Item>): bytes {
    if |items| == 0 then []
    else ItemText(items[0]) + (if |items| == 1 then [] else [COMMA] + ItemsText(items[1..]))
  }

  function KeyText(m: Member): bytes {
    StringText(m.key) + (m.keyed + ([COLON] + m.coloned))
  }

  function MemberText(m: Member): bytes {
    m.before + (KeyText(m) + (Print(m.value) + m.after))
  }

  function MembersText(members: seq<Member>): bytes {
    if |members| == 0 then []
    else MemberText(members[0]) + (if |members| == 1 then [] else [COMMA] + MembersText(members[1..]))
  }

  // ---- What the skipper asks beyond the syntax ----

  /** The key a member decodes to. */
  function KeyOf(m: Member): bytes
    requires UnitsOk(m.key)
  {
    UnitsValue(m.key)
  }

  /**
   An opaque value the reader carries: every string well-formed, no object naming
   a key twice, and no container opened below the depth limit.
   */
  predicate Carried(t: Json, depth: nat)
    requires Syntax(t)
  {
    match t
    case Text(us) => ValidUtf8(UnitsValue(us))
    case Arr(_, items) => depth < DEPTH_LIMIT && ItemsCarried(items, depth + 1)
    case Obj(_, members) => depth < DEPTH_LIMIT && MembersCarried(members, depth + 1, {})
    case _ => true
  }

  predicate ItemsCarried(items: seq<Item>, depth: nat)
    requires ItemsSyntax(items)
  {
    |items| > 0 ==> Carried(items[0].value, depth) && ItemsCarried(items[1..], depth)
  }

  predicate MembersCarried(members: seq<Member>, depth: nat, seen: set<bytes>)
    requires MembersSyntax(members)
  {
    |members| > 0 ==>
      && ValidUtf8(KeyOf(members[0]))
      && KeyOf(members[0]) !in seen
      && Carried(members[0].value, depth)
      && MembersCarried(members[1..], depth, seen + {KeyOf(members[0])})
  }

  lemma PrintNonEmpty(t: Json)
    requires Syntax(t)
    ensures |Print(t)| > 0 && Print(t)[0] != 0 && !IsSpace(Print(t)[0])
    ensures Print(t)[0] != RBRACKET && Print(t)[0] != RBRACE && Print(t)[0] != COMMA && Print(t)[0] != COLON
  {
    if t.Num? {
      assert IsDigit(t.n.whole[0]);
    }
  }
}
