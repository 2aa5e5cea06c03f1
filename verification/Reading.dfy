/**
 The reader itself: a cursor over a buffer, moved by its methods. Every method
 is proved to return what the scanning and decoding functions say, to leave the
 cursor where they say, and on success to leave the depth as it found it.
 */
module Reading {
  import opened Basics
  import opened Bytes
  import opened Utf8
  import opened Scan
  import opened Schema
  import Timestamp

  /** The first i hexadecimal digits as a number. */
  ghost function Leading(h: bytes, i: nat): (u: int)
    requires i <= |h|
  {
    if i == 0 then 0 else Leading(h, i - 1) * 16 + HexValue(h[i - 1])
  }

  lemma LeadingFour(h: bytes)
    requires |h| == 4 && forall j :: 0 <= j < 4 ==> HexValue(h[j]) >= 0
    ensures IsHex4(h) && Leading(h, 4) == Hex4Value(h)
  {
    hide HexValue;
    assert Leading(h, 1) == HexValue(h[0]);
    assert Leading(h, 2) == Leading(h, 1) * 16 + HexValue(h[1]);
    assert Leading(h, 3) == Leading(h, 2) * 16 + HexValue(h[2]);
  }

  class Reader {
    const buf: bytes
    var pos: nat
    var depth: nat

    constructor (buf: bytes, depth: nat)
      ensures Valid() && this.buf == buf && pos == 0 && this.depth == depth
    {
      this.buf := buf;
      this.pos := 0;
      this.depth := depth;
    }

    ghost predicate Valid()
      reads this
    {
      pos <= |buf|
    }

    /** The cursor stands where the result says: after the token, or at the byte the refusal names. */
    ghost predicate Stands<T>(r: Parsed<T>)
      reads this
    {
      match r
      case Ok(_, p) => pos == p
      case Refuse(_, at) => pos == at
    }

    method Peek() returns (c: byte)
      requires Valid()
      ensures c == At(buf, pos)
    {
      if pos < |buf| {
        return buf[pos];
      }
      return 0;
    }

    method Ws()
      requires Valid()
      modifies `pos
      ensures Valid() && pos == SkipWs(buf, old(pos))
    {
      while pos < |buf|
        invariant Valid() && SkipWs(buf, pos) == SkipWs(buf, old(pos))
        decreases |buf| - pos
      {
        if buf[pos] != SPACE && buf[pos] != TAB && buf[pos] != LF && buf[pos] != CR {
          return;
        }
        pos := pos + 1;
      }
    }

    /** Opens a container, or refuses one level too many. */
    method Enter() returns (ok: bool)
      modifies `depth
      ensures depth == old(depth) + 1 && ok == (depth <= DEPTH_LIMIT)
    {
      depth := depth + 1;
      ok := depth <= DEPTH_LIMIT;
    }

    // ---- Strings ----

    method FourHex() returns (r: Parsed<nat>)
      requires Valid()
      modifies `pos
      ensures Valid() && r == Hex4(buf, old(pos)) && Stands(r)
    {
      if pos + 4 > |buf| {
        return Refuse(BadString, pos);
      }
      ghost var h := buf[pos..pos + 4];
      var u: int := 0;
      for i := 0 to 4
        invariant u == Leading(h, i) && (forall j :: 0 <= j < i ==> HexValue(h[j]) >= 0)
      {
        var c := buf[pos + i];
        assert c == h[i];
        if '0' as int <= c <= '9' as int {
          u := u * 16 + (c - '0' as int);
        } else if 'a' as int <= c <= 'f' as int {
          u := u * 16 + (c - 'a' as int + 10);
        } else if 'A' as int <= c <= 'F' as int {
          u := u * 16 + (c - 'A' as int + 10);
        } else {
          assert HexValue(h[i]) < 0 && h[i] in h;
          return Refuse(BadString, pos);
        }
      }
      LeadingFour(h);
      pos := pos + 4;
      r := Parsed.Ok(u, pos);
    }

    method ReadEscape(out: bytes) returns (r: Parsed<bytes>)
      requires Valid() && pos < |buf| && buf[pos] == BACKSLASH
      modifies `pos
      ensures Valid() && Stands(r)
      ensures r == match Escape(buf, old(pos)) case Ok(b, p) => Parsed.Ok(out + b, p) case Refuse(w, at) => Refuse(w, at)
    {
      hide EscapeHex;
      pos := pos + 1;
      if pos >= |buf| {
        return Refuse(Malformed, pos);
      }
      var c := buf[pos];
      pos := pos + 1;
      if c == QUOTE || c == BACKSLASH || c == SLASH {
        return Parsed.Ok(out + [c], pos);
      } else if c == LOWER_B {
        return Parsed.Ok(out + [BACKSPACE], pos);
      } else if c == LOWER_F {
        return Parsed.Ok(out + [FORMFEED], pos);
      } else if c == LOWER_N {
        return Parsed.Ok(out + [LF], pos);
      } else if c == LOWER_R {
        return Parsed.Ok(out + [CR], pos);
      } else if c == LOWER_T {
        return Parsed.Ok(out + [TAB], pos);
      } else if c != LOWER_U {
        return Refuse(BadString, pos);
      }
      var rune := ReadRune();
      r := if rune.Ok? then Parsed.Ok(out + rune.value, pos) else rune;
    }

    /** What follows \u: a code point, or a pair of surrogates, as the UTF-8 of it. */
    method ReadRune() returns (r: Parsed<bytes>)
      requires Valid()
      modifies `pos
      ensures Valid() && r == EscapeHex(buf, old(pos)) && Stands(r)
    {
      hide Hex4, RuneBytes;
      var first := FourHex();
      if first.Refuse? {
        return Refuse(first.word, first.at);
      }
      var u: nat := first.value;
      if 0xDC00 <= u <= 0xDFFF {
        return Refuse(BadString, pos);
      }
      if 0xD800 <= u <= 0xDBFF {
        if pos + 1 >= |buf| || buf[pos] != BACKSLASH || buf[pos + 1] != LOWER_U {
          return Refuse(BadString, pos);
        }
        pos := pos + 2;
        var second := FourHex();
        if second.Refuse? {
          return Refuse(second.word, second.at);
        }
        var lo: nat := second.value;
        if lo < 0xDC00 || lo > 0xDFFF {
          return Refuse(BadString, pos);
        }
        u := 0x10000 + (u - 0xD800) * 0x400 + (lo - 0xDC00);
      }
      r := Parsed.Ok(RuneBytes(u), pos);
    }

    method String() returns (r: Parsed<bytes>)
      requires Valid()
      modifies `pos
      ensures Valid() && r == Str(buf, old(pos)) && Stands(r)
    {
      hide Escape, ValidUtf8;
      var c := Peek();
      if c != QUOTE {
        return Refuse(WrongType, pos);
      }
      pos := pos + 1;
      var out: bytes := [];
      while true
        invariant Valid() && StrBody(buf, pos, out) == Str(buf, old(pos))
        decreases |buf| - pos
      {
        if pos >= |buf| {
          return Refuse(Malformed, pos);
        }
        var c := buf[pos];
        if c == QUOTE {
          pos := pos + 1;
          var ok := Validate(out);
          return if ok then Parsed.Ok(out, pos) else Refuse(BadString, pos);
        } else if c < 0x20 {
          return Refuse(BadString, pos);
        } else if c == BACKSLASH {
          var more := ReadEscape(out);
          if more.Refuse? {
            return more;
          }
          out := more.value;
        } else {
          out := out + [c];
          pos := pos + 1;
        }
      }
    }

    // ---- Numbers and literals ----

    method ReadInteger(lo: int64, hi: int64) returns (r: Parsed<int64>)
      requires Valid()
      modifies `pos
      ensures Valid() && r == Integer(buf, old(pos), lo, hi) && Stands(r)
    {
      var c := Peek();
      if c != MINUS && (c < ZERO || c > NINE) {
        return Refuse(WrongType, pos);
      }
      var neg := c == MINUS;
      if neg {
        pos := pos + 1;
      }
      var d := Peek();
      if d < ZERO || d > NINE {
        return Refuse(Malformed, pos);
      }
      var u: uint64 := 0;
      ghost var start := pos;
      if d == ZERO {
        pos := pos + 1;
      } else {
        while ZERO <= d <= NINE
          invariant Valid() && start <= pos && d == At(buf, pos)
          invariant Accumulate(buf, pos, u) == Accumulate(buf, start, 0)
          decreases |buf| - pos
        {
          if u > LAST_TENTH {
            return Refuse(NumberSpelling, pos);
          }
          u := u * 10 + (d - ZERO);
          pos := pos + 1;
          d := Peek();
        }
      }
      assert Magnitude(buf, start) == Parsed.Ok(u, pos);
      var after := Peek();
      if after == DOT || after == LOWER_E || after == UPPER_E || ZERO <= after <= NINE {
        return Refuse(NumberSpelling, pos);
      }
      if neg && u == 0 {
        return Refuse(NumberSpelling, pos);
      }
      var n: int64;
      if neg && u == TWO63 {
        n := -TWO63;
      } else if u > TWO63 - 1 {
        return Refuse(NumberSpelling, pos);
      } else if neg {
        n := -(u as int);
      } else {
        n := u;
      }
      if n < lo || n > hi {
        return Refuse(NumberSpelling, pos);
      }
      r := Parsed.Ok(n, pos);
    }

    method ReadLiteral(word: bytes) returns (r: Parsed<()>)
      requires Valid() && |word| > 0
      modifies `pos
      ensures Valid() && r == Literal(buf, old(pos), word) && Stands(r)
    {
      if pos + |word| > |buf| || buf[pos..pos + |word|] != word {
        return Refuse(Malformed, pos);
      }
      pos := pos + |word|;
      r := Parsed.Ok((), pos);
    }

    method ReadBoolean() returns (r: Parsed<bool>)
      requires Valid()
      modifies `pos
      ensures Valid() && r == Boolean(buf, old(pos)) && Stands(r)
    {
      hide Literal;
      var c := Peek();
      if c == LOWER_T {
        var l := ReadLiteral(TRUE_TEXT);
        return if l.Ok? then Parsed.Ok(true, l.pos) else Refuse(l.word, l.at);
      } else if c == LOWER_F {
        var l := ReadLiteral(FALSE_TEXT);
        return if l.Ok? then Parsed.Ok(false, l.pos) else Refuse(l.word, l.at);
      }
      r := Refuse(WrongType, pos);
    }

    method Digits() returns (r: Parsed<()>)
      requires Valid()
      modifies `pos
      ensures Valid() && r == SomeDigits(buf, old(pos)) && Stands(r)
    {
      var n := 0;
      var c := Peek();
      while ZERO <= c <= NINE
        invariant Valid() && c == At(buf, pos) && pos == old(pos) + n
        invariant DigitsEnd(buf, pos) == DigitsEnd(buf, old(pos))
        decreases |buf| - pos
      {
        pos := pos + 1;
        n := n + 1;
        c := Peek();
      }
      r := if n == 0 then Refuse(NumberSpelling, pos) else Parsed.Ok((), pos);
    }

    method Number() returns (r: Parsed<()>)
      requires Valid()
      modifies `pos
      ensures Valid() && r == SkipNumber(buf, old(pos)) && Stands(r)
    {
      hide SkipFraction;
      var c := Peek();
      if c == MINUS {
        pos := pos + 1;
        c := Peek();
      }
      if c == ZERO {
        pos := pos + 1;
      } else if ZERO < c <= NINE {
        ghost var start := pos;
        while ZERO <= c <= NINE
          invariant Valid() && c == At(buf, pos) && DigitsEnd(buf, pos) == DigitsEnd(buf, start)
          decreases |buf| - pos
        {
          pos := pos + 1;
          c := Peek();
        }
      } else {
        return Refuse(NumberSpelling, pos);
      }
      r := FractionAndExponent();
    }

    method FractionAndExponent() returns (r: Parsed<()>)
      requires Valid()
      modifies `pos
      ensures Valid() && r == SkipFraction(buf, old(pos)) && Stands(r)
    {
      hide SomeDigits;
      var c := Peek();
      if c == DOT {
        pos := pos + 1;
        r := Digits();
        if r.Refuse? {
          return;
        }
      }
      assert SkipFraction(buf, old(pos)) == SkipExponent(buf, pos);
      c := Peek();
      if c == LOWER_E || c == UPPER_E {
        pos := pos + 1;
        c := Peek();
        if c == PLUS || c == MINUS {
          pos := pos + 1;
        }
        r := Digits();
        return;
      }
      r := Parsed.Ok((), pos);
    }

    // ---- The skipper ----

    method Value() returns (r: Parsed<()>)
      requires Valid()
      modifies `pos, `depth
      ensures Valid() && r == Skip(buf, old(pos), old(depth)) && Stands(r)
      ensures r.Ok? ==> depth == old(depth)
      decreases |buf| - pos, 1
    {
      hide Str, Literal, SkipNumber, SkipContainer;
      var c := Peek();
      if c == QUOTE {
        var s := String();
        return if s.Ok? then Parsed.Ok((), s.pos) else Refuse(s.word, s.at);
      } else if c == LBRACE || c == LBRACKET {
        r := ContainerValue();
      } else if c == LOWER_T {
        r := ReadLiteral(TRUE_TEXT);
      } else if c == LOWER_F {
        r := ReadLiteral(FALSE_TEXT);
      } else if c == LOWER_N {
        r := ReadLiteral(NULL_TEXT);
      } else if c == MINUS || ZERO <= c <= NINE {
        r := Number();
      } else {
        r := Refuse(Malformed, pos);
      }
    }

    method ContainerValue() returns (r: Parsed<()>)
      requires Valid() && pos < |buf| && (buf[pos] == LBRACE || buf[pos] == LBRACKET)
      modifies `pos, `depth
      ensures Valid() && r == SkipContainer(buf, old(pos), old(depth)) && Stands(r)
      ensures r.Ok? ==> depth == old(depth)
      decreases |buf| - pos, 0
    {
      hide Str, SkipWs, SkipItems, SkipMembers;
      var open := buf[pos];
      var shut := if open == LBRACKET then RBRACKET else RBRACE;
      var ok := Enter();
      if !ok {
        return Refuse(DepthExceeded, pos);
      }
      pos := pos + 1;
      Ws();
      var c := Peek();
      if c != shut {
        var inner := Elements(open);
        if inner.Refuse? {
          return inner;
        }
      }
      c := Peek();
      if c != shut {
        return Refuse(Malformed, pos);
      }
      pos := pos + 1;
      depth := depth - 1;
      r := Parsed.Ok((), pos);
    }

    /** The loop over an array's elements or an object's members. */
    method Elements(open: byte) returns (r: Parsed<()>)
      requires Valid()
      modifies `pos, `depth
      ensures Valid() && r == Rest(open, old(pos), old(depth), {}) && Stands(r)
      ensures r.Ok? ==> depth == old(depth)
      decreases |buf| - pos, 2
    {
      hide Str, SkipWs, Skip, SkipKey, Rest;
      var seen: set<bytes> := {};
      while true
        invariant Valid() && old(pos) <= pos && depth == old(depth)
        invariant Rest(open, pos, depth, seen) == Rest(open, old(pos), depth, {})
        decreases |buf| - pos
      {
        OneTurn(open, pos, depth, seen);
        Ws();
        if open == LBRACE {
          var key := MemberKey(seen);
          if key.Refuse? {
            return Refuse(key.word, key.at);
          }
          seen := seen + {key.value};
        }
        var value := Value();
        if value.Refuse? {
          return value;
        }
        Ws();
        var c := Peek();
        if c != COMMA {
          return Parsed.Ok((), pos);
        }
        pos := pos + 1;
      }
    }

    /** One turn of that loop, and what the rest of it makes of the buffer. */
    ghost function Turn(open: byte, p: nat, d: nat, seen: set<bytes>): Parsed<()>
      requires p <= |buf|
    {
      match if open == LBRACE then SkipKey(buf, SkipWs(buf, p), seen) else Parsed.Ok([], SkipWs(buf, p))
      case Refuse(word, at) => Refuse(word, at)
      case Ok(key, v) =>
        match Skip(buf, v, d)
        case Refuse(word, at) => Refuse(word, at)
        case Ok(_, e) =>
          var n := SkipWs(buf, e);
          if At(buf, n) == COMMA then Rest(open, n + 1, d, if open == LBRACE then seen + {key} else seen) else Parsed.Ok((), n)
    }

    lemma OneTurn(open: byte, p: nat, d: nat, seen: set<bytes>)
      requires p <= |buf|
      ensures Rest(open, p, d, seen) == Turn(open, p, d, seen)
    {
      hide SkipWs, SkipKey, Skip;
    }

    /** A key not seen before, and its colon. */
    method MemberKey(seen: set<bytes>) returns (r: Parsed<bytes>)
      requires Valid()
      modifies `pos
      ensures Valid() && r == SkipKey(buf, old(pos), seen) && Stands(r)
    {
      hide Str, SkipWs;
      var c := Peek();
      if c != QUOTE {
        return Refuse(Malformed, pos);
      }
      var key := String();
      if key.Refuse? {
        return key;
      }
      if key.value in seen {
        return Refuse(DuplicateKey, pos);
      }
      Ws();
      c := Peek();
      if c != COLON {
        return Refuse(Malformed, pos);
      }
      pos := pos + 1;
      Ws();
      r := Parsed.Ok(key.value, pos);
    }

    /** What the skipper's loop still has to make of the buffer. */
    ghost function Rest(open: byte, p: nat, d: nat, seen: set<bytes>): Parsed<()>
      requires p <= |buf|
    {
      if open == LBRACE then SkipMembers(buf, p, d, seen) else SkipItems(buf, p, d)
    }

    // ---- Typed values ----

    method Time() returns (r: Parsed<bytes>)
      requires Valid()
      modifies `pos
      ensures Valid() && Stands(r)
      ensures r == match Str(buf, old(pos))
                   case Refuse(w, at) => Refuse(w, at)
                   case Ok(s, p) => if Timestamp.Normalized(s) == [] then Refuse(BadTimestamp, old(pos)) else Parsed.Ok(s, p)
    {
      hide Str, Timestamp.Normalized;
      var start := pos;
      r := String();
      if r.Refuse? {
        return;
      }
      var normalized := Timestamp.Normalize(r.value);
      if normalized == [] {
        pos := start;
        return Refuse(BadTimestamp, pos);
      }
    }

    method DecodeKind(k: Kind) returns (r: Parsed<Value>)
      requires Valid()
      modifies `pos, `depth
      ensures Valid() && r == Decode(k, buf, old(pos), old(depth)) && Stands(r)
      ensures r.Ok? ==> depth == old(depth)
      decreases k, 2
    {
      hide Str, Skip, Integer, Boolean, DecodeList, DecodeRecord, Timestamp.Normalized, WordIndex;
      match k
      case KStr =>
        var s := String();
        r := if s.Ok? then Parsed.Ok(VStr(s.value), s.pos) else Refuse(s.word, s.at);
      case KBool =>
        var b := ReadBoolean();
        r := if b.Ok? then Parsed.Ok(VBool(b.value), b.pos) else Refuse(b.word, b.at);
      case KInt(lo, hi) =>
        var n := ReadInteger(lo, hi);
        r := if n.Ok? then Parsed.Ok(VInt(n.value), n.pos) else Refuse(n.word, n.at);
      case KTime =>
        var s := Time();
        r := if s.Ok? then Parsed.Ok(VStr(s.value), s.pos) else Refuse(s.word, s.at);
      case KEnum(words) =>
        var s := String();
        if s.Refuse? {
          return Refuse(s.word, s.at);
        }
        var i := WordIndex(words, s.value);
        r := if i < 0 then Refuse(BadEnum, pos) else Parsed.Ok(VEnum(i + 1), pos);
      case KRaw =>
        var start := pos;
        var v := Value();
        r := if v.Ok? then Parsed.Ok(VRaw(buf[start..pos]), pos) else Refuse(v.word, v.at);
      case KList(_) =>
        r := ListOf(k);
      case KRecord(_, _) =>
        r := Record(k);
    }

    method ListOf(k: Kind) returns (r: Parsed<Value>)
      requires k.KList? && Valid()
      modifies `pos, `depth
      ensures Valid() && r == DecodeList(k, buf, old(pos), old(depth)) && Stands(r)
      ensures r.Ok? ==> depth == old(depth)
      decreases k, 1
    {
      hide Decode, SkipWs, DecodeItems;
      var c := Peek();
      if c != LBRACKET {
        return Refuse(WrongType, pos);
      }
      var ok := Enter();
      if !ok {
        return Refuse(DepthExceeded, pos);
      }
      pos := pos + 1;
      var out: seq<Value> := [];
      Ws();
      c := Peek();
      if c != RBRACKET {
        var items := Items(k);
        if items.Refuse? {
          return Refuse(items.word, items.at);
        }
        out := items.value;
      }
      c := Peek();
      if c != RBRACKET {
        return Refuse(Malformed, pos);
      }
      pos := pos + 1;
      depth := depth - 1;
      r := Parsed.Ok(VList(out), pos);
    }

    method Items(k: Kind) returns (r: Parsed<seq<Value>>)
      requires k.KList? && Valid()
      modifies `pos, `depth
      ensures Valid() && r == DecodeItems(k, buf, old(pos), old(depth), []) && Stands(r)
      ensures r.Ok? ==> depth == old(depth)
      decreases k, 0
    {
      hide Decode, SkipWs, At, IsSpace, AllSpace;
      var out: seq<Value> := [];
      while true
        invariant Valid() && depth == old(depth)
        invariant DecodeItems(k, buf, pos, depth, out) == DecodeItems(k, buf, old(pos), depth, [])
        decreases |buf| - pos
      {
        Ws();
        var v := DecodeKind(k.elem);
        if v.Refuse? {
          return Refuse(v.word, v.at);
        }
        out := out + [v.value];
        Ws();
        var c := Peek();
        if c != COMMA {
          return Parsed.Ok(out, pos);
        }
        pos := pos + 1;
      }
    }

    method Record(k: Kind) returns (r: Parsed<Value>)
      requires k.KRecord? && Valid()
      modifies `pos, `depth
      ensures Valid() && r == DecodeRecord(k, buf, old(pos), old(depth)) && Stands(r)
      ensures r.Ok? ==> depth == old(depth)
      decreases k, 1
    {
      hide Decode, SkipWs, DecodeMembers, Zeros, Required;
      var c := Peek();
      if c != LBRACE {
        return Refuse(WrongType, pos);
      }
      var ok := Enter();
      if !ok {
        return Refuse(DepthExceeded, pos);
      }
      pos := pos + 1;
      var part := Partial({}, Zeros(k.fields));
      Ws();
      c := Peek();
      if c != RBRACE {
        var members := Members(k, part);
        if members.Refuse? {
          return Refuse(members.word, members.at);
        }
        part := members.value;
      }
      c := Peek();
      if c != RBRACE {
        return Refuse(Malformed, pos);
      }
      pos := pos + 1;
      depth := depth - 1;
      if !(Required(k.fields) <= part.seen) {
        return Refuse(MissingField, pos);
      }
      r := Parsed.Ok(VRecord(part.values), pos);
    }

    method Members(k: Kind, start: Partial) returns (r: Parsed<Partial>)
      requires k.KRecord? && Valid() && |start.values| == |k.fields|
      modifies `pos, `depth
      ensures Valid() && r == DecodeMembers(k, buf, old(pos), old(depth), start) && Stands(r)
      ensures r.Ok? ==> depth == old(depth)
      decreases k, 0
    {
      hide Decode, SkipWs, DecodeField, KeyAt, At, IsSpace, AllSpace, Zeros;
      var part := start;
      while true
        invariant Valid() && depth == old(depth) && |part.values| == |k.fields|
        invariant DecodeMembers(k, buf, pos, depth, part) == DecodeMembers(k, buf, old(pos), depth, start)
        decreases |buf| - pos
      {
        Ws();
        var key := Key();
        if key.Refuse? {
          return Refuse(key.word, key.at);
        }
        var next := FieldNamed(k, key.value, part);
        if next.Refuse? {
          return next;
        }
        part := next.value;
        Ws();
        var c := Peek();
        if c != COMMA {
          return Parsed.Ok(part, pos);
        }
        pos := pos + 1;
      }
    }

    method Key() returns (r: Parsed<bytes>)
      requires Valid()
      modifies `pos
      ensures Valid() && r == KeyAt(buf, old(pos)) && Stands(r)
    {
      hide Str, SkipWs;
      var c := Peek();
      if c != QUOTE {
        return Refuse(Malformed, pos);
      }
      var key := String();
      if key.Refuse? {
        return key;
      }
      Ws();
      c := Peek();
      if c != COLON {
        return Refuse(Malformed, pos);
      }
      pos := pos + 1;
      Ws();
      r := Parsed.Ok(key.value, pos);
    }

    method FieldNamed(k: Kind, key: bytes, part: Partial) returns (r: Parsed<Partial>)
      requires k.KRecord? && Valid() && |part.values| == |k.fields|
      modifies `pos, `depth
      ensures Valid() && r == DecodeField(k, key, buf, old(pos), old(depth), part) && Stands(r)
      ensures r.Ok? ==> depth == old(depth)
      decreases k, 0, 0
    {
      hide Decode, Skip, IndexOf;
      var i := IndexOf(k.fields, key);
      if i >= 0 {
        if i in part.seen {
          return Refuse(DuplicateField, pos);
        }
        var x := DecodeKind(k.fields[i].kind);
        if x.Refuse? {
          return Refuse(x.word, x.at);
        }
        return Parsed.Ok(Partial(part.seen + {i}, part.values[i := x.value]), pos);
      }
      if !k.open {
        return Refuse(UnknownField, pos);
      }
      var v := Value();
      if v.Refuse? {
        return Refuse(v.word, v.at);
      }
      r := Parsed.Ok(part, pos);
    }
  }

  /** A whole buffer holding one value. */
  method DecodeAll(k: Kind, buf: bytes, depth: nat) returns (r: Parsed<Value>)
    ensures r == DecodeText(k, buf, depth)
  {
    hide Decode, SkipWs;
    var reader := new Reader(buf, depth);
    reader.Ws();
    r := reader.DecodeKind(k);
    if r.Refuse? {
      return;
    }
    reader.Ws();
    r := if reader.pos != |buf| then Refuse(TrailingBytes, reader.pos) else Parsed.Ok(r.value, reader.pos);
  }
}
