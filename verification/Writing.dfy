/** The encoders themselves: loops appending to an output buffer, proved to write what Encode says. */
module Writing {
  import opened Bytes
  import opened Scan
  import opened Numerals
  import opened Schema
  import opened Encoding
  import Timestamp

  function Spaces(n: nat): bytes {
    if n == 0 then [] else Spaces(n - 1) + [SPACE]
  }

  lemma {:induction false} SpacesPad(depth: nat)
    ensures Spaces(depth * 2) == Pad(depth)
  {
    if depth > 0 {
      SpacesPad(depth - 1);
      SpacesFirst(depth * 2 - 2);
      assert Spaces(depth * 2) == (Spaces(depth * 2 - 2) + [SPACE]) + [SPACE];
      assert [SPACE, SPACE] + Spaces(depth * 2 - 2) == [SPACE] + ([SPACE] + Spaces(depth * 2 - 2));
    }
  }

  lemma {:induction false} SpacesFirst(n: nat)
    ensures [SPACE] + Spaces(n) == Spaces(n) + [SPACE]
  {
    if n > 0 {
      SpacesFirst(n - 1);
    }
  }

  method WritePad(out: bytes, depth: nat) returns (r: bytes)
    ensures r == out + Pad(depth)
  {
    r := out;
    for i := 0 to depth * 2
      invariant r == out + Spaces(i)
    {
      r := r + [SPACE];
    }
    SpacesPad(depth);
  }

  method WriteEscByte(out: bytes, c: byte) returns (r: bytes)
    ensures r == out + EscByte(c)
  {
    if c == QUOTE {
      return out + [BACKSLASH, QUOTE];
    } else if c == BACKSLASH {
      return out + [BACKSLASH, BACKSLASH];
    } else if c == BACKSPACE {
      return out + [BACKSLASH, LOWER_B];
    } else if c == FORMFEED {
      return out + [BACKSLASH, LOWER_F];
    } else if c == LF {
      return out + [BACKSLASH, LOWER_N];
    } else if c == CR {
      return out + [BACKSLASH, LOWER_R];
    } else if c == TAB {
      return out + [BACKSLASH, LOWER_T];
    }
    if c < 0x20 {
      return out + [BACKSLASH, LOWER_U, ZERO, ZERO, HexDigit(c / 16), HexDigit(c % 16)];
    }
    r := out + [c];
  }

  method WriteEsc(out: bytes, s: bytes) returns (r: bytes)
    ensures r == out + Esc(s)
  {
    hide EscByte;
    r := out + [QUOTE];
    for i := 0 to |s|
      invariant r + EscBytes(s[i..]) == (out + [QUOTE]) + EscBytes(s)
    {
      assert s[i..][0] == s[i] && s[i..][1..] == s[i + 1..];
      r := WriteEscByte(r, s[i]);
    }
    assert s[|s|..] == [] && r == (out + [QUOTE]) + EscBytes(s);
    r := r + [QUOTE];
    assert r == out + (([QUOTE] + EscBytes(s)) + [QUOTE]);
  }

  /** An encoder's text after the buffer it was given; a panic leaves none. */
  function After(out: bytes, e: Encoded): Encoded {
    match e
    case Written(text) => Written(out + text)
    case Panic(w) => Panic(w)
  }

  method WriteKind(out: bytes, k: Kind, v: Value, depth: nat) returns (r: Encoded)
    requires Shaped(k, v)
    ensures r == After(out, Encode(k, v, depth))
    decreases k, 2
  {
    hide EncodeItems, EncodeFields, Timestamp.Normalized, Esc, NumText;
    match k
    case KStr =>
      var text := WriteEsc(out, v.s);
      r := Written(text);
    case KBool =>
      r := Written(out + if v.b then TRUE_TEXT else FALSE_TEXT);
    case KInt(_, _) =>
      var text := Numerals.Num(out, v.n);
      r := Written(text);
    case KTime =>
      var s := Timestamp.Normalize(v.s);
      if s == [] {
        return Panic(BadTimestamp);
      }
      var text := WriteEsc(out, s);
      r := Written(text);
    case KEnum(words) =>
      if !Known(words, v) {
        return Panic(BadEnum);
      }
      var text := WriteEsc(out, Ascii(words[v.tag - 1]));
      r := Written(text);
    case KRaw =>
      r := Written(out + v.text);
    case KList(_) =>
      r := WriteList(out, k, v, depth);
    case KRecord(_, _) =>
      r := WriteRecord(out, k, v, depth);
  }

  method WriteList(out: bytes, k: Kind, v: Value, depth: nat) returns (r: Encoded)
    requires k.KList? && Shaped(k, v)
    ensures r == After(out, Encode(k, v, depth))
    decreases k, 1
  {
    hide Pad;
    if |v.items| == 0 {
      return Written(out + [LBRACKET, RBRACKET]);
    }
    var text := out + [LBRACKET, LF];
    for i := 0 to |v.items|
      invariant After(text, EncodeItems(k, v.items[i..], depth)) == After(out + [LBRACKET, LF], EncodeItems(k, v.items, depth))
    {
      hide Encode;
      assert v.items[i..][0] == v.items[i] && v.items[i..][1..] == v.items[i + 1..];
      assert v.items[i] in v.items;
      ghost var before := text;
      text := WritePad(text, depth + 1);
      var item := WriteKind(text, k.elem, v.items[i], depth + 1);
      if item.Panic? {
        return item;
      }
      text := item.text;
      if i + 1 < |v.items| {
        text := text + [COMMA];
      }
      text := text + [LF];
      if EncodeItems(k, v.items[i + 1..], depth).Written? {
        ItemAppended(before, Pad(depth + 1), Encode(k.elem, v.items[i], depth + 1).text,
                     if i + 1 < |v.items| then [COMMA] else [], EncodeItems(k, v.items[i + 1..], depth).text);
      }
    }
    assert After(text, EncodeItems(k, [], depth)) == Written(text);
    text := WritePad(text, depth);
    r := Written(text + [RBRACKET]);
    ListWrapped(out, EncodeItems(k, v.items, depth).text, Pad(depth));
  }

  lemma ListWrapped(out: bytes, items: bytes, pad: bytes)
    ensures out + ([LBRACKET, LF] + (items + (pad + [RBRACKET]))) == (((out + [LBRACKET, LF]) + items) + pad) + [RBRACKET]
  {
  }

  lemma ItemAppended(out: bytes, pad: bytes, text: bytes, comma: bytes, rest: bytes)
    ensures out + (pad + (text + (comma + ([LF] + rest)))) == ((((out + pad) + text) + comma) + [LF]) + rest
  {
  }

  /** Whether every closed enum directly in the record is a member. */
  method EnumsKnown(k: Kind, v: Value) returns (known: bool)
    requires k.KRecord? && Shaped(k, v)
    ensures known <==> !exists i :: 0 <= i < |k.fields| && k.fields[i].kind.KEnum? && !Known(k.fields[i].kind.words, v.fields[i])
  {
    for i := 0 to |k.fields|
      invariant forall j :: 0 <= j < i && k.fields[j].kind.KEnum? ==> Known(k.fields[j].kind.words, v.fields[j])
    {
      if k.fields[i].kind.KEnum? && !Known(k.fields[i].kind.words, v.fields[i]) {
        return false;
      }
    }
    known := true;
  }

  /** The fields, each on a line of its own after a comma, but for those left out. */
  method WriteFields(out: bytes, k: Kind, v: Value, depth: nat) returns (r: Encoded)
    requires k.KRecord? && Shaped(k, v)
    ensures r == After(out, EncodeFields(k, v.fields, 0, depth))
    decreases k, 0, 1
  {
    hide Pad, Esc, Encode;
    var text := out;
    for i := 0 to |k.fields|
      invariant After(text, EncodeFields(k, v.fields, i, depth)) == After(out, EncodeFields(k, v.fields, 0, depth))
    {
      if !Omitted(k.fields[i], v.fields[i]) {
        assert FieldShaped(k, i, v.fields[i]);
        var field := WriteField(text, k, v, i, depth);
        if field.Panic? {
          return field;
        }
        if EncodeFields(k, v.fields, i + 1, depth).Written? {
          FieldBefore(text, k, v, i, depth);
        }
        text := field.text;
      }
    }
    assert EncodeFields(k, v.fields, |k.fields|, depth) == Written([]) && text + [] == text;
    r := Written(text);
  }

  /** What one written field appends. */
  ghost function FieldText(k: Kind, v: Value, i: nat, depth: nat): Encoded
    requires k.KRecord? && Shaped(k, v) && i < |k.fields| && Shaped(k.fields[i].kind, v.fields[i])
  {
    match Encode(k.fields[i].kind, v.fields[i], depth + 1)
    case Panic(w) => Panic(w)
    case Written(text) => Written((if i > 0 then [COMMA] else []) + (FieldLead(k, i, depth) + text))
  }

  method WriteField(out: bytes, k: Kind, v: Value, i: nat, depth: nat) returns (r: Encoded)
    requires k.KRecord? && Shaped(k, v) && i < |k.fields| && Shaped(k.fields[i].kind, v.fields[i])
    ensures r == After(out, FieldText(k, v, i, depth))
    decreases k, 0, 0
  {
    hide Pad, Esc, Encode;
    var text := out;
    if i > 0 {
      text := text + [COMMA];
    }
    text := WritePad(text + [LF], depth + 1);
    text := WriteEsc(text, Ascii(k.fields[i].name));
    text := text + [COLON, SPACE];
    r := WriteKind(text, k.fields[i].kind, v.fields[i], depth + 1);
    if r.Written? {
      FieldAppended(out, if i > 0 then [COMMA] else [], Pad(depth + 1), Esc(Ascii(k.fields[i].name)),
                    Encode(k.fields[i].kind, v.fields[i], depth + 1).text);
    }
  }

  lemma FieldAppended(out: bytes, comma: bytes, pad: bytes, key: bytes, text: bytes)
    ensures out + (comma + ((([LF] + pad) + (key + [COLON, SPACE])) + text)) == (((((out + comma) + [LF]) + pad) + key) + [COLON, SPACE]) + text
  {
  }

  /** A written field and the fields after it. */
  lemma FieldBefore(out: bytes, k: Kind, v: Value, i: nat, depth: nat)
    requires k.KRecord? && Shaped(k, v) && i < |k.fields| && Shaped(k.fields[i].kind, v.fields[i]) && !Omitted(k.fields[i], v.fields[i])
    requires FieldText(k, v, i, depth).Written? && EncodeFields(k, v.fields, i + 1, depth).Written?
    ensures After(out, EncodeFields(k, v.fields, i, depth)) == After(out + FieldText(k, v, i, depth).text, EncodeFields(k, v.fields, i + 1, depth))
  {
    hide Encode, FieldLead;
    var comma, lead := if i > 0 then [COMMA] else [], FieldLead(k, i, depth);
    var text, rest := Encode(k.fields[i].kind, v.fields[i], depth + 1).text, EncodeFields(k, v.fields, i + 1, depth).text;
    assert out + (comma + (lead + (text + rest))) == (out + (comma + (lead + text))) + rest;
  }

  method WriteRecord(out: bytes, k: Kind, v: Value, depth: nat) returns (r: Encoded)
    requires k.KRecord? && Shaped(k, v)
    ensures r == After(out, Encode(k, v, depth))
    decreases k, 1, 0
  {
    hide Pad, EncodeFields;
    var known := EnumsKnown(k, v);
    if !known {
      return Panic(BadEnum);
    }
    r := WriteFields(out + [LBRACE], k, v, depth);
    if r.Panic? {
      return;
    }
    ghost var fields := EncodeFields(k, v.fields, 0, depth).text;
    var text := WritePad(r.text + [LF], depth);
    r := Written(text + [RBRACE]);
    assert out + ([LBRACE] + (fields + (([LF] + Pad(depth)) + [RBRACE]))) == ((((out + [LBRACE]) + fields) + [LF]) + Pad(depth)) + [RBRACE];
  }
}
