/** Byte strings, as a Go `string` or `[]byte` holds them. */
module Bytes {

  type byte = x: int | 0 <= x < 256
  type bytes = seq<byte>

  predicate IsAscii(s: string) {
    forall c :: c in s ==> c as int < 128
  }

  /** A word the wire spells in ASCII: a field name, an enum word, a contract name. */
  type ascii = s: string | IsAscii(s) witness ""

  function ByteAt(s: ascii, i: nat): (b: byte)
    requires i < |s|
    ensures b == s[i] as int < 128
  {
    assert s[i] in s;
    s[i] as int
  }

  function Ascii(s: ascii): (b: bytes)
    ensures |b| == |s|
    ensures forall i :: 0 <= i < |s| ==> b[i] == ByteAt(s, i)
  {
    seq<byte>(|s|, i requires 0 <= i < |s| => ByteAt(s, i))
  }

  lemma AsciiInjective(a: ascii, b: ascii)
    requires Ascii(a) == Ascii(b)
    ensures a == b
  {
    assert |a| == |b|;
    forall i | 0 <= i < |a| ensures a[i] == b[i] {
      assert Ascii(a)[i] == Ascii(b)[i];
    }
  }

  /** The bytes that spell a word, one for each letter. */
  ghost predicate Spells(b: bytes, word: string) {
    |b| == |word| && forall i :: 0 <= i < |b| ==> b[i] == word[i] as int
  }

  lemma SpelledSize(b: bytes, word: string)
    requires Spells(b, word)
    ensures |b| == |word|
  {
  }

  lemma SpelledOnce(a: bytes, b: bytes, word: string)
    requires Spells(a, word)
    ensures Spells(b, word) <==> a == b
  {
    if Spells(b, word) {
      assert forall i :: 0 <= i < |a| ==> a[i] == b[i];
    }
  }

  const QUOTE: byte := '\"' as byte
  const BACKSLASH: byte := '\\' as byte
  const SLASH: byte := '/' as byte
  const LBRACE: byte := '{' as byte
  const RBRACE: byte := '}' as byte
  const LBRACKET: byte := '[' as byte
  const RBRACKET: byte := ']' as byte
  const COLON: byte := ':' as byte
  const COMMA: byte := ',' as byte
  const DOT: byte := '.' as byte
  const PLUS: byte := '+' as byte
  const MINUS: byte := '-' as byte
  const SPACE: byte := ' ' as byte
  const TAB: byte := 0x09
  const LF: byte := 0x0a
  const CR: byte := 0x0d
  const BACKSPACE: byte := 0x08
  const FORMFEED: byte := 0x0c
  const LOWER_B: byte := 'b' as byte
  const LOWER_E: byte := 'e' as byte
  const UPPER_E: byte := 'E' as byte
  const LOWER_F: byte := 'f' as byte
  const LOWER_N: byte := 'n' as byte
  const LOWER_R: byte := 'r' as byte
  const LOWER_T: byte := 't' as byte
  const LOWER_U: byte := 'u' as byte
  const ZERO: byte := '0' as byte
  const NINE: byte := '9' as byte

  predicate IsDigit(c: int) {
    ZERO <= c <= NINE
  }

  predicate IsSpace(c: int) {
    c == SPACE || c == TAB || c == LF || c == CR
  }

  predicate AllDigits(s: bytes) {
    forall c :: c in s ==> IsDigit(c)
  }

  predicate AllSpace(s: bytes) {
    forall c :: c in s ==> IsSpace(c)
  }

  /** part stands in buf at offset pos. */
  predicate HasAt(buf: bytes, pos: nat, part: bytes) {
    pos + |part| <= |buf| && buf[pos..pos + |part|] == part
  }

  lemma HasAtIndex(buf: bytes, pos: nat, part: bytes, i: nat)
    requires HasAt(buf, pos, part) && i < |part|
    ensures pos + i < |buf| && buf[pos + i] == part[i]
  {
    assert buf[pos..pos + |part|][i] == part[i];
  }

  lemma HasAtFirst(buf: bytes, pos: nat, part: bytes)
    requires HasAt(buf, pos, part) && |part| > 0
    ensures pos < |buf| && buf[pos] == part[0]
  {
    HasAtIndex(buf, pos, part, 0);
  }

  lemma HasAtByte(buf: bytes, pos: nat)
    requires pos < |buf|
    ensures HasAt(buf, pos, [buf[pos]])
  {
  }

  lemma HasAtSlice(buf: bytes, pos: nat, end: nat)
    requires pos <= end <= |buf|
    ensures HasAt(buf, pos, buf[pos..end])
  {
  }

  lemma HasAtInside(buf: bytes, pos: nat, part: bytes)
    requires HasAt(buf, pos, part)
    ensures pos + |part| <= |buf|
  {
  }

  lemma HasAtSplit(buf: bytes, pos: nat, a: bytes, b: bytes)
    requires HasAt(buf, pos, a + b)
    ensures HasAt(buf, pos, a) && HasAt(buf, pos + |a|, b)
  {
    var whole := buf[pos..pos + |a + b|];
    assert whole[..|a|] == a;
    assert whole[|a|..] == b;
    assert buf[pos..pos + |a|] == whole[..|a|];
    assert buf[pos + |a|..pos + |a| + |b|] == whole[|a|..];
  }

  lemma HasAtJoin(buf: bytes, pos: nat, a: bytes, b: bytes)
    requires HasAt(buf, pos, a) && HasAt(buf, pos + |a|, b)
    ensures HasAt(buf, pos, a + b)
  {
    assert buf[pos..pos + |a + b|] == buf[pos..pos + |a|] + buf[pos + |a|..pos + |a| + |b|];
  }

  lemma HasAtThree(buf: bytes, pos: nat, a: bytes, b: bytes, c: bytes)
    requires HasAt(buf, pos, a + (b + c))
    ensures HasAt(buf, pos, a) && HasAt(buf, pos + |a|, b) && HasAt(buf, pos + |a| + |b|, c)
    ensures |a + (b + c)| == |a| + |b| + |c| && pos + |a| + |b| + |c| <= |buf|
  {
    hide HasAt;
    HasAtInside(buf, pos, a + (b + c));
    HasAtSplit(buf, pos, a, b + c);
    HasAtSplit(buf, pos + |a|, b, c);
  }

  lemma HasAtFour(buf: bytes, pos: nat, a: bytes, b: bytes, c: bytes, d: bytes)
    requires HasAt(buf, pos, a + (b + (c + d)))
    ensures HasAt(buf, pos, a) && HasAt(buf, pos + |a|, b) && HasAt(buf, pos + |a| + |b|, c) && HasAt(buf, pos + |a| + |b| + |c|, d)
    ensures |a + (b + (c + d))| == |a| + |b| + |c| + |d|
    ensures pos + |a| + |b| + |c| + |d| <= |buf|
  {
    hide HasAt;
    HasAtInside(buf, pos, a + (b + (c + d)));
    HasAtSplit(buf, pos, a, b + (c + d));
    HasAtSplit(buf, pos + |a|, b, c + d);
    HasAtSplit(buf, pos + |a| + |b|, c, d);
  }

  function Concat(parts: seq<bytes>): (b: bytes) {
    if |parts| == 0 then [] else parts[0] + Concat(parts[1..])
  }

  lemma {:induction false} ConcatAppend(a: seq<bytes>, b: seq<bytes>)
    ensures Concat(a + b) == Concat(a) + Concat(b)
  {
    if |a| == 0 {
      assert a + b == b;
    } else {
      assert (a + b)[1..] == a[1..] + b;
      ConcatAppend(a[1..], b);
    }
  }
}
