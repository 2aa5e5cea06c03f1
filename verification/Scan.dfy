/**
 What each token method of the reader computes, as a function of the buffer and
 the offset it starts at. A result is the value and the offset after it, or the
 refusal word and the offset it names.
 */
module Scan {
  import opened Basics
  import opened Bytes
  import opened Utf8

  datatype Word =
    | Malformed
    | BadString
    | NumberSpelling
    | WrongType
    | BadTimestamp
    | DepthExceeded
    | DuplicateKey
    | DuplicateField
    | UnknownField
    | MissingField
    | BadEnum
    | TrailingBytes

  datatype Parsed<+T> = Ok(value: T, pos: nat) | Refuse(word: Word, at: nat)

  const DEPTH_LIMIT := 64

  /** An accepted token is not empty, and no offset leaves the buffer. */
  predicate Advances<T>(r: Parsed<T>, pos: nat, buf: bytes) {
    match r
    case Ok(_, p) => pos < p <= |buf|
    case Refuse(_, at) => pos <= at <= |buf|
  }

  /** The byte at pos; 0 past the end. */
  function At(buf: bytes, pos: nat): (c: byte)
    ensures c != 0 ==> pos < |buf|
  {
    if pos < |buf| then buf[pos] else 0
  }

  function SkipWs(buf: bytes, pos: nat): (p: nat)
    requires pos <= |buf|
    ensures pos <= p <= |buf|
    ensures AllSpace(buf[pos..p])
    ensures !IsSpace(At(buf, p))
    decreases |buf| - pos
  {
    if pos < |buf| && IsSpace(buf[pos]) then
      var p := SkipWs(buf, pos + 1);
      assert buf[pos..p] == [buf[pos]] + buf[pos + 1..p];
      p
    else pos
  }

  // ---- Strings ----

  /** The value of a hexadecimal digit in either case; -1 for another byte. */
  function HexValue(c: byte): (v: int)
    ensures -1 <= v < 16
  {
    if '0' as int <= c <= '9' as int then c - '0' as int
    else if 'a' as int <= c <= 'f' as int then c - 'a' as int + 10
    else if 'A' as int <= c <= 'F' as int then c - 'A' as int + 10
    else -1
  }

  predicate IsHex4(h: bytes) {
    |h| == 4 && forall c :: c in h ==> HexValue(c) >= 0
  }

  function Hex4Value(h: bytes): (u: nat)
    requires IsHex4(h)
    ensures u < 0x10000
  {
    ((HexValue(h[0]) * 16 + HexValue(h[1])) * 16 + HexValue(h[2])) * 16 + HexValue(h[3])
  }

  function Hex4(buf: bytes, pos: nat): (r: Parsed<nat>)
    requires pos <= |buf|
    ensures Advances(r, pos, buf)
    ensures r.Ok? ==> r.value < 0x10000 && r.pos == pos + 4
  {
    if pos + 4 > |buf| then Refuse(BadString, pos)
    else if !IsHex4(buf[pos..pos + 4]) then Refuse(BadString, pos)
    else Ok(Hex4Value(buf[pos..pos + 4]), pos + 4)
  }

  predicate IsHighSurrogate(u: nat) {
    0xD800 <= u <= 0xDBFF
  }

  predicate IsLowSurrogate(u: nat) {
    0xDC00 <= u <= 0xDFFF
  }

  function JoinSurrogates(hi: nat, lo: nat): (cp: nat)
    requires IsHighSurrogate(hi) && IsLowSurrogate(lo)
    ensures 0x10000 <= cp <= 0x10FFFF
  {
    0x10000 + (hi - 0xD800) * 0x400 + (lo - 0xDC00)
  }

  /** The byte a two-character escape stands for; -1 for a letter that escapes nothing. */
  function ShortEscape(c: byte): (v: int)
    ensures -1 <= v < 0x80
  {
    if c == QUOTE || c == BACKSLASH || c == SLASH then c
    else if c == LOWER_B then BACKSPACE
    else if c == LOWER_F then FORMFEED
    else if c == LOWER_N then LF
    else if c == LOWER_R then CR
    else if c == LOWER_T then TAB
    else -1
  }

  /** The bytes an escape adds, standing at its backslash. */
  function Escape(buf: bytes, pos: nat): (r: Parsed<bytes>)
    requires pos < |buf| && buf[pos] == BACKSLASH
    ensures Advances(r, pos, buf)
  {
    if pos + 1 >= |buf| then Refuse(Malformed, pos + 1)
    else if buf[pos + 1] == LOWER_U then EscapeHex(buf, pos + 2)
    else if ShortEscape(buf[pos + 1]) < 0 then Refuse(BadString, pos + 2)
    else Ok([ShortEscape(buf[pos + 1])], pos + 2)
  }

  /** The rest of a \u escape, and of the pair it opens. */
  function EscapeHex(buf: bytes, pos: nat): (r: Parsed<bytes>)
    requires pos <= |buf|
    ensures Advances(r, pos, buf)
  {
    match Hex4(buf, pos)
    case Refuse(w, at) => Refuse(w, at)
    case Ok(u, p) =>
      if IsLowSurrogate(u) then Refuse(BadString, p)
      else if !IsHighSurrogate(u) then Ok(RuneBytes(u), p)
      else if p + 1 >= |buf| || buf[p] != BACKSLASH || buf[p + 1] != LOWER_U then Refuse(BadString, p)
      else
        match Hex4(buf, p + 2)
        case Refuse(w, at) => Refuse(w, at)
        case Ok(lo, q) =>
          if !IsLowSurrogate(lo) then Refuse(BadString, q)
          else Ok(RuneBytes(JoinSurrogates(u, lo)), q)
  }

  /** The string loop, out read so far. */
  function StrBody(buf: bytes, pos: nat, out: bytes): (r: Parsed<bytes>)
    requires pos <= |buf|
    ensures Advances(r, pos, buf)
    decreases |buf| - pos
  {
    if pos >= |buf| then Refuse(Malformed, pos)
    else if buf[pos] == QUOTE then
      if ValidUtf8(out) then Ok(out, pos + 1) else Refuse(BadString, pos + 1)
    else if buf[pos] < 0x20 then Refuse(BadString, pos)
    else if buf[pos] == BACKSLASH then
      match Escape(buf, pos)
      case Refuse(w, at) => Refuse(w, at)
      case Ok(b, p) => StrBody(buf, p, out + b)
    else StrBody(buf, pos + 1, out + [buf[pos]])
  }

  function Str(buf: bytes, pos: nat): (r: Parsed<bytes>)
    requires pos <= |buf|
    ensures Advances(r, pos, buf)
  {
    if At(buf, pos) != QUOTE then Refuse(WrongType, pos) else StrBody(buf, pos + 1, [])
  }

  // ---- Literals and numbers ----

  function Literal(buf: bytes, pos: nat, word: bytes): (r: Parsed<()>)
    requires pos <= |buf| && |word| > 0
    ensures Advances(r, pos, buf)
  {
    if HasAt(buf, pos, word) then Ok((), pos + |word|) else Refuse(Malformed, pos)
  }

  const TRUE_TEXT: bytes := Ascii("true")
  const FALSE_TEXT: bytes := Ascii("false")
  const NULL_TEXT: bytes := Ascii("null")

  function Boolean(buf: bytes, pos: nat): (r: Parsed<bool>)
    requires pos <= |buf|
    ensures Advances(r, pos, buf)
  {
    if At(buf, pos) == LOWER_T then
      match Literal(buf, pos, TRUE_TEXT)
      case Ok(_, p) => Ok(true, p)
      case Refuse(w, at) => Refuse(w, at)
    else if At(buf, pos) == LOWER_F then
      match Literal(buf, pos, FALSE_TEXT)
      case Ok(_, p) => Ok(false, p)
      case Refuse(w, at) => Refuse(w, at)
    else Refuse(WrongType, pos)
  }

  /** The accumulator above which one more digit is refused. */
  const LAST_TENTH := 922337203685477580

  type uint64 = u: int | 0 <= u < TWO64
  type int64 = n: int | -TWO63 <= n < TWO63

  /** A byte that would carry a number on. */
  predicate CarriesOn(c: byte) {
    c == DOT || c == LOWER_E || c == UPPER_E || IsDigit(c)
  }

  /** The digit loop, u read so far. No step of it wraps. */
  function Accumulate(buf: bytes, pos: nat, u: uint64): (r: Parsed<uint64>)
    requires pos <= |buf|
    ensures match r case Ok(_, p) => pos <= p <= |buf| case Refuse(_, at) => pos <= at <= |buf|
    decreases |buf| - pos
  {
    if !IsDigit(At(buf, pos)) then Ok(u, pos)
    else if u > LAST_TENTH then Refuse(NumberSpelling, pos)
    else Accumulate(buf, pos + 1, u * 10 + (buf[pos] - ZERO))
  }

  /** What integer makes of a sign, a magnitude and the offset after them. */
  function Signed(buf: bytes, neg: bool, u: uint64, p: nat, lo: int64, hi: int64): (r: Parsed<int64>)
    requires p <= |buf|
    ensures match r case Ok(_, q) => q == p case Refuse(_, at) => at == p
  {
    if CarriesOn(At(buf, p)) then Refuse(NumberSpelling, p)
    else if neg && u == 0 then Refuse(NumberSpelling, p)
    else if !(neg && u == TWO63) && u > TWO63 - 1 then Refuse(NumberSpelling, p)
    else
      var n: int64 := if neg then -(u as int) else u;
      if n < lo || n > hi then Refuse(NumberSpelling, p) else Ok(n, p)
  }

  /** The digits of an integer: a lone zero, or a run that does not begin with one. */
  function Magnitude(buf: bytes, pos: nat): (r: Parsed<uint64>)
    requires pos <= |buf| && IsDigit(At(buf, pos))
    ensures Advances(r, pos, buf)
  {
    if At(buf, pos) == ZERO then Ok(0, pos + 1)
    else
      match Accumulate(buf, pos, 0)
      case Ok(u, p) => assert p > pos; Ok(u, p)
      case Refuse(w, at) => Refuse(w, at)
  }

  function Integer(buf: bytes, pos: nat, lo: int64, hi: int64): (r: Parsed<int64>)
    requires pos <= |buf|
    ensures Advances(r, pos, buf)
  {
    var c := At(buf, pos);
    if c != MINUS && !IsDigit(c) then Refuse(WrongType, pos)
    else
      var start := if c == MINUS then pos + 1 else pos;
      if !IsDigit(At(buf, start)) then Refuse(Malformed, start)
      else
        match Magnitude(buf, start)
        case Refuse(w, at) => Refuse(w, at)
        case Ok(u, p) => Signed(buf, c == MINUS, u, p, lo, hi)
  }

  /** The offset after the digits at pos. */
  function DigitsEnd(buf: bytes, pos: nat): (p: nat)
    requires pos <= |buf|
    ensures pos <= p <= |buf|
    ensures AllDigits(buf[pos..p])
    ensures !IsDigit(At(buf, p))
    decreases |buf| - pos
  {
    if IsDigit(At(buf, pos)) then
      var p := DigitsEnd(buf, pos + 1);
      assert buf[pos..p] == [buf[pos]] + buf[pos + 1..p];
      p
    else pos
  }

  function SomeDigits(buf: bytes, pos: nat): (r: Parsed<()>)
    requires pos <= |buf|
    ensures Advances(r, pos, buf)
  {
    var p := DigitsEnd(buf, pos);
    if p == pos then Refuse(NumberSpelling, pos) else Ok((), p)
  }

  function SkipExponent(buf: bytes, pos: nat): (r: Parsed<()>)
    requires pos <= |buf|
    ensures match r case Ok(_, p) => pos <= p <= |buf| case Refuse(_, at) => pos <= at <= |buf|
  {
    if At(buf, pos) != LOWER_E && At(buf, pos) != UPPER_E then Ok((), pos)
    else
      var p := if At(buf, pos + 1) == PLUS || At(buf, pos + 1) == MINUS then pos + 2 else pos + 1;
      SomeDigits(buf, p)
  }

  function SkipFraction(buf: bytes, pos: nat): (r: Parsed<()>)
    requires pos <= |buf|
    ensures match r case Ok(_, p) => pos <= p <= |buf| case Refuse(_, at) => pos <= at <= |buf|
  {
    if At(buf, pos) != DOT then SkipExponent(buf, pos)
    else
      match SomeDigits(buf, pos + 1)
      case Refuse(w, at) => Refuse(w, at)
      case Ok(_, p) => SkipExponent(buf, p)
  }

  function SkipNumber(buf: bytes, pos: nat): (r: Parsed<()>)
    requires pos <= |buf|
    ensures Advances(r, pos, buf)
  {
    var start := if At(buf, pos) == MINUS then pos + 1 else pos;
    if At(buf, start) == ZERO then SkipFraction(buf, start + 1)
    else if IsDigit(At(buf, start)) then
      assert DigitsEnd(buf, start) > start;
      SkipFraction(buf, DigitsEnd(buf, start))
    else Refuse(NumberSpelling, start)
  }

  // ---- The skipper ----

  function Skip(buf: bytes, pos: nat, depth: nat): (r: Parsed<()>)
    requires pos <= |buf|
    ensures Advances(r, pos, buf)
    decreases |buf| - pos, 1
  {
    var c := At(buf, pos);
    if c == QUOTE then
      match Str(buf, pos)
      case Ok(_, p) => Ok((), p)
      case Refuse(w, at) => Refuse(w, at)
    else if c == LBRACE || c == LBRACKET then SkipContainer(buf, pos, depth)
    else if c == LOWER_T then Literal(buf, pos, TRUE_TEXT)
    else if c == LOWER_F then Literal(buf, pos, FALSE_TEXT)
    else if c == LOWER_N then Literal(buf, pos, NULL_TEXT)
    else if c == MINUS || IsDigit(c) then SkipNumber(buf, pos)
    else Refuse(Malformed, pos)
  }

  function Shut(open: byte): byte {
    if open == LBRACKET then RBRACKET else RBRACE
  }

  function SkipContainer(buf: bytes, pos: nat, depth: nat): (r: Parsed<()>)
    requires pos < |buf|
    ensures Advances(r, pos, buf)
    decreases |buf| - pos, 0
  {
    if depth + 1 > DEPTH_LIMIT then Refuse(DepthExceeded, pos)
    else
      var p := SkipWs(buf, pos + 1);
      if At(buf, p) == Shut(buf[pos]) then Ok((), p + 1)
      else
        match if buf[pos] == LBRACE then SkipMembers(buf, p, depth + 1, {}) else SkipItems(buf, p, depth + 1)
        case Refuse(w, at) => Refuse(w, at)
        case Ok(_, q) => if At(buf, q) == Shut(buf[pos]) then Ok((), q + 1) else Refuse(Malformed, q)
  }

  /** The key of a member and the colon after it: the key, and where its value stands. */
  function KeyAt(buf: bytes, pos: nat): (r: Parsed<bytes>)
    requires pos <= |buf|
    ensures Advances(r, pos, buf)
  {
    if At(buf, pos) != QUOTE then Refuse(Malformed, pos)
    else
      match Str(buf, pos)
      case Refuse(w, at) => Refuse(w, at)
      case Ok(key, p) =>
        var q := SkipWs(buf, p);
        if At(buf, q) != COLON then Refuse(Malformed, q) else Ok(key, SkipWs(buf, q + 1))
  }

  /** The skipper's loop over an array: from one element to the offset whose byte is not a comma. */
  function SkipItems(buf: bytes, pos: nat, depth: nat): (r: Parsed<()>)
    requires pos <= |buf|
    ensures Advances(r, pos, buf)
    decreases |buf| - pos, 2
  {
    match Skip(buf, SkipWs(buf, pos), depth)
    case Refuse(w, at) => Refuse(w, at)
    case Ok(_, e) =>
      var n := SkipWs(buf, e);
      if At(buf, n) == COMMA then SkipItems(buf, n + 1, depth) else Ok((), n)
  }

  /** The skipper's loop over an object, which remembers the keys it has seen. */
  function SkipMembers(buf: bytes, pos: nat, depth: nat, seen: set<bytes>): (r: Parsed<()>)
    requires pos <= |buf|
    ensures Advances(r, pos, buf)
    decreases |buf| - pos, 2
  {
    match SkipKey(buf, SkipWs(buf, pos), seen)
    case Refuse(w, at) => Refuse(w, at)
    case Ok(key, v) =>
      match Skip(buf, v, depth)
      case Refuse(w, at) => Refuse(w, at)
      case Ok(_, e) =>
        var n := SkipWs(buf, e);
        if At(buf, n) == COMMA then SkipMembers(buf, n + 1, depth, seen + {key}) else Ok((), n)
  }

  /** A member's key inside the skipper, which refuses a repeated one before its colon. */
  function SkipKey(buf: bytes, pos: nat, seen: set<bytes>): (r: Parsed<bytes>)
    requires pos <= |buf|
    ensures Advances(r, pos, buf)
  {
    if At(buf, pos) != QUOTE then Refuse(Malformed, pos)
    else
      match Str(buf, pos)
      case Refuse(w, at) => Refuse(w, at)
      case Ok(key, p) => if key in seen then Refuse(DuplicateKey, p) else KeyAt(buf, pos)
  }
}
