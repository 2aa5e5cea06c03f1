/** UTF-8 as the codec validates it, against section 4 of RFC 3629. */
module Utf8 {
  import opened Bytes

  // ---- The grammar of RFC 3629, section 4 ----

  predicate IsTail(c: byte) {
    0x80 <= c <= 0xBF
  }

  /** UTF8-char: UTF8-1, UTF8-2, UTF8-3 or UTF8-4. */
  predicate IsChar(s: bytes) {
    if |s| == 1 then
      s[0] <= 0x7F
    else if |s| == 2 then
      0xC2 <= s[0] <= 0xDF && IsTail(s[1])
    else if |s| == 3 then
      && (|| (s[0] == 0xE0 && 0xA0 <= s[1] <= 0xBF)
          || (0xE1 <= s[0] <= 0xEC && IsTail(s[1]))
          || (s[0] == 0xED && 0x80 <= s[1] <= 0x9F)
          || (0xEE <= s[0] <= 0xEF && IsTail(s[1])))
      && IsTail(s[2])
    else if |s| == 4 then
      && (|| (s[0] == 0xF0 && 0x90 <= s[1] <= 0xBF)
          || (0xF1 <= s[0] <= 0xF3 && IsTail(s[1]))
          || (s[0] == 0xF4 && 0x80 <= s[1] <= 0x8F))
      && IsTail(s[2]) && IsTail(s[3])
    else
      false
  }

  /** UTF8-octets: a partition of s into characters. */
  ghost predicate IsPartition(s: bytes, chars: seq<bytes>) {
    (forall c :: c in chars ==> IsChar(c)) && Concat(chars) == s
  }

  ghost predicate IsOctets(s: bytes) {
    exists chars :: IsPartition(s, chars)
  }

  predicate IsScalar(cp: int) {
    0 <= cp <= 0x10FFFF && !(0xD800 <= cp <= 0xDFFF)
  }

  /** The number the character's payload bits spell. */
  function CodePoint(s: bytes): (cp: nat)
    requires IsChar(s)
  {
    if |s| == 1 then s[0]
    else if |s| == 2 then Push6(s[0] % 0x20, s[1])
    else if |s| == 3 then Push6(Push6(s[0] % 0x10, s[1]), s[2])
    else Push6(Push6(Push6(s[0] % 8, s[1]), s[2]), s[3])
  }

  /** Six more payload bits. */
  function Push6(cp: nat, c: byte): nat {
    cp * 0x40 + c % 0x40
  }

  // ---- The validator ----

  /** How many bytes the lead byte announces; 0 for a byte that leads nothing. */
  function LeadLength(c: byte): (n: nat)
    ensures n <= 4
  {
    if c < 0x80 then 1
    else if c / 0x20 == 0x6 then 2
    else if c / 0x10 == 0xE then 3
    else if c / 8 == 0x1E then 4
    else 0
  }

  function LeadBits(c: byte): nat
  {
    if c < 0x80 then c
    else if c / 0x20 == 0x6 then c % 0x20
    else if c / 0x10 == 0xE then c % 0x10
    else c % 8
  }

  /** The continuation bytes folded into cp, or -1 once one of them is not a continuation. */
  function Continue(b: bytes, i: nat, k: nat, n: nat, cp: int): int
    requires k <= n && i + n <= |b|
    decreases n - k
  {
    if k == n then cp
    else if b[i + k] / 0x40 != 0x2 then -1
    else Continue(b, i, k + 1, n, cp * 0x40 + b[i + k] % 0x40)
  }

  function Lowest(n: nat): nat {
    if n == 2 then 0x80 else if n == 3 then 0x800 else if n == 4 then 0x10000 else 0
  }

  /** The character starting at i is accepted. */
  predicate StepOk(b: bytes, i: nat)
    requires i < |b|
  {
    var n := LeadLength(b[i]);
    && n != 0
    && i + n <= |b|
    && (n > 1 ==>
          var cp := Continue(b, i, 1, n, LeadBits(b[i]));
          Lowest(n) <= cp <= 0x10FFFF && !(0xD800 <= cp <= 0xDFFF))
  }

  predicate ValidFrom(b: bytes, i: nat)
    requires i <= |b|
    decreases |b| - i
  {
    i == |b| || (StepOk(b, i) && ValidFrom(b, i + LeadLength(b[i])))
  }

  predicate ValidUtf8(b: bytes) {
    ValidFrom(b, 0)
  }

  /** The validator's loop over the buffer. */
  method Validate(b: bytes) returns (ok: bool)
    ensures ok == ValidUtf8(b)
  {
    var i := 0;
    while i < |b|
      invariant i <= |b|
      invariant ValidUtf8(b) == ValidFrom(b, i)
    {
      var c := b[i];
      if c < 0x80 {
        i := i + 1;
        continue;
      }
      var n, cp: int := 0, 0;
      if c / 0x20 == 0x6 {
        n, cp := 2, c % 0x20;
      } else if c / 0x10 == 0xE {
        n, cp := 3, c % 0x10;
      } else if c / 8 == 0x1E {
        n, cp := 4, c % 8;
      } else {
        return false;
      }
      if i + n > |b| {
        return false;
      }
      var k := 1;
      while k < n
        invariant 1 <= k <= n
        invariant Continue(b, i, k, n, cp) == Continue(b, i, 1, n, LeadBits(c))
      {
        if b[i + k] / 0x40 != 0x2 {
          return false;
        }
        cp := cp * 0x40 + b[i + k] % 0x40;
        k := k + 1;
      }
      if cp < Lowest(n) || cp > 0x10FFFF || (0xD800 <= cp <= 0xDFFF) {
        return false;
      }
      i := i + n;
    }
    return true;
  }

  // ---- The validator accepts exactly the grammar ----

  lemma StepIsChar(b: bytes, i: nat)
    requires i < |b|
    ensures StepOk(b, i) <==>
            var n := LeadLength(b[i]); n != 0 && i + n <= |b| && IsChar(b[i..i + n])
    ensures StepOk(b, i) ==>
            var n := LeadLength(b[i]);
            Continue(b, i, 1, n, LeadBits(b[i])) == CodePoint(b[i..i + n])
  {
    var n := LeadLength(b[i]);
    if n != 0 && i + n <= |b| {
      var s := b[i..i + n];
      assert forall j :: 0 <= j < n ==> s[j] == b[i + j];
      if n == 1 {
        assert s == [b[i]];
      } else if n == 2 {
        assert s == [b[i], b[i + 1]];
        assert b[i + 1] / 0x40 == 2 <==> IsTail(b[i + 1]);
      } else if n == 3 {
        Continue3(b, i);
      } else {
        Continue4(b, i);
      }
    }
  }

  lemma Continue3(b: bytes, i: nat)
    requires i + 3 <= |b| && LeadLength(b[i]) == 3
    ensures StepOk(b, i) <==> IsChar(b[i..i + 3])
    ensures StepOk(b, i) ==> Continue(b, i, 1, 3, LeadBits(b[i])) == CodePoint(b[i..i + 3])
  {
    var s := b[i..i + 3];
    assert s == [b[i], b[i + 1], b[i + 2]];
    assert b[i + 1] / 0x40 == 2 <==> IsTail(b[i + 1]);
    assert b[i + 2] / 0x40 == 2 <==> IsTail(b[i + 2]);
    assert Continue(b, i, 3, 3, (LeadBits(b[i]) * 0x40 + b[i + 1] % 0x40) * 0x40 + b[i + 2] % 0x40)
        == (LeadBits(b[i]) * 0x40 + b[i + 1] % 0x40) * 0x40 + b[i + 2] % 0x40;
  }

  lemma Continue4(b: bytes, i: nat)
    requires i + 4 <= |b| && LeadLength(b[i]) == 4
    ensures StepOk(b, i) <==> IsChar(b[i..i + 4])
    ensures StepOk(b, i) ==> Continue(b, i, 1, 4, LeadBits(b[i])) == CodePoint(b[i..i + 4])
  {
    var s := b[i..i + 4];
    assert s == [b[i], b[i + 1], b[i + 2], b[i + 3]];
    assert forall c: byte :: c / 0x40 == 2 <==> IsTail(c);
    var c1 := LeadBits(b[i]) * 0x40 + b[i + 1] % 0x40;
    var c2 := c1 * 0x40 + b[i + 2] % 0x40;
    var c3 := c2 * 0x40 + b[i + 3] % 0x40;
    assert Continue(b, i, 4, 4, c3) == c3;
    assert Continue(b, i, 3, 4, c2) == if b[i + 3] / 0x40 != 2 then -1 else c3;
    assert Continue(b, i, 2, 4, c1) == if b[i + 2] / 0x40 != 2 then -1 else Continue(b, i, 3, 4, c2);
    assert Continue(b, i, 1, 4, LeadBits(b[i])) == if b[i + 1] / 0x40 != 2 then -1 else Continue(b, i, 2, 4, c1);
  }

  lemma CharLead(s: bytes)
    requires IsChar(s)
    ensures LeadLength(s[0]) == |s|
  {
  }

  lemma {:induction false} ValidGivesPartition(b: bytes, i: nat) returns (chars: seq<bytes>)
    requires i <= |b| && ValidFrom(b, i)
    ensures IsPartition(b[i..], chars)
    decreases |b| - i
  {
    if i == |b| {
      chars := [];
    } else {
      StepIsChar(b, i);
      var n := LeadLength(b[i]);
      var rest := ValidGivesPartition(b, i + n);
      chars := [b[i..i + n]] + rest;
      assert chars[1..] == rest;
      assert b[i..] == b[i..i + n] + b[i + n..];
    }
  }

  lemma {:induction false} PartitionIsValid(b: bytes, i: nat, chars: seq<bytes>)
    requires i <= |b| && IsPartition(b[i..], chars)
    ensures ValidFrom(b, i)
    decreases |chars|
  {
    if |chars| == 0 {
      assert i == |b|;
    } else {
      var c, rest := chars[0], chars[1..];
      assert c in chars;
      assert b[i..] == c + Concat(rest);
      assert b[i] == c[0] by { assert b[i..][0] == c[0]; }
      CharLead(c);
      assert b[i..i + |c|] == b[i..][..|c|] == c;
      assert b[i + |c|..] == b[i..][|c|..] == Concat(rest);
      StepIsChar(b, i);
      PartitionIsValid(b, i + |c|, rest);
    }
  }

  /** validUTF8 accepts exactly the octet sequences of RFC 3629, section 4. */
  lemma ValidUtf8Exact(b: bytes)
    ensures ValidUtf8(b) <==> IsOctets(b)
  {
    assert b[0..] == b;
    if ValidUtf8(b) {
      var chars := ValidGivesPartition(b, 0);
      assert IsPartition(b, chars);
    }
    if IsOctets(b) {
      var chars :| IsPartition(b, chars);
      PartitionIsValid(b, 0, chars);
    }
  }

  lemma ValidConcat(a: bytes, b: bytes)
    requires ValidUtf8(a) && ValidUtf8(b)
    ensures ValidUtf8(a + b)
  {
    ValidUtf8Exact(a);
    ValidUtf8Exact(b);
    var ca :| IsPartition(a, ca);
    var cb :| IsPartition(b, cb);
    ConcatAppend(ca, cb);
    assert IsPartition(a + b, ca + cb);
    ValidUtf8Exact(a + b);
  }

  lemma {:induction false} AsciiFromValid(b: bytes, i: nat)
    requires i <= |b| && forall j :: 0 <= j < |b| ==> b[j] < 0x80
    ensures ValidFrom(b, i)
    decreases |b| - i
  {
    if i < |b| {
      AsciiFromValid(b, i + 1);
    }
  }

  lemma AsciiValid(s: ascii)
    ensures ValidUtf8(Ascii(s))
  {
    AsciiFromValid(Ascii(s), 0);
  }

  // ---- appendRune ----

  /** The bytes appendRune adds for a code point. */
  function RuneBytes(cp: nat): (s: bytes)
    requires cp <= 0x10FFFF
  {
    if cp < 0x80 then [cp]
    else if cp < 0x800 then [0xC0 + cp / 0x40, 0x80 + cp % 0x40]
    else if cp < 0x10000 then [0xE0 + cp / 0x1000, 0x80 + cp / 0x40 % 0x40, 0x80 + cp % 0x40]
    else [0xF0 + cp / 0x40000, 0x80 + cp / 0x1000 % 0x40, 0x80 + cp / 0x40 % 0x40, 0x80 + cp % 0x40]
  }

  /** RuneBytes by the six-bit digits of its code point. */
  lemma RuneOfDigits(w: nat, z: nat, y: nat, x: nat)
    requires w <= 4 && z < 0x40 && y < 0x40 && x < 0x40
    requires w * 0x40000 + z * 0x1000 + y * 0x40 + x <= 0x10FFFF
    ensures var cp := w * 0x40000 + z * 0x1000 + y * 0x40 + x;
            RuneBytes(cp) ==
            if cp < 0x80 then [cp]
            else if cp < 0x800 then [0xC0 + y, 0x80 + x]
            else if cp < 0x10000 then [0xE0 + z, 0x80 + y, 0x80 + x]
            else [0xF0 + w, 0x80 + z, 0x80 + y, 0x80 + x]
  {
    var cp := w * 0x40000 + z * 0x1000 + y * 0x40 + x;
    assert cp / 0x40 == w * 0x1000 + z * 0x40 + y;
    assert cp / 0x1000 == w * 0x40 + z;
    assert cp / 0x40000 == w;
    assert cp % 0x40 == x;
    assert cp / 0x40 % 0x40 == y;
    assert cp / 0x1000 % 0x40 == z;
  }

  lemma Digits6(cp: nat) returns (w: nat, z: nat, y: nat, x: nat)
    requires cp <= 0x10FFFF
    ensures w <= 4 && z < 0x40 && y < 0x40 && x < 0x40
    ensures cp == w * 0x40000 + z * 0x1000 + y * 0x40 + x
  {
    x := cp % 0x40;
    var q := cp / 0x40;
    y := q % 0x40;
    var r := q / 0x40;
    z := r % 0x40;
    w := r / 0x40;
  }

  lemma TailBits(cp: nat, x: nat)
    requires x < 0x40
    ensures IsTail(0x80 + x) && Push6(cp, 0x80 + x) == cp * 0x40 + x
  {
  }

  lemma CodePoint2(y: nat, x: nat)
    requires 2 <= y < 0x20 && x < 0x40
    ensures IsChar([0xC0 + y, 0x80 + x]) && CodePoint([0xC0 + y, 0x80 + x]) == y * 0x40 + x
  {
    TailBits(y, x);
  }

  lemma CodePoint3(z: nat, y: nat, x: nat)
    requires z < 0x10 && y < 0x40 && x < 0x40
    requires z == 0 ==> y >= 0x20
    requires z == 0xD ==> y < 0x20
    ensures IsChar([0xE0 + z, 0x80 + y, 0x80 + x])
    ensures CodePoint([0xE0 + z, 0x80 + y, 0x80 + x]) == z * 0x1000 + y * 0x40 + x
  {
    TailBits(z, y);
    TailBits(z * 0x40 + y, x);
  }

  lemma CodePoint4(w: nat, z: nat, y: nat, x: nat)
    requires w <= 4 && z < 0x40 && y < 0x40 && x < 0x40
    requires w == 0 ==> z >= 0x10
    requires w == 4 ==> z < 0x10
    ensures IsChar([0xF0 + w, 0x80 + z, 0x80 + y, 0x80 + x])
    ensures CodePoint([0xF0 + w, 0x80 + z, 0x80 + y, 0x80 + x]) == w * 0x40000 + z * 0x1000 + y * 0x40 + x
  {
    TailBits(w, z);
    TailBits(w * 0x40 + z, y);
    TailBits(w * 0x1000 + z * 0x40 + y, x);
    assert (0xF0 + w) % 8 == w;
  }

  /** appendRune writes the one character of RFC 3629 that spells a scalar value. */
  lemma RuneIsItsChar(cp: nat)
    requires IsScalar(cp)
    ensures IsChar(RuneBytes(cp)) && CodePoint(RuneBytes(cp)) == cp
  {
    var w, z, y, x := Digits6(cp);
    RuneOfDigits(w, z, y, x);
    if cp < 0x80 {
      return;
    }
    hide RuneBytes, IsChar, CodePoint;
    if cp >= 0x10000 {
      CodePoint4(w, z, y, x);
    } else if cp >= 0x800 {
      CodePoint3(z, y, x);
    } else if cp >= 0x80 {
      CodePoint2(y, x);
    }
  }

  lemma RuneOfChar2(s: bytes)
    requires IsChar(s) && |s| == 2
    ensures IsScalar(CodePoint(s)) && RuneBytes(CodePoint(s)) == s
  {
    var y, x := s[0] - 0xC0, s[1] - 0x80;
    assert s == [0xC0 + y, 0x80 + x];
    CodePoint2(y, x);
    RuneOfDigits(0, 0, y, x);
  }

  lemma RuneOfChar3(s: bytes)
    requires IsChar(s) && |s| == 3
    ensures IsScalar(CodePoint(s)) && RuneBytes(CodePoint(s)) == s
  {
    var z, y, x := s[0] - 0xE0, s[1] - 0x80, s[2] - 0x80;
    assert s == [0xE0 + z, 0x80 + y, 0x80 + x];
    CodePoint3(z, y, x);
    RuneOfDigits(0, z, y, x);
  }

  lemma RuneOfChar4(s: bytes)
    requires IsChar(s) && |s| == 4
    ensures IsScalar(CodePoint(s)) && RuneBytes(CodePoint(s)) == s
  {
    var w, z, y, x := s[0] - 0xF0, s[1] - 0x80, s[2] - 0x80, s[3] - 0x80;
    assert s == [0xF0 + w, 0x80 + z, 0x80 + y, 0x80 + x];
    CodePoint4(w, z, y, x);
    RuneOfDigits(w, z, y, x);
  }

  /** Two characters spelling one code point are the same bytes. */
  lemma CharIsItsRune(s: bytes)
    requires IsChar(s)
    ensures IsScalar(CodePoint(s)) && RuneBytes(CodePoint(s)) == s
  {
    if |s| == 2 {
      RuneOfChar2(s);
    } else if |s| == 3 {
      RuneOfChar3(s);
    } else if |s| == 4 {
      RuneOfChar4(s);
    } else {
      assert s == [s[0]];
    }
  }
}
