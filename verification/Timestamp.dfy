/**
 Timestamps: a profile of section 5.6 of RFC 3339 read to one spelling, UTC with
 six fractional digits, against the instant each spelling denotes.
 */
module Timestamp {
  import opened Bytes

  const LOWER_Z: byte := 'z' as byte
  const UPPER_Z: byte := 'Z' as byte
  const UPPER_T: byte := 'T' as byte
  const LOWER_T_MARK: byte := 't' as byte

  // ---- Lexical form ----

  predicate DigitsAt(s: bytes, i: nat, n: nat) {
    i + n <= |s| && forall k :: i <= k < i + n ==> IsDigit(s[k])
  }

  predicate DatePart(s: bytes) {
    && |s| >= 19
    && DigitsAt(s, 0, 4) && s[4] == MINUS && DigitsAt(s, 5, 2) && s[7] == MINUS && DigitsAt(s, 8, 2)
    && DigitsAt(s, 11, 2) && s[13] == COLON && DigitsAt(s, 14, 2) && s[16] == COLON && DigitsAt(s, 17, 2)
  }

  /** The first offset at or after i that holds no digit. */
  function RunEnd(s: bytes, i: nat): (e: nat)
    requires i <= |s|
    ensures i <= e <= |s|
    ensures DigitsAt(s, i, e - i)
    ensures e < |s| ==> !IsDigit(s[e])
    decreases |s| - i
  {
    if i < |s| && IsDigit(s[i]) then RunEnd(s, i + 1) else i
  }

  predicate HasFraction(s: bytes) {
    |s| > 19 && s[19] == DOT
  }

  /** Where the zone stands: after the seconds, or after the fraction. */
  function ZoneAt(s: bytes): (z: nat)
    requires |s| >= 19
    ensures 19 <= z <= |s|
  {
    if HasFraction(s) then RunEnd(s, 20) else 19
  }

  function Fraction(s: bytes): (f: bytes)
    requires |s| >= 19
    ensures AllDigits(f)
  {
    if HasFraction(s) then
      var f := s[20..RunEnd(s, 20)];
      assert forall k :: 0 <= k < |f| ==> f[k] == s[20 + k];
      f
    else []
  }

  predicate ZoneOk(s: bytes, z: nat) {
    && z < |s|
    && if s[z] == UPPER_Z || s[z] == LOWER_Z then z + 1 == |s|
       else && (s[z] == PLUS || s[z] == MINUS)
            && |s| == z + 6 && DigitsAt(s, z + 1, 2) && s[z + 3] == COLON && DigitsAt(s, z + 4, 2)
  }

  predicate Lexical(s: bytes) {
    && DatePart(s) && (s[10] == UPPER_T || s[10] == LOWER_T_MARK)
    && (HasFraction(s) ==> 1 <= |Fraction(s)| <= 9)
    && ZoneOk(s, ZoneAt(s))
  }

  // ---- Fields ----

  /** The number n digits at i spell. */
  function Num(s: bytes, i: nat, n: nat): (v: nat)
    requires DigitsAt(s, i, n)
  {
    if n == 0 then 0 else Num(s, i, n - 1) * 10 + (s[i + n - 1] - ZERO)
  }

  predicate IsLeap(y: int) {
    y % 4 == 0 && (y % 100 != 0 || y % 400 == 0)
  }

  function DaysIn(y: int, m: int): (d: nat)
    ensures 28 <= d <= 31
  {
    if m == 2 then (if IsLeap(y) then 29 else 28)
    else if m == 4 || m == 6 || m == 9 || m == 11 then 30
    else 31
  }

  datatype Fields = Fields(y: int, m: int, d: int, h: int, minute: int, sec: int)

  function FieldsOf(s: bytes): (f: Fields)
    requires DatePart(s)
  {
    Fields(Num(s, 0, 4), Num(s, 5, 2), Num(s, 8, 2), Num(s, 11, 2), Num(s, 14, 2), Num(s, 17, 2))
  }

  predicate DayOk(y: int, m: int, d: int) {
    1 <= m <= 12 && 1 <= d <= DaysIn(y, m)
  }

  predicate FieldsOk(f: Fields) {
    DayOk(f.y, f.m, f.d) && f.h <= 23 && f.minute <= 59 && f.sec <= 59
  }

  /** The offset's minutes are in range, for a zone that has one. */
  predicate OffsetOk(s: bytes)
    requires Lexical(s)
  {
    var z := ZoneAt(s);
    s[z] == PLUS || s[z] == MINUS ==> Num(s, z + 1, 2) <= 23 && Num(s, z + 4, 2) <= 59
  }

  /** What the zone adds to UTC, in minutes. */
  function Offset(s: bytes): int
    requires Lexical(s)
  {
    var z := ZoneAt(s);
    if s[z] == PLUS then Num(s, z + 1, 2) * 60 + Num(s, z + 4, 2)
    else if s[z] == MINUS then -(Num(s, z + 1, 2) * 60 + Num(s, z + 4, 2))
    else 0
  }

  // ---- The normaliser ----

  datatype Day = Day(y: int, m: int, d: int)

  /** The day carry, as the code makes it: through the start of a month, then through its end. */
  function Carry(y: int, m: int, d: int): Day {
    if d == 0 then
      var py, pm := if m - 1 == 0 then y - 1 else y, if m - 1 == 0 then 12 else m - 1;
      Day(py, pm, DaysIn(py, pm))
    else if d > DaysIn(y, m) then
      Day(if m + 1 == 13 then y + 1 else y, if m + 1 == 13 then 1 else m + 1, 1)
    else Day(y, m, d)
  }

  function Digit(v: int, unit: int): (c: byte)
    requires v >= 0 && unit > 0
    ensures IsDigit(c)
  {
    ZERO + v / unit % 10
  }

  function FractionDigit(f: bytes, k: nat): (c: byte) {
    if k < |f| then f[k] else ZERO
  }

  /** The one spelling of a UTC time. */
  function Spell(y: nat, m: nat, d: nat, h: nat, minute: nat, sec: nat, f: bytes): (r: bytes)
    ensures |r| == 27
  {
    [ Digit(y, 1000), Digit(y, 100), Digit(y, 10), Digit(y, 1), MINUS, Digit(m, 10), Digit(m, 1), MINUS,
      Digit(d, 10), Digit(d, 1), UPPER_T, Digit(h, 10), Digit(h, 1), COLON, Digit(minute, 10), Digit(minute, 1), COLON,
      Digit(sec, 10), Digit(sec, 1), DOT, FractionDigit(f, 0), FractionDigit(f, 1), FractionDigit(f, 2),
      FractionDigit(f, 3), FractionDigit(f, 4), FractionDigit(f, 5), UPPER_Z ]
  }

  /** The normaliser's result; empty for a timestamp it refuses. */
  function Normalized(s: bytes): (r: bytes) {
    if !Lexical(s) || !FieldsOk(FieldsOf(s)) || !OffsetOk(s) then []
    else
      var f := FieldsOf(s);
      var total := f.h * 60 + f.minute - Offset(s);
      var step := if total < 0 then -1 else if total >= 1440 then 1 else 0;
      var day := Carry(f.y, f.m, f.d + step);
      var utc := total - step * 1440;
      if day.y < 0 || day.y > 9999 then []
      else Spell(day.y, day.m, day.d, utc / 60, utc % 60, f.sec, Fraction(s))
  }

  // ---- The instant a timestamp denotes ----

  function DaysBeforeMonth(y: int, m: nat): nat {
    if m <= 1 then 0 else DaysBeforeMonth(y, m - 1) + DaysIn(y, m - 1)
  }

  function YearDays(y: int): nat {
    DaysBeforeMonth(y, 13)
  }

  /** Days from 0000-01-01 to the first day of year y, counted year by year. */
  function DaysBeforeYear(y: int): int
    decreases if y < 0 then -y else y
  {
    if y == 0 then 0
    else if y < 0 then DaysBeforeYear(y + 1) - YearDays(y)
    else DaysBeforeYear(y - 1) + YearDays(y - 1)
  }

  function DayNumber(y: int, m: nat, d: int): int {
    DaysBeforeYear(y) + DaysBeforeMonth(y, m) + (d - 1)
  }

  function Pow10(n: nat): (p: nat)
    ensures p > 0
  {
    if n == 0 then 1 else 10 * Pow10(n - 1)
  }

  /** The fraction in nanoseconds. */
  function Nanos(f: bytes): nat
    requires |f| <= 9 && AllDigits(f)
  {
    DigitsValue(f) * Pow10(9 - |f|)
  }

  function DigitsValue(f: bytes): nat
    requires AllDigits(f)
  {
    if |f| == 0 then 0
    else
      assert f[|f| - 1] in f;
      DigitsValue(f[..|f| - 1]) * 10 + (f[|f| - 1] - ZERO)
  }

  /** A timestamp that names a time: the lexical form, real calendar fields, an offset under a day. */
  predicate Readable(s: bytes) {
    Lexical(s) && FieldsOk(FieldsOf(s)) && OffsetOk(s)
  }

  /** UTC minutes since 0000-01-01T00:00. */
  function Minutes(s: bytes): int
    requires Readable(s)
  {
    var f := FieldsOf(s);
    DayNumber(f.y, f.m, f.d) * 1440 + f.h * 60 + f.minute - Offset(s)
  }

  /** UTC nanoseconds since 0000-01-01T00:00:00. */
  function Instant(s: bytes): int
    requires Readable(s)
  {
    (Minutes(s) * 60 + FieldsOf(s).sec) * 1_000_000_000 + Nanos(Fraction(s))
  }

  // ---- Calendar ----

  lemma MonthsBefore(y: int)
    ensures YearDays(y) == if IsLeap(y) then 366 else 365
    ensures DaysBeforeMonth(y, 2) == 31
    ensures DaysBeforeMonth(y, 12) + 31 == YearDays(y)
  {
    assert DaysBeforeMonth(y, 2) == DaysBeforeMonth(y, 1) + 31;
    assert DaysBeforeMonth(y, 3) == 31 + DaysIn(y, 2);
    assert DaysBeforeMonth(y, 4) == DaysBeforeMonth(y, 3) + 31;
    assert DaysBeforeMonth(y, 5) == DaysBeforeMonth(y, 4) + 30;
    assert DaysBeforeMonth(y, 6) == DaysBeforeMonth(y, 5) + 31;
    assert DaysBeforeMonth(y, 7) == DaysBeforeMonth(y, 6) + 30;
    assert DaysBeforeMonth(y, 8) == DaysBeforeMonth(y, 7) + 31;
    assert DaysBeforeMonth(y, 9) == DaysBeforeMonth(y, 8) + 31;
    assert DaysBeforeMonth(y, 10) == DaysBeforeMonth(y, 9) + 30;
    assert DaysBeforeMonth(y, 11) == DaysBeforeMonth(y, 10) + 31;
    assert DaysBeforeMonth(y, 12) == DaysBeforeMonth(y, 11) + 30;
    assert DaysBeforeMonth(y, 13) == DaysBeforeMonth(y, 12) + 31;
  }

  lemma NextYear(y: int)
    ensures DaysBeforeYear(y + 1) == DaysBeforeYear(y) + YearDays(y)
  {
  }

  /** One day's carry lands on the day it counts to, and on a day of the calendar. */
  lemma CarryCounts(y: int, m: int, d: int, step: int)
    requires DayOk(y, m, d) && -1 <= step <= 1
    ensures var c := Carry(y, m, d + step);
            DayOk(c.y, c.m, c.d) && y - 1 <= c.y <= y + 1
            && DayNumber(c.y, c.m, c.d) == DayNumber(y, m, d) + step
  {
    if d + step == 0 && m == 1 {
      NextYear(y - 1);
      MonthsBefore(y - 1);
    } else if d + step > DaysIn(y, m) && m == 12 {
      NextYear(y);
      MonthsBefore(y);
    }
  }

  lemma {:induction false} YearsGrow(a: int, b: int)
    requires a <= b
    ensures DaysBeforeYear(b) - DaysBeforeYear(a) >= 365 * (b - a)
    decreases b - a
  {
    hide DaysBeforeYear;
    if a < b {
      YearsGrow(a, b - 1);
      YearIsLong(b - 1);
    }
  }

  lemma YearIsLong(y: int)
    ensures DaysBeforeYear(y + 1) - DaysBeforeYear(y) >= 365
  {
    NextYear(y);
    MonthsBefore(y);
  }

  lemma {:induction false} MonthsGrow(y: int, a: nat, b: nat)
    requires 1 <= a <= b
    ensures DaysBeforeMonth(y, a) <= DaysBeforeMonth(y, b)
    ensures a < b ==> DaysBeforeMonth(y, a) + DaysIn(y, a) <= DaysBeforeMonth(y, b)
    decreases b - a
  {
    if a < b {
      MonthsGrow(y, a, b - 1);
    }
  }

  /** A day lies within its year. */
  lemma DayInYear(y: int, m: int, d: int)
    requires DayOk(y, m, d)
    ensures DaysBeforeYear(y) <= DayNumber(y, m, d) < DaysBeforeYear(y + 1)
  {
    MonthsGrow(y, m, 13);
    NextYear(y);
  }

  /** Days in calendar order are days in count order. */
  lemma DaysOrdered(y: int, m: int, d: int, y': int, m': int, d': int)
    requires DayOk(y, m, d) && DayOk(y', m', d')
    requires y < y' || (y == y' && (m < m' || (m == m' && d < d')))
    ensures DayNumber(y, m, d) < DayNumber(y', m', d')
  {
    if y < y' {
      DayInYear(y, m, d);
      DayInYear(y', m', d');
      YearsGrow(y + 1, y');
    } else if m < m' {
      MonthsGrow(y, m, m');
    }
  }

  // ---- What Spell writes is read back ----

  lemma Digits2(v: nat)
    requires v < 100
    ensures (Digit(v, 10) - ZERO) * 10 + (Digit(v, 1) - ZERO) == v
  {
    assert v / 10 % 10 == v / 10;
  }

  lemma Digits4(v: nat)
    requires v <= 9999
    ensures (((Digit(v, 1000) - ZERO) * 10 + (Digit(v, 100) - ZERO)) * 10 + (Digit(v, 10) - ZERO)) * 10 + (Digit(v, 1) - ZERO) == v
  {
    assert v / 1000 % 10 == v / 1000;
    assert v / 100 == v / 1000 * 10 + v / 100 % 10;
    assert v / 10 == v / 100 * 10 + v / 10 % 10;
  }

  lemma Num2(s: bytes, i: nat)
    requires DigitsAt(s, i, 2)
    ensures Num(s, i, 2) == (s[i] - ZERO) * 10 + (s[i + 1] - ZERO) < 100
  {
    assert Num(s, i, 1) == Num(s, i, 0) * 10 + (s[i] - ZERO);
  }

  lemma Num4(s: bytes, i: nat)
    requires DigitsAt(s, i, 4)
    ensures Num(s, i, 4) == (((s[i] - ZERO) * 10 + (s[i + 1] - ZERO)) * 10 + (s[i + 2] - ZERO)) * 10 + (s[i + 3] - ZERO) <= 9999
  {
    assert Num(s, i, 1) == Num(s, i, 0) * 10 + (s[i] - ZERO);
    assert Num(s, i, 2) == Num(s, i, 1) * 10 + (s[i + 1] - ZERO);
    assert Num(s, i, 3) == Num(s, i, 2) * 10 + (s[i + 2] - ZERO);
  }

  /** The six fractional digits a result carries. */
  function Micros(f: bytes): bytes {
    [FractionDigit(f, 0), FractionDigit(f, 1), FractionDigit(f, 2), FractionDigit(f, 3), FractionDigit(f, 4), FractionDigit(f, 5)]
  }

  /** The shape of a result. */
  predicate Shape(r: bytes) {
    && |r| == 27 && DatePart(r) && r[10] == UPPER_T && r[19] == DOT && DigitsAt(r, 20, 6) && r[26] == UPPER_Z
  }

  lemma FractionDigitIsDigit(f: bytes, k: nat)
    requires AllDigits(f)
    ensures IsDigit(FractionDigit(f, k))
  {
  }

  lemma SpellShape(r: bytes, y: nat, m: nat, d: nat, h: nat, minute: nat, sec: nat, f: bytes)
    requires AllDigits(f) && r == Spell(y, m, d, h, minute, sec, f)
    ensures Shape(r) && r[20..26] == Micros(f)
  {
    hide FractionDigit, Digit;
    FractionDigitIsDigit(f, 0);
    FractionDigitIsDigit(f, 1);
    FractionDigitIsDigit(f, 2);
    FractionDigitIsDigit(f, 3);
    FractionDigitIsDigit(f, 4);
    FractionDigitIsDigit(f, 5);
    assert IsDigit(r[0]) && IsDigit(r[1]) && IsDigit(r[2]) && IsDigit(r[3]);
    assert IsDigit(r[5]) && IsDigit(r[6]) && IsDigit(r[8]) && IsDigit(r[9]);
    assert IsDigit(r[11]) && IsDigit(r[12]) && IsDigit(r[14]) && IsDigit(r[15]) && IsDigit(r[17]) && IsDigit(r[18]);
    assert IsDigit(r[20]) && IsDigit(r[21]) && IsDigit(r[22]) && IsDigit(r[23]) && IsDigit(r[24]) && IsDigit(r[25]);
  }

  /** A result is itself a timestamp, in UTC, with the six digits it shows. */
  lemma ShapeLexical(r: bytes)
    requires Shape(r)
    ensures Lexical(r) && ZoneAt(r) == 26 && Fraction(r) == r[20..26] && Offset(r) == 0 && OffsetOk(r)
  {
    assert RunEnd(r, 26) == 26;
    assert RunEnd(r, 25) == 26;
    assert RunEnd(r, 24) == 26;
    assert RunEnd(r, 23) == 26;
    assert RunEnd(r, 22) == 26;
    assert RunEnd(r, 21) == 26;
  }

  lemma SpellDate(r: bytes, y: nat, m: nat, d: nat, h: nat, minute: nat, sec: nat, f: bytes)
    requires r == Spell(y, m, d, h, minute, sec, f) && DatePart(r)
    requires y <= 9999 && m < 100 && d < 100
    ensures Num(r, 0, 4) == y && Num(r, 5, 2) == m && Num(r, 8, 2) == d
  {
    hide FractionDigit, Digit, Num;
    Num4(r, 0);
    Num2(r, 5);
    Num2(r, 8);
    Digits4(y);
    Digits2(m);
    Digits2(d);
  }

  lemma SpellTime(r: bytes, y: nat, m: nat, d: nat, h: nat, minute: nat, sec: nat, f: bytes)
    requires r == Spell(y, m, d, h, minute, sec, f) && DatePart(r)
    requires h < 100 && minute < 100 && sec < 100
    ensures Num(r, 11, 2) == h && Num(r, 14, 2) == minute && Num(r, 17, 2) == sec
  {
    hide FractionDigit, Digit, Num;
    Num2(r, 11);
    Num2(r, 14);
    Num2(r, 17);
    Digits2(h);
    Digits2(minute);
    Digits2(sec);
  }

  // ---- The fraction ----

  /** The first k digits of the fraction, zeros after its end. */
  function Padded(f: bytes, k: nat): (v: nat)
    requires AllDigits(f)
  {
    if k == 0 then 0
    else
      FractionDigitIsDigit(f, k - 1);
      Padded(f, k - 1) * 10 + (FractionDigit(f, k - 1) - ZERO)
  }

  lemma {:induction false} PaddedIsPrefix(f: bytes, k: nat)
    requires AllDigits(f) && k <= |f|
    ensures Padded(f, k) == DigitsValue(f[..k])
  {
    if k > 0 {
      PaddedIsPrefix(f, k - 1);
      assert f[..k][..k - 1] == f[..k - 1];
    }
  }

  lemma {:induction false} PaddedIsScaled(f: bytes, k: nat)
    requires AllDigits(f) && |f| <= k
    ensures Padded(f, k) == DigitsValue(f) * Pow10(k - |f|)
    decreases k
  {
    if k == |f| {
      PaddedIsPrefix(f, k);
      assert f[..k] == f;
    } else {
      PaddedIsScaled(f, k - 1);
      assert Pow10(k - |f|) == 10 * Pow10(k - 1 - |f|);
      var v := DigitsValue(f);
      assert v * Pow10(k - |f|) == 10 * (v * Pow10(k - 1 - |f|));
    }
  }

  lemma {:induction false} PaddedSame(f: bytes, g: bytes, k: nat)
    requires AllDigits(f) && AllDigits(g) && forall i :: 0 <= i < k ==> FractionDigit(f, i) == FractionDigit(g, i)
    ensures Padded(f, k) == Padded(g, k)
  {
    if k > 0 {
      PaddedSame(f, g, k - 1);
    }
  }

  lemma PaddedNine(f: bytes)
    requires AllDigits(f)
    ensures Padded(f, 6) * 1000 <= Padded(f, 9) < (Padded(f, 6) + 1) * 1000
    ensures |f| <= 6 ==> Padded(f, 9) == Padded(f, 6) * 1000
  {
    FractionDigitIsDigit(f, 6);
    FractionDigitIsDigit(f, 7);
    FractionDigitIsDigit(f, 8);
    assert Padded(f, 7) == Padded(f, 6) * 10 + (FractionDigit(f, 6) - ZERO);
    assert Padded(f, 8) == Padded(f, 7) * 10 + (FractionDigit(f, 7) - ZERO);
    assert Padded(f, 9) == Padded(f, 8) * 10 + (FractionDigit(f, 8) - ZERO);
  }

  lemma {:induction false} PaddedBound(f: bytes, k: nat)
    requires AllDigits(f)
    ensures Padded(f, k) < Pow10(k)
  {
    if k > 0 {
      PaddedBound(f, k - 1);
      FractionDigitIsDigit(f, k - 1);
    }
  }

  lemma MicrosAreDigits(f: bytes)
    requires AllDigits(f)
    ensures AllDigits(Micros(f)) && |Micros(f)| == 6
    ensures Padded(Micros(f), 6) == Padded(f, 6)
  {
    FractionDigitIsDigit(f, 0);
    FractionDigitIsDigit(f, 1);
    FractionDigitIsDigit(f, 2);
    FractionDigitIsDigit(f, 3);
    FractionDigitIsDigit(f, 4);
    FractionDigitIsDigit(f, 5);
    PaddedSame(f, Micros(f), 6);
  }

  lemma PowersOfTen()
    ensures Pow10(0) == 1 && Pow10(3) == 1000 && Pow10(6) == 1_000_000 && Pow10(9) == 1_000_000_000
  {
    assert Pow10(6) == 1000 * Pow10(3);
    assert Pow10(9) == 1000 * Pow10(6);
  }

  /** Six digits drop what is below a microsecond. */
  lemma FractionTruncated(f: bytes)
    requires |f| <= 9 && AllDigits(f)
    ensures AllDigits(Micros(f)) && Nanos(Micros(f)) == Nanos(f) / 1000 * 1000
    ensures Nanos(f) < 1_000_000_000
  {
    hide Padded, Pow10, Micros;
    MicrosAreDigits(f);
    PaddedIsScaled(f, 9);
    PaddedIsScaled(Micros(f), 9);
    PaddedNine(f);
    PaddedNine(Micros(f));
    PaddedBound(f, 9);
    PowersOfTen();
  }

  // ---- What the normaliser promises ----

  /** The day and minute of the day that UTC shows. */
  function UtcDay(s: bytes): Day
    requires Readable(s)
  {
    var f := FieldsOf(s);
    var total := f.h * 60 + f.minute - Offset(s);
    Carry(f.y, f.m, f.d + if total < 0 then -1 else if total >= 1440 then 1 else 0)
  }

  lemma OffsetUnderADay(s: bytes)
    requires Readable(s)
    ensures -1440 < Offset(s) < 1440
  {
    hide Num;
    var z := ZoneAt(s);
    if s[z] == PLUS || s[z] == MINUS {
      Num2(s, z + 1);
      Num2(s, z + 4);
    }
  }

  lemma FieldsInRange(s: bytes)
    requires Readable(s)
    ensures var f := FieldsOf(s); 0 <= f.y <= 9999 && f.h >= 0 && f.minute >= 0 && f.sec >= 0
  {
    hide Num;
    Num4(s, 0);
    Num2(s, 11);
    Num2(s, 14);
    Num2(s, 17);
  }

  /** The carried day and the rest of the minutes are the UTC minutes. */
  lemma UtcMinutes(s: bytes)
    requires Readable(s)
    ensures var c := UtcDay(s);
            var utc := Minutes(s) - DayNumber(c.y, c.m, c.d) * 1440;
            DayOk(c.y, c.m, c.d) && -1 <= c.y <= 10000 && 0 <= utc < 1440
            && (Normalized(s) == if c.y < 0 || c.y > 9999 then []
                                 else Spell(c.y, c.m, c.d, utc / 60, utc % 60, FieldsOf(s).sec, Fraction(s)))
  {
    hide Lexical, Spell, Num, DayNumber, Carry, DaysIn;
    ReadableParts(s);
    var f := FieldsOf(s);
    var total := f.h * 60 + f.minute - Offset(s);
    var step := if total < 0 then -1 else if total >= 1440 then 1 else 0;
    OffsetUnderADay(s);
    FieldsInRange(s);
    ReadableParts(s);
    CarryCounts(f.y, f.m, f.d, step);
  }

  lemma ReadableParts(s: bytes)
    requires Readable(s)
    ensures Lexical(s) && DatePart(s) && |Fraction(s)| <= 9 && AllDigits(Fraction(s))
  {
  }

  lemma YearZero()
    ensures DaysBeforeYear(0) == 0
  {
  }

  /** The first day of year 10000. */
  function EndOfRange(): int {
    DaysBeforeYear(10000)
  }

  /** The year is in range exactly when the instant is. */
  lemma YearInRange(s: bytes)
    requires Readable(s)
    ensures 0 <= UtcDay(s).y <= 9999 <==> 0 <= Instant(s) < EndOfRange() * 86_400_000_000_000
  {
    hide Lexical, Num, DayNumber, Carry, DaysBeforeYear, Nanos;
    UtcMinutes(s);
    FieldsInRange(s);
    ReadableParts(s);
    FractionTruncated(Fraction(s));
    var c := UtcDay(s);
    DayInYear(c.y, c.m, c.d);
    YearZero();
    if c.y < 0 {
      YearsGrow(c.y + 1, 0);
    } else {
      YearsGrow(0, c.y);
    }
    if c.y <= 9999 {
      YearsGrow(c.y + 1, 10000);
    } else {
      YearsGrow(10000, c.y);
    }
  }

  /**
   The result is empty exactly for a timestamp that is lexically invalid, names
   no calendar time, or falls outside years 0 to 9999 in UTC.
   */
  lemma NormalizedEmpty(s: bytes)
    ensures Normalized(s) != [] <==> Readable(s) && 0 <= Instant(s) < EndOfRange() * 86_400_000_000_000
  {
    hide Lexical, Num, Spell, Instant, Carry;
    if Readable(s) {
      UtcMinutes(s);
      YearInRange(s);
      var c := UtcDay(s);
      if 0 <= c.y <= 9999 {
        assert |Normalized(s)| == 27;
      }
    }
  }

  /** A spelled time reads back as the fields it was spelled from. */
  lemma SpellReadBack(r: bytes, c: Day, utc: int, sec: int, f: bytes)
    requires DayOk(c.y, c.m, c.d) && 0 <= c.y <= 9999 && 0 <= utc < 1440 && 0 <= sec <= 59 && AllDigits(f)
    requires r == Spell(c.y, c.m, c.d, utc / 60, utc % 60, sec, f)
    ensures Shape(r) && Readable(r) && Offset(r) == 0 && Fraction(r) == Micros(f)
    ensures FieldsOf(r) == Fields(c.y, c.m, c.d, utc / 60, utc % 60, sec)
  {
    hide Lexical, Num, Spell, Micros, DaysIn, Fraction, OffsetOk, Offset;
    assert utc / 60 < 24 && utc % 60 < 60;
    SpellShape(r, c.y, c.m, c.d, utc / 60, utc % 60, sec, f);
    ShapeLexical(r);
    SpellDate(r, c.y, c.m, c.d, utc / 60, utc % 60, sec, f);
    SpellTime(r, c.y, c.m, c.d, utc / 60, utc % 60, sec, f);
  }

  /** What the result shows: the UTC day, minute and second, and six digits of the fraction. */
  lemma NormalizedShows(s: bytes)
    requires Normalized(s) != []
    ensures Readable(s) && Shape(Normalized(s)) && Readable(Normalized(s))
    ensures var c, r := UtcDay(s), Normalized(s);
            var utc := Minutes(s) - DayNumber(c.y, c.m, c.d) * 1440;
            && FieldsOf(r) == Fields(c.y, c.m, c.d, utc / 60, utc % 60, FieldsOf(s).sec)
            && Offset(r) == 0 && Fraction(r) == Micros(Fraction(s))
  {
    hide Num, Spell, DayNumber, Micros, Minutes, UtcDay, DaysIn, Normalized, Shape, Fraction, OffsetOk, Offset, Readable;
    NormalizedEmpty(s);
    UtcMinutes(s);
    FieldsInRange(s);
    ReadableParts(s);
    var c := UtcDay(s);
    var utc := Minutes(s) - DayNumber(c.y, c.m, c.d) * 1440;
    SecondsOk(s);
    SpellReadBack(Normalized(s), c, utc, FieldsOf(s).sec, Fraction(s));
  }

  lemma SecondsOk(s: bytes)
    requires Readable(s)
    ensures DatePart(s) && 0 <= FieldsOf(s).sec <= 59
  {
    FieldsInRange(s);
  }

  lemma SameMinutes(s: bytes)
    requires Normalized(s) != []
    ensures Readable(s) && Readable(Normalized(s)) && Minutes(Normalized(s)) == Minutes(s)
    ensures FieldsOf(Normalized(s)).sec == FieldsOf(s).sec
  {
    hide Num, DayNumber, Micros, Normalized, Shape, FieldsOf, Offset, Fraction, Readable, UtcDay, DaysIn;
    NormalizedShows(s);
    ReadableParts(s);
    UtcMinutes(s);
    var utc := Minutes(s) - DayNumber(UtcDay(s).y, UtcDay(s).m, UtcDay(s).d) * 1440;
    assert utc == utc / 60 * 60 + utc % 60;
  }

  /** The result denotes the input's instant to the microsecond, and is a timestamp of its own. */
  lemma NormalizedDenotes(s: bytes)
    requires Normalized(s) != []
    ensures Readable(s) && Readable(Normalized(s)) && Shape(Normalized(s))
    ensures Instant(Normalized(s)) == Instant(s) / 1000 * 1000
  {
    hide Num, Nanos, Micros, Normalized, Shape, FieldsOf, Offset, Fraction, Readable, UtcDay, DaysIn, Minutes, DayNumber;
    NormalizedShows(s);
    SameMinutes(s);
    ReadableParts(s);
    FractionTruncated(Fraction(s));
    Truncates(Minutes(s) * 60 + FieldsOf(s).sec, Nanos(Fraction(s)));
  }

  lemma Truncates(seconds: int, nanos: nat)
    ensures (seconds * 1_000_000_000 + nanos) / 1000 * 1000 == seconds * 1_000_000_000 + nanos / 1000 * 1000
  {
    assert (seconds * 1_000_000_000 + nanos) / 1000 == seconds * 1_000_000 + nanos / 1000;
  }

  // ---- String order is time order ----

  /** The byte order of two strings, as byteLess decides it from offset i on. */
  predicate ByteLess(a: bytes, b: bytes, i: nat)
    decreases |a| - i
  {
    if i >= |a| || i >= |b| then |a| < |b|
    else if a[i] != b[i] then a[i] < b[i]
    else ByteLess(a, b, i + 1)
  }

  /** A result of the normaliser. */
  predicate IsResult(r: bytes) {
    Shape(r) && Readable(r)
  }

  lemma {:induction false} FirstDifference(a: bytes, b: bytes, i: nat) returns (k: nat)
    requires |a| == |b| && i <= |a| && a[..i] == b[..i] && ByteLess(a, b, i)
    ensures i <= k < |a| && a[..k] == b[..k] && a[k] < b[k]
    decreases |a| - i
  {
    if a[i] != b[i] {
      k := i;
    } else {
      assert a[..i + 1] == a[..i] + [a[i]] == b[..i + 1];
      k := FirstDifference(a, b, i + 1);
    }
  }

  lemma {:induction false} NumSame(a: bytes, b: bytes, i: nat, n: nat)
    requires DigitsAt(a, i, n) && DigitsAt(b, i, n) && forall j :: i <= j < i + n ==> a[j] == b[j]
    ensures Num(a, i, n) == Num(b, i, n)
  {
    if n > 0 {
      NumSame(a, b, i, n - 1);
    }
  }

  lemma {:induction false} NumLess(a: bytes, b: bytes, i: nat, n: nat, k: nat)
    requires DigitsAt(a, i, n) && DigitsAt(b, i, n) && i <= k < i + n
    requires (forall j :: i <= j < k ==> a[j] == b[j]) && a[k] < b[k]
    ensures Num(a, i, n) < Num(b, i, n)
    decreases n
  {
    if k == i + n - 1 {
      NumSame(a, b, i, n - 1);
    } else {
      NumLess(a, b, i, n - 1, k);
    }
  }

  /** The numbers at i compare as the strings do when their first difference is at k. */
  lemma NumCompare(a: bytes, b: bytes, i: nat, n: nat, k: nat)
    requires DigitsAt(a, i, n) && DigitsAt(b, i, n) && k < |a| && k < |b| && a[..k] == b[..k] && a[k] < b[k]
    ensures i + n <= k ==> Num(a, i, n) == Num(b, i, n)
    ensures i <= k < i + n ==> Num(a, i, n) < Num(b, i, n)
  {
    assert forall j :: 0 <= j < k ==> a[j] == a[..k][j] == b[..k][j] == b[j];
    if i + n <= k {
      NumSame(a, b, i, n);
    } else if i <= k {
      NumLess(a, b, i, n, k);
    }
  }

  lemma {:induction false} NumBound(s: bytes, i: nat, n: nat)
    requires DigitsAt(s, i, n)
    ensures Num(s, i, n) < Pow10(n)
  {
    if n > 0 {
      NumBound(s, i, n - 1);
    }
  }

  lemma {:induction false} PaddedIsNum(r: bytes, f: bytes, k: nat)
    requires DigitsAt(r, 20, 6) && |r| >= 26 && f == r[20..26] && AllDigits(f) && k <= 6
    ensures Padded(f, k) == Num(r, 20, k)
  {
    if k > 0 {
      PaddedIsNum(r, f, k - 1);
      assert f[k - 1] == r[20 + k - 1];
    }
  }

  /** A result's instant by the numbers it shows. */
  lemma ResultInstant(r: bytes)
    requires IsResult(r)
    ensures var f := FieldsOf(r);
            var seconds := (DayNumber(f.y, f.m, f.d) * 1440 + f.h * 60 + f.minute) * 60 + f.sec;
            Instant(r) == seconds * 1_000_000_000 + Num(r, 20, 6) * 1000
    ensures Num(r, 20, 6) < 1_000_000
  {
    hide Num, DayNumber, Lexical, DatePart, DaysIn, FieldsOf, FieldsOk;
    ShapeLexical(r);
    var f := Fraction(r);
    PaddedIsNum(r, f, 6);
    PaddedIsScaled(f, 9);
    PaddedNine(f);
    NumBound(r, 20, 6);
    PowersOfTen();
  }

  lemma ResultsDiffer(a: bytes, b: bytes, k: nat)
    requires IsResult(a) && IsResult(b) && k < 27 && a[..k] == b[..k] && a[k] < b[k]
    ensures Instant(a) < Instant(b)
  {
    hide Num, DayNumber, Lexical, Instant, DaysIn, OffsetOk;
    ResultInstant(a);
    ResultInstant(b);
    FieldsInRange(a);
    FieldsInRange(b);
    NumCompare(a, b, 0, 4, k);
    NumCompare(a, b, 5, 2, k);
    NumCompare(a, b, 8, 2, k);
    NumCompare(a, b, 11, 2, k);
    NumCompare(a, b, 14, 2, k);
    NumCompare(a, b, 17, 2, k);
    NumCompare(a, b, 20, 6, k);
    var f, g := FieldsOf(a), FieldsOf(b);
    if k < 10 {
      DaysOrdered(f.y, f.m, f.d, g.y, g.m, g.d);
    }
  }

  /** Results in byte order are instants in time order, and one instant has one result. */
  lemma StringOrderIsTimeOrder(a: bytes, b: bytes)
    requires IsResult(a) && IsResult(b)
    ensures ByteLess(a, b, 0) <==> Instant(a) < Instant(b)
    ensures a == b <==> Instant(a) == Instant(b)
  {
    hide IsResult, Instant;
    assert |a| == |b| == 27 by { ResultLength(a); ResultLength(b); }
    assert a[..0] == b[..0];
    if ByteLess(a, b, 0) {
      var k := FirstDifference(a, b, 0);
      ResultsDiffer(a, b, k);
    } else if ByteLess(b, a, 0) {
      var k := FirstDifference(b, a, 0);
      ResultsDiffer(b, a, k);
    } else {
      NeitherLess(a, b, 0);
    }
  }

  lemma ResultLength(r: bytes)
    requires IsResult(r)
    ensures |r| == 27
  {
  }

  lemma {:induction false} NeitherLess(a: bytes, b: bytes, i: nat)
    requires |a| == |b| && i <= |a| && a[..i] == b[..i] && !ByteLess(a, b, i) && !ByteLess(b, a, i)
    ensures a == b
    decreases |a| - i
  {
    if i < |a| {
      assert a[..i + 1] == a[..i] + [a[i]] == b[..i + 1];
      NeitherLess(a, b, i + 1);
    } else {
      assert a == a[..i] && b == b[..i];
    }
  }

  /** What a reader hands on is a fixed point. */
  lemma NormalizedIdempotent(s: bytes)
    requires Normalized(s) != []
    ensures Normalized(Normalized(s)) == Normalized(s)
  {
    hide Normalized, Shape, Instant, Readable, DaysBeforeYear, EndOfRange, IsResult;
    var r := Normalized(s);
    NormalizedShows(s);
    NormalizedDenotes(s);
    NormalizedEmpty(s);
    TruncatedStays(Instant(s), EndOfRange());
    NormalizedEmpty(r);
    NormalizedShows(r);
    NormalizedDenotes(r);
    ResultsAre(r);
    ResultsAre(Normalized(r));
    StringOrderIsTimeOrder(r, Normalized(r));
  }

  lemma TruncatedStays(i: int, end: int)
    requires 0 <= i < end * 86_400_000_000_000
    ensures 0 <= i / 1000 * 1000 < end * 86_400_000_000_000
    ensures i / 1000 * 1000 / 1000 * 1000 == i / 1000 * 1000
  {
  }

  lemma ResultsAre(r: bytes)
    requires Shape(r) && Readable(r)
    ensures IsResult(r)
  {
  }

  // ---- The normaliser as it runs ----

  method ReadNumber(s: bytes, i: nat, n: nat) returns (v: nat)
    requires DigitsAt(s, i, n)
    ensures v == Num(s, i, n)
  {
    v := 0;
    var k := 0;
    while k < n
      invariant k <= n && v == Num(s, i, k)
    {
      v := v * 10 + (s[i + k] - ZERO);
      k := k + 1;
    }
  }

  lemma MulAtLeast(m: nat, k: int)
    requires m > 0
    ensures k >= 1 ==> m * k >= m
    ensures k <= -1 ==> m * k + m <= 0
  {
  }

  lemma DivUnique(v: nat, m: nat, a: nat, c: nat)
    requires v == m * a + c && c < m
    ensures v / m == a
  {
    var q := v / m;
    assert v == m * q + v % m;
    assert m * (q - a) == c - v % m;
    MulAtLeast(m, q - a);
  }

  lemma TenTimes(p: nat, q: nat, a: nat, b: nat)
    requires q == 10 * a + b && b <= 9
    ensures p * q == 10 * p * a + p * b && p * b <= p * 9
  {
    assert p * q == p * (10 * a) + p * b;
    assert p * (10 * a) == 10 * p * a;
  }

  /** Dropping one more digit. */
  lemma DropDigit(v: nat, p: nat)
    requires p > 0
    ensures v / p / 10 == v / (10 * p)
  {
    var q, r := v / p, v % p;
    var a, b := q / 10, q % 10;
    assert v == p * q + r;
    TenTimes(p, q, a, b);
    DivUnique(v, 10 * p, a, p * b + r);
  }

  /** Writes the last width digits of value at offset i, last digit first. */
  method Put(out: array<byte>, i: nat, width: nat, value: nat)
    requires i + width <= out.Length
    modifies out
    ensures forall j :: 0 <= j < out.Length && !(i <= j < i + width) ==> out[j] == old(out[j])
    ensures forall j :: i <= j < i + width ==> out[j] == ZERO + value / Pow10(i + width - 1 - j) % 10
  {
    var rest := value;
    var k := width;
    while k > 0
      invariant 0 <= k <= width
      invariant rest == value / Pow10(width - k)
      invariant forall j :: 0 <= j < out.Length && !(i + k <= j < i + width) ==> out[j] == old(out[j])
      invariant forall j :: i + k <= j < i + width ==> out[j] == ZERO + value / Pow10(i + width - 1 - j) % 10
    {
      k := k - 1;
      out[i + k] := ZERO + rest % 10;
      DropDigit(value, Pow10(width - 1 - k));
      rest := rest / 10;
    }
  }

  /** The digits Put leaves, by their units. */
  lemma UnitsOfTen()
    ensures Pow10(0) == 1 && Pow10(1) == 10 && Pow10(2) == 100 && Pow10(3) == 1000
  {
  }

  method PutDate(out: array<byte>, y: nat, m: nat, d: nat)
    requires out.Length == 27
    modifies out
    ensures out[0] == Digit(y, 1000) && out[1] == Digit(y, 100) && out[2] == Digit(y, 10) && out[3] == Digit(y, 1)
    ensures out[5] == Digit(m, 10) && out[6] == Digit(m, 1) && out[8] == Digit(d, 10) && out[9] == Digit(d, 1)
    ensures out[4] == old(out[4]) && out[7] == old(out[7])
    ensures forall j :: 10 <= j < 27 ==> out[j] == old(out[j])
  {
    UnitsOfTen();
    Put(out, 0, 4, y);
    Put(out, 5, 2, m);
    Put(out, 8, 2, d);
  }

  method PutTime(out: array<byte>, h: nat, minute: nat, sec: nat)
    requires out.Length == 27
    modifies out
    ensures out[11] == Digit(h, 10) && out[12] == Digit(h, 1) && out[14] == Digit(minute, 10) && out[15] == Digit(minute, 1)
    ensures out[17] == Digit(sec, 10) && out[18] == Digit(sec, 1)
    ensures out[13] == old(out[13]) && out[16] == old(out[16])
    ensures forall j :: 0 <= j < 11 || 19 <= j < 27 ==> out[j] == old(out[j])
  {
    UnitsOfTen();
    Put(out, 11, 2, h);
    Put(out, 14, 2, minute);
    Put(out, 17, 2, sec);
  }

  method PutFraction(out: array<byte>, fraction: bytes)
    requires out.Length == 27 && forall j :: 20 <= j < 26 ==> out[j] == ZERO
    modifies out
    ensures forall j :: 20 <= j < 26 ==> out[j] == FractionDigit(fraction, j - 20)
    ensures forall j :: 0 <= j < 20 || j == 26 ==> out[j] == old(out[j])
  {
    var k := 0;
    while k < 6 && k < |fraction|
      invariant k <= 6
      invariant forall j :: 0 <= j < 20 || j == 26 ==> out[j] == old(out[j])
      invariant forall j :: 20 + k <= j < 26 ==> out[j] == ZERO
      invariant forall j :: 20 <= j < 20 + k ==> out[j] == FractionDigit(fraction, j - 20)
    {
      out[20 + k] := fraction[k];
      k := k + 1;
    }
  }

  method WriteOut(y: nat, m: nat, d: nat, h: nat, minute: nat, sec: nat, fraction: bytes) returns (r: bytes)
    ensures r == Spell(y, m, d, h, minute, sec, fraction)
  {
    hide Digit, FractionDigit;
    var out := new byte[] [ ZERO, ZERO, ZERO, ZERO, MINUS, ZERO, ZERO, MINUS, ZERO, ZERO, UPPER_T, ZERO, ZERO, COLON, ZERO, ZERO,
                            COLON, ZERO, ZERO, DOT, ZERO, ZERO, ZERO, ZERO, ZERO, ZERO, UPPER_Z ];
    PutDate(out, y, m, d);
    PutTime(out, h, minute, sec);
    PutFraction(out, fraction);
    return out[..];
  }

  /** The day carry, with the variables it updates. */
  method CarryDay(y0: int, m0: int, d0: int) returns (y: int, m: int, d: int)
    ensures Day(y, m, d) == Carry(y0, m0, d0)
  {
    y, m, d := y0, m0, d0;
    if d == 0 {
      m := m - 1;
      if m == 0 {
        y := y - 1;
        m := 12;
      }
      d := DaysIn(y, m);
    }
    if d > DaysIn(y, m) {
      d := 1;
      m := m + 1;
      if m == 13 {
        y := y + 1;
        m := 1;
      }
    }
  }

  /** The walk over the fraction: its digits, and where the zone stands. */
  method ReadFraction(s: bytes) returns (i: nat, fraction: bytes)
    requires Lexical(s)
    ensures i == ZoneAt(s) && fraction == Fraction(s)
  {
    i, fraction := 19, [];
    if s[i] == DOT {
      i := i + 1;
      while i < |s| && IsDigit(s[i])
        invariant 20 <= i <= |s| && RunEnd(s, 20) == RunEnd(s, i)
      {
        i := i + 1;
      }
      fraction := s[20..i];
    }
  }

  /** The zone's minutes; ok is false for an offset out of range. */
  method ReadOffset(s: bytes, i: nat) returns (ok: bool, offset: int)
    requires Lexical(s) && i == ZoneAt(s)
    ensures ok == OffsetOk(s) && offset == Offset(s)
  {
    ok, offset := true, 0;
    if s[i] == PLUS || s[i] == MINUS {
      var oh := ReadNumber(s, i + 1, 2);
      var om := ReadNumber(s, i + 4, 2);
      ok := oh <= 23 && om <= 59;
      var minutes: int := oh * 60 + om;
      offset := if s[i] == PLUS then minutes else -minutes;
    }
  }

  /** The normal form of fields, an offset in minutes and a fraction. */
  function NormalizedFrom(f: Fields, offset: int, fraction: bytes): bytes
    requires FieldsOk(f) && f.h >= 0 && f.minute >= 0 && f.sec >= 0 && -1440 < offset < 1440 && AllDigits(fraction)
  {
    var total := f.h * 60 + f.minute - offset;
    var step := if total < 0 then -1 else if total >= 1440 then 1 else 0;
    var day := Carry(f.y, f.m, f.d + step);
    CarryCounts(f.y, f.m, f.d, step);
    var utc := total - step * 1440;
    if day.y < 0 || day.y > 9999 then []
    else Spell(day.y, day.m, day.d, utc / 60, utc % 60, f.sec, fraction)
  }

  lemma NormalizedIs(s: bytes)
    requires Readable(s)
    ensures var f := FieldsOf(s); f.h >= 0 && f.minute >= 0 && f.sec >= 0 && -1440 < Offset(s) < 1440
    ensures Normalized(s) == NormalizedFrom(FieldsOf(s), Offset(s), Fraction(s))
  {
    hide Spell, Carry, DaysIn, Num;
    FieldsInRange(s);
    OffsetUnderADay(s);
  }

  /** The conversion to UTC, the day carried through its month and its year. */
  method Convert(f: Fields, offset: int, fraction: bytes) returns (r: bytes)
    requires FieldsOk(f) && f.h >= 0 && f.minute >= 0 && f.sec >= 0 && -1440 < offset < 1440 && AllDigits(fraction)
    ensures r == NormalizedFrom(f, offset, fraction)
  {
    hide Spell, Carry, DaysIn, DayNumber;
    var y, m, d := f.y, f.m, f.d;
    var total: int := f.h * 60 + f.minute - offset;
    ghost var step := if total < 0 then -1 else if total >= 1440 then 1 else 0;
    CarryCounts(f.y, f.m, f.d, step);
    if total < 0 {
      total := total + 1440;
      d := d - 1;
    } else if total >= 1440 {
      total := total - 1440;
      d := d + 1;
    }
    y, m, d := CarryDay(y, m, d);
    if y < 0 || y > 9999 {
      return [];
    }
    r := WriteOut(y, m, d, total / 60, total % 60, f.sec, fraction);
  }

  /** normalizedTimestamp, with the variables it updates. */
  method Normalize(s: bytes) returns (r: bytes)
    ensures r == Normalized(s)
  {
    hide Num, DaysIn, NormalizedFrom, ZoneAt, Offset, Fraction;
    if !Lexical(s) {
      return [];
    }
    var y: int := ReadNumber(s, 0, 4);
    var m: int := ReadNumber(s, 5, 2);
    var d: int := ReadNumber(s, 8, 2);
    var h: int := ReadNumber(s, 11, 2);
    var minute: int := ReadNumber(s, 14, 2);
    var sec: int := ReadNumber(s, 17, 2);
    if m < 1 || m > 12 || d < 1 || d > DaysIn(y, m) || h > 23 || minute > 59 || sec > 59 {
      return [];
    }
    var i, fraction := ReadFraction(s);
    var ok, offset := ReadOffset(s, i);
    if !ok {
      return [];
    }
    NormalizedIs(s);
    r := Convert(Fields(y, m, d, h, minute, sec), offset, fraction);
  }
}
