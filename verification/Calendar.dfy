/**
 Timestamps by their numbers: which texts are timestamps, the instant each one
 names by the Gregorian calendar, and the text its normal form is.
 */
module Calendar {
  import opened Bytes
  import opened Timestamp

  // ---- The numbers a timestamp spells ----

  datatype Zone = Utc(mark: byte) | East(hours: nat, minutes: nat) | West(hours: nat, minutes: nat)

  datatype Stamp = Stamp(y: nat, m: nat, d: nat, separator: byte, h: nat, minute: nat, sec: nat, fraction: bytes, zone: Zone) {
    predicate Ok() {
      && y <= 9999 && m <= 99 && d <= 99 && h <= 99 && minute <= 99 && sec <= 99
      && (separator == 84 || separator == 116)
      && |fraction| <= 9 && (forall k :: 0 <= k < |fraction| ==> 48 <= fraction[k] <= 57)
      && match zone
         case Utc(mark) => mark == 90 || mark == 122
         case East(hours, minutes) => hours <= 99 && minutes <= 99
         case West(hours, minutes) => hours <= 99 && minutes <= 99
    }

    function Head(): bytes
      requires Ok()
    {
      [ 48 + y / 1000, 48 + y / 100 % 10, 48 + y / 10 % 10, 48 + y % 10, 45, 48 + m / 10, 48 + m % 10, 45, 48 + d / 10, 48 + d % 10,
        separator, 48 + h / 10, 48 + h % 10, 58, 48 + minute / 10, 48 + minute % 10, 58, 48 + sec / 10, 48 + sec % 10 ]
    }

    function Middle(): bytes {
      if fraction == [] then [] else [46] + fraction
    }

    function Tail(): bytes
      requires Ok()
    {
      match zone
      case Utc(mark) => [mark]
      case East(hours, minutes) => [43, 48 + hours / 10, 48 + hours % 10, 58, 48 + minutes / 10, 48 + minutes % 10]
      case West(hours, minutes) => [45, 48 + hours / 10, 48 + hours % 10, 58, 48 + minutes / 10, 48 + minutes % 10]
    }

    /** yyyy-mm-ddThh:mm:ss, a fraction if there is one, and the zone. */
    function Text(): bytes
      requires Ok()
    {
      Head() + Middle() + Tail()
    }

    // ---- The Gregorian calendar ----

    /** Leap: divisible by four, a century only when divisible by four hundred. */
    predicate Leap() {
      if y % 100 == 0 then y % 400 == 0 else y % 4 == 0
    }

    function MonthLength(): int
      requires 1 <= m <= 12
    {
      if m == 2 && Leap() then 29 else [31, 28, 31, 30, 31, 30, 31, 31, 30, 31, 30, 31][m - 1]
    }

    /** A time that exists, in a zone less than a day off. */
    predicate Real() {
      && 1 <= m <= 12 && 1 <= d <= MonthLength() && h < 24 && minute < 60 && sec < 60
      && (zone.Utc? || (zone.hours < 24 && zone.minutes < 60))
    }

    /** Days from 0000-01-01, counting the leap years before y. */
    function Days(): int
      requires 1 <= m <= 12
    {
      365 * y + (y + 3) / 4 - (y + 99) / 100 + (y + 399) / 400
      + [0, 31, 59, 90, 120, 151, 181, 212, 243, 273, 304, 334][m - 1] + (if m > 2 && Leap() then 1 else 0)
      + d - 1
    }

    /** What the zone's clock is ahead of UTC, in minutes: east is ahead. */
    function Ahead(): int {
      match zone
      case Utc(_) => 0
      case East(hours, minutes) => hours * 60 + minutes
      case West(hours, minutes) => -(hours * 60 + minutes)
    }

    /** UTC seconds from 0000-01-01T00:00:00Z. */
    function Seconds(): int
      requires 1 <= m <= 12
    {
      Days() * 86400 + h * 3600 + minute * 60 + sec - Ahead() * 60
    }

    function Place(k: nat): int {
      if k < |fraction| then (fraction[k] as int) - 48 else 0
    }

    function Microseconds(): int {
      Place(0) * 100_000 + Place(1) * 10_000 + Place(2) * 1000 + Place(3) * 100 + Place(4) * 10 + Place(5)
    }

    function Nanoseconds(): int {
      Microseconds() * 1000 + Place(6) * 100 + Place(7) * 10 + Place(8)
    }

    /** A real time in years 0 to 9999 of UTC. */
    predicate Timely() {
      Ok() && Real() && 0 <= Seconds() < 3_652_425 * 86_400
    }

    /** UTC, upper-case marks and six digits. */
    predicate Canonical() {
      Ok() && Real() && separator == 84 && zone == Utc(90) && |fraction| == 6
    }
  }

  // ---- A text is read as the numbers it spells ----

  lemma HeadRead(st: Stamp, s: bytes)
    requires st.Ok() && |s| >= 19 && s[..19] == st.Head()
    ensures DatePart(s) && (s[10] == UPPER_T || s[10] == LOWER_T_MARK) && s[10] == st.separator
    ensures FieldsOf(s) == Fields(st.y, st.m, st.d, st.h, st.minute, st.sec)
  {
    hide Num, IsDigit;
    assert forall k :: 0 <= k < 19 ==> s[k] == st.Head()[k];
    HeadIsDate(st, s);
    Num4(s, 0);
    Num2(s, 5);
    Num2(s, 8);
    Num2(s, 11);
    Num2(s, 14);
    Num2(s, 17);
    YearDigits(st.y);
  }

  lemma HeadIsDate(st: Stamp, s: bytes)
    requires st.Ok() && |s| >= 19 && forall k :: 0 <= k < 19 ==> s[k] == st.Head()[k]
    ensures DatePart(s)
  {
    var h := st.Head();
    assert IsDigit(h[0]) && IsDigit(h[1]) && IsDigit(h[2]) && IsDigit(h[3]) && IsDigit(h[5]) && IsDigit(h[6]) && IsDigit(h[8]) && IsDigit(h[9]);
    assert IsDigit(h[11]) && IsDigit(h[12]) && IsDigit(h[14]) && IsDigit(h[15]) && IsDigit(h[17]) && IsDigit(h[18]);
  }

  lemma YearDigits(y: nat)
    requires y <= 9999
    ensures ((y / 1000 * 10 + y / 100 % 10) * 10 + y / 10 % 10) * 10 + y % 10 == y
  {
    assert y / 100 == y / 1000 * 10 + y / 100 % 10;
    assert y / 10 == y / 100 * 10 + y / 10 % 10;
  }

  lemma {:induction false} RunEndIs(s: bytes, i: nat, e: nat)
    requires i <= e < |s| && (forall k :: i <= k < e ==> IsDigit(s[k])) && !IsDigit(s[e])
    ensures RunEnd(s, i) == e
    decreases e - i
  {
    if i < e {
      RunEndIs(s, i + 1, e);
    }
  }

  lemma TextParts(st: Stamp)
    requires st.Ok()
    ensures var s, z := st.Text(), 19 + |st.Middle()|;
            && |s| == z + |st.Tail()| && s[..19] == st.Head() && s[19..z] == st.Middle() && s[z..] == st.Tail()
            && |st.Head()| == 19 && |st.Tail()| > 0
  {
  }

  lemma MiddleRead(st: Stamp)
    requires st.Ok()
    ensures var s := st.Text();
            && |s| >= 19 && ZoneAt(s) == 19 + |st.Middle()| && Fraction(s) == st.fraction
            && (HasFraction(s) ==> 1 <= |Fraction(s)|)
  {
    hide Stamp.Text, Stamp.Head, RunEnd;
    TextParts(st);
    var s, z := st.Text(), 19 + |st.Middle()|;
    assert s[z] == s[z..][0];
    if st.fraction != [] {
      assert forall k :: 19 <= k < z ==> s[k] == s[19..z][k - 19];
      assert s[19] == 46;
      forall k | 20 <= k < z ensures IsDigit(s[k]) && s[k] == st.fraction[k - 20] {
      }
      RunEndIs(s, 20, z);
      assert s[20..z] == st.fraction;
    }
  }

  /** Two digits at an offset, read as the number they were written from. */
  lemma TwoRead(s: bytes, i: nat, v: nat)
    requires v <= 99 && i + 2 <= |s| && s[i] == 48 + v / 10 && s[i + 1] == 48 + v % 10
    ensures DigitsAt(s, i, 2) && Num(s, i, 2) == v
  {
    hide Num;
    assert IsDigit(s[i]) && IsDigit(s[i + 1]);
    Num2(s, i);
  }

  lemma OffsetRead(s: bytes, z: nat, hours: nat, minutes: nat)
    requires hours <= 99 && minutes <= 99 && |s| == z + 6 && (s[z] == 43 || s[z] == 45) && s[z + 3] == 58
    requires s[z + 1] == 48 + hours / 10 && s[z + 2] == 48 + hours % 10
    requires s[z + 4] == 48 + minutes / 10 && s[z + 5] == 48 + minutes % 10
    ensures ZoneOk(s, z) && DigitsAt(s, z + 1, 2) && DigitsAt(s, z + 4, 2)
    ensures Num(s, z + 1, 2) == hours && Num(s, z + 4, 2) == minutes
  {
    hide Num, DigitsAt;
    TwoRead(s, z + 1, hours);
    TwoRead(s, z + 4, minutes);
  }

  lemma TailRead(st: Stamp, s: bytes, z: nat)
    requires st.Ok() && z <= |s| && s[z..] == st.Tail()
    ensures ZoneOk(s, z)
    ensures s[z] == PLUS || s[z] == MINUS <==> !st.zone.Utc?
    ensures !st.zone.Utc? ==>
              && DigitsAt(s, z + 1, 2) && DigitsAt(s, z + 4, 2)
              && Num(s, z + 1, 2) == st.zone.hours && Num(s, z + 4, 2) == st.zone.minutes
              && (s[z] == PLUS <==> st.zone.East?)
  {
    hide Num, DigitsAt;
    var t := s[z..];
    assert |s| == z + |t| && s[z] == t[0];
    if !st.zone.Utc? {
      assert s[z + 1] == t[1] && s[z + 2] == t[2] && s[z + 3] == t[3] && s[z + 4] == t[4] && s[z + 5] == t[5];
      hide ZoneOk;
      OffsetRead(s, z, st.zone.hours, st.zone.minutes);
    }
  }

  /** A spelled timestamp is lexical and is read as its own numbers. */
  lemma TextRead(st: Stamp)
    requires st.Ok()
    ensures var s := st.Text();
            && Lexical(s) && FieldsOf(s) == Fields(st.y, st.m, st.d, st.h, st.minute, st.sec)
            && Fraction(s) == st.fraction && Offset(s) == st.Ahead()
            && (OffsetOk(s) <==> st.zone.Utc? || (st.zone.hours <= 23 && st.zone.minutes <= 59))
  {
    hide Stamp.Text, Stamp.Head, Stamp.Middle, Stamp.Tail, RunEnd, Num, ZoneOk, ZoneAt, Fraction, DatePart, HasFraction, FieldsOf;
    TextParts(st);
    HeadRead(st, st.Text());
    MiddleRead(st);
    TailRead(st, st.Text(), 19 + |st.Middle()|);
  }

  // ---- Which texts are timestamps ----

  /** Two digits are the ones their number is written with. */
  lemma TwoBack(s: bytes, i: nat)
    requires DigitsAt(s, i, 2)
    ensures Num(s, i, 2) <= 99 && s[i] == 48 + Num(s, i, 2) / 10 && s[i + 1] == 48 + Num(s, i, 2) % 10
  {
    hide Num;
    assert IsDigit(s[i]) && IsDigit(s[i + 1]);
    Num2(s, i);
  }

  lemma FourBack(s: bytes, i: nat)
    requires DigitsAt(s, i, 4)
    ensures var v := Num(s, i, 4);
            && v <= 9999 && s[i] == 48 + v / 1000 && s[i + 1] == 48 + v / 100 % 10
            && s[i + 2] == 48 + v / 10 % 10 && s[i + 3] == 48 + v % 10
  {
    hide Num;
    assert IsDigit(s[i]) && IsDigit(s[i + 1]) && IsDigit(s[i + 2]) && IsDigit(s[i + 3]);
    Num4(s, i);
    var v := Num(s, i, 4);
    assert v / 10 == ((s[i] - ZERO) * 10 + (s[i + 1] - ZERO)) * 10 + (s[i + 2] - ZERO);
    assert v / 100 == (s[i] - ZERO) * 10 + (s[i + 1] - ZERO);
  }

  /** The numbers a zone spells. */
  function ZoneRead(s: bytes, z: nat): Zone
    requires ZoneOk(s, z)
  {
    if s[z] == PLUS then East(Num(s, z + 1, 2), Num(s, z + 4, 2))
    else if s[z] == MINUS then West(Num(s, z + 1, 2), Num(s, z + 4, 2))
    else Utc(s[z])
  }

  function StampRead(s: bytes): Stamp
    requires Lexical(s)
  {
    var f := FieldsOf(s);
    Stamp(Num(s, 0, 4), Num(s, 5, 2), Num(s, 8, 2), s[10], Num(s, 11, 2), Num(s, 14, 2), Num(s, 17, 2), Fraction(s), ZoneRead(s, ZoneAt(s)))
  }

  /** The nineteen bytes of a head, one by one. */
  lemma HeadOf(st: Stamp, s: bytes)
    requires st.Ok() && |s| >= 19
    requires s[0] == 48 + st.y / 1000 && s[1] == 48 + st.y / 100 % 10 && s[2] == 48 + st.y / 10 % 10 && s[3] == 48 + st.y % 10
    requires s[4] == 45 && s[5] == 48 + st.m / 10 && s[6] == 48 + st.m % 10 && s[7] == 45 && s[8] == 48 + st.d / 10 && s[9] == 48 + st.d % 10
    requires s[10] == st.separator && s[11] == 48 + st.h / 10 && s[12] == 48 + st.h % 10 && s[13] == 58
    requires s[14] == 48 + st.minute / 10 && s[15] == 48 + st.minute % 10 && s[16] == 58 && s[17] == 48 + st.sec / 10 && s[18] == 48 + st.sec % 10
    ensures s[..19] == st.Head()
  {
    FirstNineteen(s);
  }

  lemma HeadBack(s: bytes)
    requires Lexical(s) && StampRead(s).Ok()
    ensures |s| >= 19 && s[..19] == StampRead(s).Head()
  {
    hide Num, Lexical, ZoneAt, Fraction, ZoneRead, Stamp.Ok, Stamp.Head;
    assert DatePart(s) && (s[10] == UPPER_T || s[10] == LOWER_T_MARK) by { LexicalParts(s); }
    FourBack(s, 0);
    TwoBack(s, 5);
    TwoBack(s, 8);
    TwoBack(s, 11);
    TwoBack(s, 14);
    TwoBack(s, 17);
    HeadOf(StampRead(s), s);
  }

  lemma FirstNineteen(s: bytes)
    requires |s| >= 19
    ensures s[..19] == [ s[0], s[1], s[2], s[3], s[4], s[5], s[6], s[7], s[8], s[9],
                         s[10], s[11], s[12], s[13], s[14], s[15], s[16], s[17], s[18] ]
  {
  }

  lemma LexicalParts(s: bytes)
    requires Lexical(s)
    ensures DatePart(s) && (s[10] == UPPER_T || s[10] == LOWER_T_MARK) && ZoneOk(s, ZoneAt(s))
    ensures |Fraction(s)| <= 9 && (HasFraction(s) ==> 1 <= |Fraction(s)|)
  {
  }

  lemma MiddleBack(s: bytes)
    requires Lexical(s)
    ensures 19 <= ZoneAt(s) <= |s| && s[19..ZoneAt(s)] == StampRead(s).Middle()
  {
    hide Num, ZoneRead;
    if HasFraction(s) {
      assert s[19..ZoneAt(s)] == [s[19]] + s[20..ZoneAt(s)];
    }
  }

  lemma TailBack(s: bytes, z: nat, st: Stamp)
    requires z <= |s| && ZoneOk(s, z) && st.Ok() && st.zone == ZoneRead(s, z)
    ensures s[z..] == st.Tail()
  {
    hide Num, Stamp.Ok;
    if s[z] == PLUS || s[z] == MINUS {
      TwoBack(s, z + 1);
      TwoBack(s, z + 4);
      assert |s[z..]| == 6;
    }
  }

  lemma ReadIsOk(s: bytes)
    requires Lexical(s)
    ensures StampRead(s).Ok()
  {
    hide Num, Lexical, DigitsAt, ZoneAt, Fraction, HasFraction;
    LexicalParts(s);
    FourBack(s, 0);
    TwoBack(s, 5);
    TwoBack(s, 8);
    TwoBack(s, 11);
    TwoBack(s, 14);
    TwoBack(s, 17);
    var z := ZoneAt(s);
    if s[z] == PLUS || s[z] == MINUS {
      TwoBack(s, z + 1);
      TwoBack(s, z + 4);
    }
    var f := Fraction(s);
    forall k | 0 <= k < |f| ensures 48 <= f[k] <= 57 {
      assert f[k] in f;
    }
  }

  lemma TextBack(s: bytes)
    requires Lexical(s)
    ensures StampRead(s).Ok() && StampRead(s).Text() == s
  {
    hide Lexical, Stamp.Ok, Stamp.Head, Stamp.Middle, Stamp.Tail, StampRead, ZoneOk;
    ReadIsOk(s);
    HeadBack(s);
    MiddleBack(s);
    LexicalParts(s);
    ReadZone(s);
    TailBack(s, ZoneAt(s), StampRead(s));
    var z := ZoneAt(s);
    assert s == s[..19] + s[19..z] + s[z..];
  }

  lemma ReadZone(s: bytes)
    requires Lexical(s)
    ensures StampRead(s).zone == ZoneRead(s, ZoneAt(s))
  {
  }

  /** The lexical form is exactly what some numbers spell. */
  lemma LexicalExact(s: bytes)
    ensures Lexical(s) <==> exists st: Stamp :: st.Ok() && st.Text() == s
  {
    hide Lexical, Stamp.Ok, Stamp.Text, StampRead;
    if Lexical(s) {
      TextBack(s);
    }
    if st: Stamp :| st.Ok() && st.Text() == s {
      TextRead(st);
    }
  }

  // ---- The calendar by closed forms ----

  lemma CenturyIsFourth(y: nat, q: nat)
    requires y == 100 * q
    ensures y % 4 == 0
  {
    assert y == 4 * (25 * q);
  }

  lemma FourCenturiesAreCentury(y: nat, q: nat)
    requires y == 400 * q
    ensures y % 100 == 0
  {
    assert y == 100 * (4 * q);
  }

  lemma CenturiesAreFourth(y: nat)
    ensures y % 100 == 0 ==> y % 4 == 0
    ensures y % 400 == 0 ==> y % 100 == 0
  {
    if y % 100 == 0 {
      CenturyIsFourth(y, y / 100);
    }
    if y % 400 == 0 {
      FourCenturiesAreCentury(y, y / 400);
    }
  }

  lemma LeapAgrees(st: Stamp)
    ensures IsLeap(st.y) <==> st.Leap()
  {
    CenturiesAreFourth(st.y);
  }

  lemma MonthAgrees(st: Stamp)
    requires 1 <= st.m <= 12
    ensures DaysIn(st.y, st.m) == st.MonthLength()
  {
    hide IsLeap, Stamp.Leap;
    LeapAgrees(st);
  }

  lemma Fourths(y: nat)
    ensures (y + 4) / 4 == (y + 3) / 4 + if y % 4 == 0 then 1 else 0
  {
    var q, r := y / 4, y % 4;
    assert y == 4 * q + r;
  }

  lemma Centuries(y: nat)
    ensures (y + 100) / 100 == (y + 99) / 100 + if y % 100 == 0 then 1 else 0
  {
    var q, r := y / 100, y % 100;
    assert y == 100 * q + r;
  }

  lemma FourCenturies(y: nat)
    ensures (y + 400) / 400 == (y + 399) / 400 + if y % 400 == 0 then 1 else 0
  {
    var q, r := y / 400, y % 400;
    assert y == 400 * q + r;
  }

  /** The leap years before a year. */
  function LeapsBefore(y: nat): int {
    (y + 3) / 4 - (y + 99) / 100 + (y + 399) / 400
  }

  lemma LeapYears(y: nat)
    ensures LeapsBefore(y + 1) == LeapsBefore(y) + if IsLeap(y) then 1 else 0
  {
    Fourths(y);
    Centuries(y);
    FourCenturies(y);
    CenturiesAreFourth(y);
    LeapStep(y % 4 == 0, y % 100 == 0, y % 400 == 0);
  }

  lemma LeapStep(fourth: bool, century: bool, fourCenturies: bool)
    requires (century ==> fourth) && (fourCenturies ==> century)
    ensures (if fourth then 1 else 0) - (if century then 1 else 0) + (if fourCenturies then 1 else 0)
            == if fourth && (!century || fourCenturies) then 1 else 0
  {
  }

  /** The days before a year, counted year by year, are the closed form. */
  lemma {:induction false} YearsCounted(y: nat)
    ensures DaysBeforeYear(y) == 365 * y + LeapsBefore(y)
  {
    hide IsLeap, YearDays, LeapsBefore;
    if y > 0 {
      YearsCounted(y - 1);
      NextYear(y - 1);
      MonthsBefore(y - 1);
      LeapYears(y - 1);
    } else {
      YearZero();
      assert LeapsBefore(0) == 0 by { NoLeaps(); }
    }
  }

  lemma NoLeaps()
    ensures LeapsBefore(0) == 0
  {
  }

  lemma MonthsCounted(y: nat, m: nat)
    requires 1 <= m <= 12
    ensures DaysBeforeMonth(y, m) ==
            [0, 31, 59, 90, 120, 151, 181, 212, 243, 273, 304, 334][m - 1] + (if m > 2 && IsLeap(y) then 1 else 0)
  {
    hide IsLeap;
    if m > 1 {
      MonthsCounted(y, m - 1);
    }
  }

  lemma DaysCounted(st: Stamp)
    requires 1 <= st.m <= 12
    ensures DayNumber(st.y, st.m, st.d) == st.Days()
  {
    hide DaysBeforeYear, DaysBeforeMonth, IsLeap, Stamp.Leap;
    YearsCounted(st.y);
    MonthsCounted(st.y, st.m);
    LeapAgrees(st);
  }

  lemma SixPlaces(st: Stamp)
    requires st.Ok()
    ensures AllDigits(st.fraction) && Padded(st.fraction, 6) == st.Microseconds()
  {
    var f := st.fraction;
    assert AllDigits(f);
    assert Padded(f, 1) == Padded(f, 0) * 10 + st.Place(0);
    assert Padded(f, 2) == Padded(f, 1) * 10 + st.Place(1);
    assert Padded(f, 3) == Padded(f, 2) * 10 + st.Place(2);
    assert Padded(f, 4) == Padded(f, 3) * 10 + st.Place(3);
    assert Padded(f, 5) == Padded(f, 4) * 10 + st.Place(4);
    assert Padded(f, 6) == Padded(f, 5) * 10 + st.Place(5);
  }

  lemma NinePlaces(st: Stamp)
    requires st.Ok()
    ensures AllDigits(st.fraction) && Padded(st.fraction, 9) == st.Nanoseconds()
  {
    hide Stamp.Microseconds;
    var f := st.fraction;
    SixPlaces(st);
    assert Padded(f, 7) == Padded(f, 6) * 10 + st.Place(6);
    assert Padded(f, 8) == Padded(f, 7) * 10 + st.Place(7);
    assert Padded(f, 9) == Padded(f, 8) * 10 + st.Place(8);
  }

  lemma PlaceIsDigit(st: Stamp, k: nat)
    requires st.Ok()
    ensures 0 <= st.Place(k) <= 9
  {
  }

  lemma FractionCounted(st: Stamp)
    requires st.Ok()
    ensures AllDigits(st.fraction) && Nanos(st.fraction) == st.Nanoseconds()
    ensures 0 <= st.Microseconds() <= 999_999 && st.Nanoseconds() / 1000 == st.Microseconds()
  {
    hide Padded, Stamp.Place, Stamp.Ok;
    SixPlaces(st);
    NinePlaces(st);
    PaddedIsScaled(st.fraction, 9) by { OkFraction(st); }
    PaddedBound(st.fraction, 6);
    PowersOfTen();
    PlaceIsDigit(st, 6);
    PlaceIsDigit(st, 7);
    PlaceIsDigit(st, 8);
    PlacesAreNotNegative(st);
  }

  lemma OkFraction(st: Stamp)
    requires st.Ok()
    ensures |st.fraction| <= 9
  {
  }

  lemma PlacesAreNotNegative(st: Stamp)
    requires st.Ok()
    ensures st.Microseconds() >= 0
  {
  }

  // ---- What a spelled timestamp denotes ----

  /** A spelled timestamp is read exactly when it is a real time, and then denotes its own instant. */
  lemma InstantExact(st: Stamp)
    requires st.Ok()
    ensures Readable(st.Text()) <==> st.Real()
    ensures st.Real() ==> Instant(st.Text()) == st.Seconds() * 1_000_000_000 + st.Nanoseconds()
  {
    hide Stamp.Text, Stamp.Ok, Lexical, OffsetOk, Offset, FieldsOf, Fraction, DayNumber, Nanos, Stamp.Days, Stamp.Nanoseconds, DaysIn, Stamp.MonthLength;
    TextRead(st);
    if 1 <= st.m <= 12 {
      MonthAgrees(st);
    }
    if st.Real() {
      DaysCounted(st);
      FractionCounted(st);
    }
  }

  lemma RangeCounted()
    ensures EndOfRange() == 3_652_425
  {
    hide DaysBeforeYear;
    YearsCounted(10000);
  }

  lemma TimelyExact(st: Stamp)
    requires st.Ok() && st.Real()
    ensures st.Timely() <==> 0 <= st.Seconds() * 1_000_000_000 + st.Nanoseconds() < EndOfRange() * 86_400_000_000_000
  {
    hide Stamp.Ok, Stamp.Real, Stamp.Seconds, EndOfRange, Stamp.Nanoseconds, Stamp.Microseconds;
    RangeCounted();
    FractionCounted(st);
    var n := st.Nanoseconds();
    assert 0 <= n < 1_000_000_000;
  }

  lemma TimelyAccepted(st: Stamp)
    requires st.Timely()
    ensures st.Ok() && Normalized(st.Text()) != []
  {
    hide Stamp.Text, Stamp.Ok, Stamp.Real, Stamp.Timely, Instant, Readable, EndOfRange, Normalized, Stamp.Seconds, Stamp.Nanoseconds;
    TimelyIsReal(st);
    InstantExact(st);
    TimelyExact(st);
    NormalizedEmpty(st.Text());
  }

  lemma AcceptedTimely(s: bytes)
    requires Normalized(s) != []
    ensures Lexical(s) && StampRead(s).Timely() && StampRead(s).Text() == s
  {
    hide Stamp.Text, Stamp.Ok, Lexical, Stamp.Real, Stamp.Timely, Instant, Readable, StampRead, EndOfRange, Normalized, Stamp.Seconds, Stamp.Nanoseconds;
    NormalizedEmpty(s);
    assert Lexical(s) by { ReadableParts(s); }
    TextBack(s);
    InstantExact(StampRead(s));
    TimelyExact(StampRead(s));
  }

  /** A timestamp is refused exactly when its text spells no real time between years 0 and 9999 of UTC. */
  lemma RefusedExactly(s: bytes)
    ensures Normalized(s) != [] <==> exists st: Stamp :: st.Timely() && st.Text() == s
  {
    hide Stamp.Text, Lexical, Stamp.Real, StampRead, Normalized;
    if Normalized(s) != [] {
      AcceptedTimely(s);
    }
    if st: Stamp :| st.Timely() && st.Text() == s {
      TimelyAccepted(st);
    }
  }

  lemma TimelyIsReal(st: Stamp)
    requires st.Timely()
    ensures st.Ok() && st.Real()
  {
  }

  // ---- The normal form ----

  lemma CanonicalIsResult(r: Stamp)
    requires r.Canonical()
    ensures IsResult(r.Text()) && Instant(r.Text()) == r.Seconds() * 1_000_000_000 + r.Microseconds() * 1000
  {
    hide Stamp.Seconds, Readable, Instant, Stamp.Microseconds;
    InstantExact(r);
    CanonicalShape(r);
    FractionCounted(r);
  }

  lemma CanonicalShape(r: Stamp)
    requires r.Canonical()
    ensures Shape(r.Text())
  {
    hide Stamp.Text, Stamp.Head;
    TextParts(r);
    var s := r.Text();
    HeadRead(r, s);
    assert forall k :: 19 <= k < 26 ==> s[k] == s[19..26][k - 19];
    assert s[26] == s[26..][0];
    forall k | 20 <= k < 26 ensures IsDigit(s[k]) {
      assert s[k] == r.fraction[k - 20];
    }
  }

  lemma CanonicalIsReal(r: Stamp)
    requires r.Canonical()
    ensures r.Ok() && r.Real()
  {
  }

  /** Of all canonical texts, the normal form is the one of the same second and the same six digits. */
  lemma NormalFormExact(st: Stamp, r: Stamp)
    requires st.Timely() && r.Canonical()
    ensures st.Real() && r.Real()
    ensures Normalized(st.Text()) == r.Text() <==> st.Seconds() == r.Seconds() && st.Microseconds() == r.Microseconds()
  {
    hide Stamp.Timely, Stamp.Canonical, Normalized, IsResult, Instant, Stamp.Text, Stamp.Ok, Stamp.Real, Stamp.Seconds, Stamp.Microseconds, Stamp.Nanoseconds, Readable, Shape;
    TimelyIsReal(st);
    CanonicalIsReal(r);
    TimelyAccepted(st);
    InstantExact(st);
    FractionCounted(st);
    FractionCounted(r);
    NormalizedDenotes(st.Text());
    ResultsAre(Normalized(st.Text()));
    CanonicalIsResult(r);
    StringOrderIsTimeOrder(Normalized(st.Text()), r.Text());
    Truncates(st.Seconds(), st.Nanoseconds());
    SameParts(st.Seconds(), st.Microseconds(), r.Seconds(), r.Microseconds());
  }

  /** A normal form is a canonical text. */
  lemma NormalFormIsCanonical(s: bytes)
    requires Normalized(s) != []
    ensures Lexical(Normalized(s))
    ensures var r := StampRead(Normalized(s)); r.Canonical() && r.Text() == Normalized(s)
  {
    hide Normalized, Stamp.Text, Readable, Lexical, StampRead, Stamp.Real, Stamp.Ok, Instant, FieldsOf, Shape;
    NormalizedDenotes(s);
    var r := Normalized(s);
    ReadableParts(r);
    TextBack(r);
    InstantExact(StampRead(r));
    ShapeParts(r);
  }

  lemma ShapeParts(r: bytes)
    requires Shape(r) && Lexical(r)
    ensures var st := StampRead(r); st.separator == 84 && st.zone == Utc(90) && |st.fraction| == 6
  {
    hide Lexical, Num, DigitsAt, RunEnd, ZoneAt, Fraction;
    ShapeLexical(r);
  }

  lemma SameParts(a: int, m: int, b: int, n: int)
    requires 0 <= m <= 999_999 && 0 <= n <= 999_999
    ensures a * 1_000_000_000 + m * 1000 == b * 1_000_000_000 + n * 1000 <==> a == b && m == n
  {
  }

  // ---- Zones ----

  /** The same clock reading in another zone. */
  function Rezoned(st: Stamp, zone: Zone): Stamp {
    st.(zone := zone)
  }

  lemma RezonedCounts(st: Stamp, zone: Zone)
    requires st.Ok() && st.Real() && Rezoned(st, zone).Ok()
    ensures Rezoned(st, zone).Real() <==> zone.Utc? || (zone.hours <= 23 && zone.minutes <= 59)
    ensures Rezoned(st, zone).Seconds() == st.Seconds() + st.Ahead() * 60 - Rezoned(st, zone).Ahead() * 60
    ensures Rezoned(st, zone).Nanoseconds() == st.Nanoseconds()
  {
  }

  /** Hours and minutes east of UTC are taken off, and west of UTC put on. */
  lemma ZoneShifts(st: Stamp, hours: nat, minutes: nat)
    requires st.Ok() && st.Real() && hours <= 23 && minutes <= 59
    ensures var u, e, w := Rezoned(st, Utc(90)), Rezoned(st, East(hours, minutes)), Rezoned(st, West(hours, minutes));
            && u.Ok() && e.Ok() && w.Ok() && Readable(u.Text()) && Readable(e.Text()) && Readable(w.Text())
            && Instant(e.Text()) == Instant(u.Text()) - (hours * 60 + minutes) * 60_000_000_000
            && Instant(w.Text()) == Instant(u.Text()) + (hours * 60 + minutes) * 60_000_000_000
  {
    hide Instant, Readable, Stamp.Text, Stamp.Seconds, Stamp.Nanoseconds, Stamp.Real;
    RezonedCounts(st, Utc(90));
    RezonedCounts(st, East(hours, minutes));
    RezonedCounts(st, West(hours, minutes));
    InstantExact(Rezoned(st, Utc(90)));
    InstantExact(Rezoned(st, East(hours, minutes)));
    InstantExact(Rezoned(st, West(hours, minutes)));
  }

  const MIDDAY := Stamp(2024, 6, 1, 84, 12, 0, 0, [], East(2, 0))
  const MORNING := Stamp(2024, 6, 1, 84, 10, 0, 0, [48, 48, 48, 48, 48, 48], Utc(90))

  lemma InstancesAreReal()
    ensures MIDDAY.Timely() && MORNING.Canonical()
  {
  }

  lemma MiddayHead()
    ensures MIDDAY.Ok() && MIDDAY.Head() == [50, 48, 50, 52, 45, 48, 54, 45, 48, 49, 84, 49, 50, 58, 48, 48, 58, 48, 48]
  {
  }

  lemma MorningHead()
    ensures MORNING.Ok() && MORNING.Head() == [50, 48, 50, 52, 45, 48, 54, 45, 48, 49, 84, 49, 48, 58, 48, 48, 58, 48, 48]
  {
  }

  lemma MiddaySpelled()
    ensures MIDDAY.Ok() && Spells(MIDDAY.Text(), "2024-06-01T12:00:00+02:00")
  {
    hide Stamp.Head, Stamp.Ok;
    MiddayHead();
    assert MIDDAY.Text() == [50, 48, 50, 52, 45, 48, 54, 45, 48, 49, 84, 49, 50, 58, 48, 48, 58, 48, 48] + [43, 48, 50, 58, 48, 48];
  }

  lemma MorningSpelled()
    ensures MORNING.Ok() && Spells(MORNING.Text(), "2024-06-01T10:00:00.000000Z")
  {
    hide Stamp.Head, Stamp.Ok;
    MorningHead();
    assert MORNING.Text() == [50, 48, 50, 52, 45, 48, 54, 45, 48, 49, 84, 49, 48, 58, 48, 48, 58, 48, 48] + [46, 48, 48, 48, 48, 48, 48] + [90];
  }

  /** Midday two hours east of UTC is ten in the morning. */
  lemma MiddayInTheEast(s: bytes, r: bytes)
    requires Spells(s, "2024-06-01T12:00:00+02:00") && Spells(r, "2024-06-01T10:00:00.000000Z")
    ensures Normalized(s) == r
  {
    hide Normalized, Spells, Stamp.Text, Stamp.Timely, Stamp.Canonical;
    InstancesAreReal();
    MiddaySpelled();
    MorningSpelled();
    TimelyIsReal(MIDDAY);
    CanonicalIsReal(MORNING);
    SpelledOnce(s, MIDDAY.Text(), "2024-06-01T12:00:00+02:00");
    SpelledOnce(r, MORNING.Text(), "2024-06-01T10:00:00.000000Z");
    NormalFormExact(MIDDAY, MORNING);
  }
}
