/** The calendar behind accepted timestamps, the weight of their digits, and examples of the two
    standards. */
module RecogniserLaws {
  import opened Ordered
  import opened Text
  import opened Recognisers

  // ---------------------------------------------------------------- the calendar

  /** The days of the first `months` months. */
  function DaysInMonths(year: nat, months: nat): nat {
    if months == 0 then 0 else DaysInMonths(year, months - 1) + DaysInMonth(year, months)
  }

  function YearDays(year: nat): nat {
    var months: nat := 12;
    DaysInMonths(year, months)
  }

  /** The days of `n` years. */
  function DaysInYears(year: nat, n: nat): nat {
    if n == 0 then 0 else DaysInYears(year, n - 1) + YearDays(year + n - 1)
  }

  /** Leap years before the given one. */
  function LeapYearsBefore(year: nat): int {
    (year + 3) / 4 - (year + 99) / 100 + (year + 399) / 400
  }

  lemma QuarterLengths(year: nat)
    ensures DaysInMonths(year, 3) == 62 + DaysInMonth(year, 2)
    ensures DaysInMonths(year, 6) == DaysInMonths(year, 3) + 91
  {
    assert DaysInMonths(year, 1) == 31;
    assert DaysInMonths(year, 2) == 31 + DaysInMonth(year, 2);
    assert DaysInMonths(year, 4) == DaysInMonths(year, 3) + 30;
    assert DaysInMonths(year, 5) == DaysInMonths(year, 4) + 31;
  }

  lemma LaterQuarterLengths(year: nat)
    ensures DaysInMonths(year, 9) == DaysInMonths(year, 6) + 92
    ensures DaysInMonths(year, 12) == DaysInMonths(year, 9) + 92
  {
    assert DaysInMonths(year, 7) == DaysInMonths(year, 6) + 31;
    assert DaysInMonths(year, 8) == DaysInMonths(year, 7) + 31;
    assert DaysInMonths(year, 10) == DaysInMonths(year, 9) + 31;
    assert DaysInMonths(year, 11) == DaysInMonths(year, 10) + 30;
  }

  lemma YearLength(year: nat)
    ensures DaysInMonths(year, 12) == 365 + (if IsLeapYear(year) then 1 else 0)
    ensures DaysInMonths(year, 12) == 366 <==> year % 400 == 0 || (year % 4 == 0 && year % 100 != 0)
  {
    QuarterLengths(year);
    LaterQuarterLengths(year);
    Divisible(year);
  }

  lemma Divisible(year: nat)
    ensures year % 400 == 0 ==> year % 100 == 0
    ensures year % 100 == 0 ==> year % 4 == 0
  {
    if year % 400 == 0 {
      assert year == 100 * (4 * (year / 400));
    }
    if year % 100 == 0 {
      assert year == 4 * (25 * (year / 100));
    }
  }

  lemma LeapStep(year: nat)
    ensures LeapYearsBefore(year + 1) - LeapYearsBefore(year) == if IsLeapYear(year) then 1 else 0
  {
    Divisible(year);
    StepOfFour(year);
    StepOfHundred(year);
    StepOfFourHundred(year);
  }

  lemma StepOfFour(year: nat)
    ensures (year + 4) / 4 - (year + 3) / 4 == if year % 4 == 0 then 1 else 0
  {
    var q, r := year / 4, year % 4;
    assert year == 4 * q + r;
    assert (year + 3) / 4 == if r == 0 then q else q + 1;
  }

  lemma StepOfHundred(year: nat)
    ensures (year + 100) / 100 - (year + 99) / 100 == if year % 100 == 0 then 1 else 0
  {
    var q, r := year / 100, year % 100;
    assert year == 100 * q + r;
    assert (year + 99) / 100 == if r == 0 then q else q + 1;
  }

  lemma StepOfFourHundred(year: nat)
    ensures (year + 400) / 400 - (year + 399) / 400 == if year % 400 == 0 then 1 else 0
  {
    var q, r := year / 400, year % 400;
    assert year == 400 * q + r;
    assert (year + 399) / 400 == if r == 0 then q else q + 1;
  }

  lemma LeapYearsRecur(year: nat)
    ensures LeapYearsBefore(year + 400) == LeapYearsBefore(year) + 97
  {
    assert (year + 403) / 4 == (year + 3) / 4 + 100;
    assert (year + 499) / 100 == (year + 99) / 100 + 4;
    assert (year + 799) / 400 == (year + 399) / 400 + 1;
  }

  /** The leap years among `n` years. */
  function LeapYears(year: nat, n: nat): nat {
    if n == 0 then 0 else LeapYears(year, n - 1) + (if IsLeapYear(year + n - 1) then 1 else 0)
  }

  lemma DaysStep(year: nat, n: nat)
    requires n > 0
    ensures DaysInYears(year, n) == DaysInYears(year, n - 1) + 365 + (if IsLeapYear(year + n - 1) then 1 else 0)
  {
    YearLength(year + n - 1);
  }

  lemma {:induction false} DaysAddUp(year: nat, n: nat)
    ensures DaysInYears(year, n) == 365 * n + LeapYears(year, n)
  {
    if n == 0 {
    } else {
      DaysAddUp(year, n - 1);
      DaysStep(year, n);
    }
  }

  lemma {:induction false} LeapYearsCount(year: nat, n: nat)
    ensures LeapYears(year, n) == LeapYearsBefore(year + n) - LeapYearsBefore(year)
  {
    if n == 0 {
    } else {
      LeapYearsCount(year, n - 1);
      LeapStep(year + n - 1);
    }
  }

  /** Any 400 years have 146097 days, whole weeks. */
  lemma CycleLength(year: nat)
    ensures DaysInYears(year, 400) == 146097 == 7 * 20871
  {
    DaysAddUp(year, 400);
    LeapYearsCount(year, 400);
    LeapYearsRecur(year);
  }

  // ---------------------------------------------------------------- digits

  function DigitOf(b: Byte): nat
    requires IsDigit(b)
  {
    b as int - '0' as int
  }

  lemma PairWeights(ds: seq<Byte>)
    requires AllDigits(ds) && |ds| == 2
    ensures Decimal(ds) == 10 * DigitOf(ds[0]) + DigitOf(ds[1])
  {
    assert ds[..1][..0] == [];
    assert Decimal(ds[..1]) == DigitOf(ds[0]);
  }

  lemma FourWeights(ds: seq<Byte>)
    requires AllDigits(ds) && |ds| == 4
    ensures Decimal(ds) == 1000 * DigitOf(ds[0]) + 100 * DigitOf(ds[1]) + 10 * DigitOf(ds[2]) + DigitOf(ds[3])
  {
    PairWeights(ds[..2]);
    assert ds[..3][..2] == ds[..2];
    assert Decimal(ds[..3]) == Decimal(ds[..2]) * 10 + DigitOf(ds[2]);
  }

  /** A component of a timestamp reads its digits by their decimal weight. */
  lemma ComponentWeights(bytes: seq<Byte>, start: nat)
    ensures start + 2 <= |bytes| && IsDigit(bytes[start]) && IsDigit(bytes[start + 1]) ==>
      DecimalComponent(bytes, start, start + 2) == Some(10 * DigitOf(bytes[start]) + DigitOf(bytes[start + 1]))
    ensures start + 4 <= |bytes| && AllDigits(bytes[start..start + 4]) ==>
      var ds := bytes[start..start + 4];
      DecimalComponent(bytes, start, start + 4)
      == Some(1000 * DigitOf(ds[0]) + 100 * DigitOf(ds[1]) + 10 * DigitOf(ds[2]) + DigitOf(ds[3]))
  {
    if start + 2 <= |bytes| && IsDigit(bytes[start]) && IsDigit(bytes[start + 1]) {
      assert bytes[start..start + 2] == [bytes[start], bytes[start + 1]];
      PairWeights(bytes[start..start + 2]);
    }
    if start + 4 <= |bytes| && AllDigits(bytes[start..start + 4]) {
      FourWeights(bytes[start..start + 4]);
    }
  }

  // ---------------------------------------------------------------- accepted days

  /** Midnight of a day, which may be none of the calendar. */
  function Midnight(year: nat, month: nat, day: nat): Timestamp {
    Timestamp(Moment(year, month, day, 0, 0, 0), [], Utc)
  }

  /** The printed form of a moment whose fields fit their width determines the fields. */
  lemma MomentPrintsOnce(m: Moment, k: Moment)
    requires m.year < 10000 && m.month < 100 && m.day < 100 && m.hour < 100 && m.minute < 100 && m.second < 100
    requires k.year < 10000 && k.month < 100 && k.day < 100 && k.hour < 100 && k.minute < 100 && k.second < 100
    requires PrintMoment(m) == PrintMoment(k)
    ensures m == k
  {
    var b := PrintMoment(m);
    MomentSlices(b, m);
    MomentSlices(b, k);
    Powers();
    PadReads(m.year, 4); PadReads(k.year, 4);
    PadReads(m.month, 2); PadReads(k.month, 2);
    PadReads(m.day, 2); PadReads(k.day, 2);
    PadReads(m.hour, 2); PadReads(k.hour, 2);
    PadReads(m.minute, 2); PadReads(k.minute, 2);
    PadReads(m.second, 2); PadReads(k.second, 2);
  }

  lemma AcceptedWhenValid(t: Timestamp)
    requires t.moment.year < 10000 && t.moment.month < 100 && t.moment.day < 100
    requires t.moment.hour < 100 && t.moment.minute < 100 && t.moment.second < 100
    requires AllDigits(t.fraction) && ValidZone(t.zone)
    ensures IsTimestamp(PrintTimestamp(t)) <==> ValidMoment(t.moment)
  {
    var bytes := PrintTimestamp(t);
    if IsTimestamp(bytes) {
      var u :| ValidTimestamp(u) && bytes == PrintTimestamp(u);
      assert PrintMoment(t.moment) == bytes[..19] == PrintMoment(u.moment);
      ValidFits(u.moment);
      MomentPrintsOnce(t.moment, u.moment);
    }
  }

  lemma ValidFits(m: Moment)
    requires ValidMoment(m)
    ensures m.month < 100 && m.day < 100 && m.hour < 100 && m.minute < 100 && m.second < 100
  {
  }

  /** The lengths of the months, by number. */
  predicate HasDays(year: nat, month: nat, days: nat) {
    || (month == 1 && days == 31) || (month == 3 && days == 31) || (month == 4 && days == 30)
    || (month == 5 && days == 31) || (month == 6 && days == 30) || (month == 7 && days == 31)
    || (month == 8 && days == 31) || (month == 9 && days == 30) || (month == 10 && days == 31)
    || (month == 11 && days == 30) || (month == 12 && days == 31)
    || (month == 2 && days == 28 && (year % 4 != 0 || (year % 100 == 0 && year % 400 != 0)))
    || (month == 2 && days == 29 && year % 4 == 0 && (year % 100 != 0 || year % 400 == 0))
  }

  /** From the first day of a month to its last, and no further, a day is accepted. */
  lemma DayIsAccepted(year: nat, month: nat, days: nat, day: nat)
    requires year < 10000 && HasDays(year, month, days) && day < 100
    ensures IsTimestamp(PrintTimestamp(Midnight(year, month, day))) <==> 1 <= day <= days
  {
    AcceptedWhenValid(Midnight(year, month, day));
  }

  /** A time of day is accepted up to 23:59:60. */
  lemma TimeIsAccepted(hour: nat, minute: nat, second: nat)
    requires hour < 100 && minute < 100 && second < 100
    ensures IsTimestamp(PrintTimestamp(Timestamp(Moment(2000, 1, 1, hour, minute, second), [], Utc)))
       <==> hour < 24 && minute < 60 && second <= 60
  {
    AcceptedWhenValid(Timestamp(Moment(2000, 1, 1, hour, minute, second), [], Utc));
  }

  lemma OffsetPrintsOnce(y: Zone, z: Zone)
    requires y.Offset? && y.hours < 100 && y.minutes < 100 && ValidZone(z) && PrintZone(y) == PrintZone(z)
    ensures y == z
  {
    Powers();
    assert PrintZone(y)[1..3] == Pad(y.hours, 2) && PrintZone(y)[4..6] == Pad(y.minutes, 2);
    PadReads(y.hours, 2);
    PadReads(y.minutes, 2);
    if z.Offset? {
      OffsetSlices(z);
    }
  }

  lemma NoFractionBeforeOffset(t: Timestamp, u: Timestamp)
    requires t.fraction == [] && t.zone.Offset? && ValidTimestamp(u) && PrintTimestamp(t) == PrintTimestamp(u)
    ensures PrintZone(t.zone) == PrintZone(u.zone)
  {
    var bytes := PrintTimestamp(t);
    PrintedParts(bytes, u);
    PrintedSlices(bytes, t, 19);
    PrintedSlices(bytes, u, 19 + |PrintFraction(u.fraction)|);
    assert bytes[19] == bytes[19..][0] == PrintZone(t.zone)[0];
  }

  /** An offset is accepted up to 23:59, on either side. */
  lemma OffsetIsAccepted(behind: bool, hours: nat, minutes: nat)
    requires hours < 100 && minutes < 100
    ensures IsTimestamp(PrintTimestamp(Timestamp(Moment(2000, 1, 1, 0, 0, 0), [], Offset(behind, hours, minutes))))
       <==> hours < 24 && minutes < 60
  {
    var t := Timestamp(Moment(2000, 1, 1, 0, 0, 0), [], Offset(behind, hours, minutes));
    if hours < 24 && minutes < 60 {
      assert ValidTimestamp(t);
    }
    if IsTimestamp(PrintTimestamp(t)) {
      var u :| ValidTimestamp(u) && PrintTimestamp(t) == PrintTimestamp(u);
      NoFractionBeforeOffset(t, u);
      OffsetPrintsOnce(t.zone, u.zone);
    }
  }

  // ---------------------------------------------------------------- examples of the standards

  predicate Spells(bytes: seq<Byte>, text: string) {
    |bytes| == |text| && forall i :: 0 <= i < |text| ==> bytes[i] == text[i] as int
  }

  lemma PadPair(n: nat)
    requires n < 100
    ensures Pad(n, 2) == [n / 10 + 48, n % 10 + 48]
  {
    assert Pad(n / 10, 1) == Pad(n / 100, 0) + [n / 10 % 10 + 48];
  }

  lemma PadFour(n: nat)
    requires n < 10000
    ensures Pad(n, 4) == Pad(n / 100, 2) + [n / 10 % 10 + 48, n % 10 + 48]
  {
    assert n / 10 / 10 == n / 100;
    assert Pad(n / 10, 3) == Pad(n / 10 / 10, 2) + [n / 10 % 10 + 48];
    assert Pad(n, 4) == Pad(n / 10, 3) + [n % 10 + 48];
  }

  lemma ZoneParts(z: Zone)
    requires z.Offset? && ValidZone(z)
    ensures PrintZone(z) == [if z.behind then 45 else 43, z.hours / 10 + 48, z.hours % 10 + 48, 58,
                             z.minutes / 10 + 48, z.minutes % 10 + 48]
  {
    PadPair(z.hours);
    PadPair(z.minutes);
  }

  const PUBLISHED_MOMENT: Moment := Moment(1996, 12, 19, 16, 39, 57)

  const PUBLISHED_MOMENT_BYTES: seq<Byte> :=
    [49, 57, 57, 54, 45, 49, 50, 45, 49, 57, 84, 49, 54, 58, 51, 57, 58, 53, 55]

  const PUBLISHED_ZONE_BYTES: seq<Byte> := [45, 48, 56, 58, 48, 48]

  lemma PublishedDate()
    ensures Pad(1996, 4) == [49, 57, 57, 54] && Pad(12, 2) == [49, 50] && Pad(19, 2) == [49, 57]
  {
    PadFour(1996);
    PadPair(12);
    PadPair(19);
  }

  lemma PublishedTime()
    ensures Pad(16, 2) == [49, 54] && Pad(39, 2) == [51, 57] && Pad(57, 2) == [53, 55]
  {
    PadPair(16);
    PadPair(39);
    PadPair(57);
  }

  lemma PublishedMoment()
    ensures PrintMoment(PUBLISHED_MOMENT) == PUBLISHED_MOMENT_BYTES
  {
    PublishedDate();
    PublishedTime();
  }

  lemma PublishedZone()
    ensures PrintZone(Offset(true, 8, 0)) == PUBLISHED_ZONE_BYTES
  {
    ZoneParts(Offset(true, 8, 0));
  }

  lemma PublishedText()
    ensures Spells(PUBLISHED_MOMENT_BYTES, "1996-12-19T16:39:57") && Spells(PUBLISHED_ZONE_BYTES, "-08:00")
  {
  }

  lemma SpellsJoin(a: seq<Byte>, s: string, b: seq<Byte>, t: string)
    requires Spells(a, s) && Spells(b, t)
    ensures Spells(a + b, s + t)
  {
  }

  lemma WithoutFraction(m: Moment, z: Zone)
    ensures PrintTimestamp(Timestamp(m, [], z)) == PrintMoment(m) + PrintZone(z)
  {
    assert PrintFraction([]) == [];
  }

  /** An example of section 5.8 of RFC 3339: 1996-12-19T16:39:57-08:00. */
  lemma PublishedTimestamp()
    ensures Spells(PrintTimestamp(Timestamp(PUBLISHED_MOMENT, [], Offset(true, 8, 0))),
                   "1996-12-19T16:39:57" + "-08:00")
  {
    WithoutFraction(PUBLISHED_MOMENT, Offset(true, 8, 0));
    PublishedMoment();
    PublishedZone();
    PublishedText();
    SpellsJoin(PUBLISHED_MOMENT_BYTES, "1996-12-19T16:39:57", PUBLISHED_ZONE_BYTES, "-08:00");
  }

  lemma EscapedSlash()
    ensures Escape("a/b") == "a~1b" && Escape("m~n") == "m~0n"
  {
    assert "a/b"[1..] == "/b" && "/b"[1..] == "b" && "b"[1..] == "";
    assert "m~n"[1..] == "~n" && "~n"[1..] == "n" && "n"[1..] == "";
    assert Escape("b") == "b" && Escape("/b") == "~1b";
    assert Escape("n") == "n" && Escape("~n") == "~0n";
  }

  lemma EscapedPlain()
    ensures Escape("foo") == "foo" && Escape("0") == "0" && Escape("") == ""
  {
    assert "foo"[1..] == "oo" && "oo"[1..] == "o" && "o"[1..] == "" && "0"[1..] == "";
    assert Escape("o") == "o" && Escape("oo") == "oo";
  }

  /** The two escapes of section 3 of RFC 6901, in examples of its section 5. */
  lemma PublishedPointers()
    ensures PrintPointer(["a/b"]) == "/a~1b" && PrintPointer(["m~n"]) == "/m~0n"
    ensures PrintPointer(["foo", "0"]) == "/foo/0" && PrintPointer([""]) == "/" && PrintPointer([]) == ""
  {
    EscapedSlash();
    EscapedPlain();
    assert ["foo", "0"][1..] == ["0"];
    assert PrintTokens(["foo", "0"]) == "foo" + "/" + "0";
  }
}
