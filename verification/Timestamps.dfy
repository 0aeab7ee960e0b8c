/** Comparing RFC 3339 timestamps, leap seconds and zones included: src/recommendation/labeler-discovery.ts. */
module Timestamps {
  import opened Calendar

  const MAX_TIMESTAMP_LENGTH := 64
  const MILLIS_PER_DAY := 86_400_000

  datatype Zone = Z | Offset(ahead: bool, hours: nat, minutes: nat)

  /** The fields of a timestamp as written, in local time. No fraction is the empty fraction. */
  datatype Timestamp = Timestamp(
    year: nat, month: nat, day: nat, hour: nat, minute: nat, second: nat, fraction: seq<nat>, zone: Zone)

  datatype OrderKey = OrderKey(boundaryMillis: int, phase: nat, fraction: seq<nat>)

  // ---------------------------------------------------------------- the program

  function OffsetMillis(zone: Zone): int {
    if zone.Z? then 0
    else (if zone.ahead then 1 else -1) * ((zone.hours * 60 + zone.minutes) * 60_000)
  }

  /** The time value of UTC fields, by sections 21.4.1.13 to 21.4.1.15 of ECMA-262. */
  function TimeValue(year: int, month: int, day: int, hour: int, minute: int, second: int): int
    requires 1 <= month <= 12
  {
    DayNumber(Date(year, month, day)) * MILLIS_PER_DAY + hour * 3_600_000 + minute * 60_000 + second * 1_000
  }

  /** Date.UTC takes years 0 to 99 to mean 1900 to 1999. */
  function DateUtc(year: int, month: int, day: int, hour: int, minute: int, second: int): int
    requires 1 <= month <= 12
  {
    TimeValue(if 0 <= year <= 99 then 1900 + year else year, month, day, hour, minute, second)
  }

  function UtcSecondStart(year: int, month: int, day: int, hour: int, minute: int, second: int): int
    requires 1 <= month <= 12
  {
    if 0 <= year < 100 then TimeValue(year, month, day, hour, minute, second)
    else DateUtc(year, month, day, hour, minute, second)
  }

  /** The UTC fields of a time value are those of the last second of a month. */
  predicate EndsMonth(value: int) {
    var date := DateFromDay(value / MILLIS_PER_DAY);
    var ofDay := value % MILLIS_PER_DAY;
    && ofDay / 3_600_000 == 23
    && ofDay / 60_000 % 60 == 59
    && ofDay / 1_000 % 60 == 59
    && date.day == DaysInMonth(date.year, date.month)
  }

  /** A leap second is taken only after the last second of a month in UTC. */
  predicate LeapSecondPlaced(t: Timestamp)
    requires 1 <= t.month <= 12
  {
    t.second != 60 ||
    EndsMonth(UtcSecondStart(t.year, t.month, t.day, t.hour, t.minute, 59) - OffsetMillis(t.zone))
  }

  function TextLength(t: Timestamp): nat {
    19 + (if t.fraction == [] then 0 else 1 + |t.fraction|) + (if t.zone.Z? then 1 else 6)
  }

  predicate Digits(s: seq<nat>) {
    forall i :: 0 <= i < |s| ==> s[i] <= 9
  }

  /** Everything but the place of a leap second. */
  predicate InRange(t: Timestamp) {
    && t.year <= 9999
    && Valid(Date(t.year, t.month, t.day))
    && t.hour <= 23 && t.minute <= 59 && t.second <= 60
    && Digits(t.fraction)
    && (t.zone.Offset? ==> t.zone.hours <= 23 && t.zone.minutes <= 59)
    && TextLength(t) <= MAX_TIMESTAMP_LENGTH
  }

  predicate Accepted(t: Timestamp) {
    InRange(t) && LeapSecondPlaced(t)
  }

  function KeyOf(t: Timestamp): OrderKey
    requires InRange(t)
  {
    var start := UtcSecondStart(t.year, t.month, t.day, t.hour, t.minute, if t.second < 59 then t.second else 59)
                 - OffsetMillis(t.zone);
    OrderKey(if t.second == 60 then start + 1_000 else start, if t.second == 60 then 0 else 1, t.fraction)
  }

  function PadEnd(s: seq<nat>, length: nat): (r: seq<nat>)
    ensures |s| <= length ==> |r| == length
    ensures Digits(s) ==> Digits(r)
    decreases length - |s|
  {
    if |s| >= length then s else PadEnd(s + [0], length)
  }

  /** Nothing but zeros is added, up to the length. */
  lemma {:induction false} PaddedWithZeros(s: seq<nat>, length: nat)
    ensures var r := PadEnd(s, length);
      && |r| == (if |s| < length then length else |s|)
      && s <= r && forall k :: |s| <= k < |r| ==> r[k] == 0
    decreases length - |s|
  {
    if |s| < length {
      PaddedWithZeros(s + [0], length);
    }
  }

  /** How texts of digits of one length compare. */
  function CompareDigits(a: seq<nat>, b: seq<nat>): int
    requires |a| == |b|
  {
    if a == [] then 0
    else if a[0] != b[0] then (if a[0] < b[0] then -1 else 1)
    else CompareDigits(a[1..], b[1..])
  }

  function CompareFractions(a: seq<nat>, b: seq<nat>): int {
    var length := if |a| < |b| then |b| else |a|;
    CompareDigits(PadEnd(a, length), PadEnd(b, length))
  }

  function CompareKeys(a: OrderKey, b: OrderKey): int {
    if a.boundaryMillis != b.boundaryMillis then a.boundaryMillis - b.boundaryMillis
    else if a.phase != b.phase then a.phase - b.phase
    else CompareFractions(a.fraction, b.fraction)
  }

  function Compare(a: Timestamp, b: Timestamp): int
    requires InRange(a) && InRange(b)
  {
    CompareKeys(KeyOf(a), KeyOf(b))
  }

  // ---------------------------------------------------------------- fractions as numbers

  /** The fraction of a second that the digits after the point stand for. */
  ghost function FractionValue(s: seq<nat>): real {
    if s == [] then 0.0 else (s[0] as real + FractionValue(s[1..])) / 10.0
  }

  lemma {:induction false} FractionBelowOne(s: seq<nat>)
    requires Digits(s)
    ensures 0.0 <= FractionValue(s) < 1.0
  {
    if s != [] {
      FractionBelowOne(s[1..]);
    }
  }

  lemma {:induction false} TrailingZero(s: seq<nat>)
    ensures FractionValue(s + [0]) == FractionValue(s)
  {
    if s != [] {
      assert (s + [0])[1..] == s[1..] + [0];
      TrailingZero(s[1..]);
    } else {
      assert (s + [0])[1..] == [];
    }
  }

  lemma {:induction false} PaddingKeepsValue(s: seq<nat>, length: nat)
    ensures FractionValue(PadEnd(s, length)) == FractionValue(s)
    decreases length - |s|
  {
    if |s| < length {
      TrailingZero(s);
      PaddingKeepsValue(s + [0], length);
    }
  }

  lemma {:induction false} DigitsCompareAsNumbers(a: seq<nat>, b: seq<nat>)
    requires |a| == |b| && Digits(a) && Digits(b)
    ensures CompareDigits(a, b) < 0 <==> FractionValue(a) < FractionValue(b)
    ensures CompareDigits(a, b) == 0 <==> FractionValue(a) == FractionValue(b)
  {
    if a != [] {
      FractionBelowOne(a[1..]);
      FractionBelowOne(b[1..]);
      DigitsCompareAsNumbers(a[1..], b[1..]);
    }
  }

  /** Fractions of any lengths compare as the numbers they stand for. */
  lemma FractionsCompareAsNumbers(a: seq<nat>, b: seq<nat>)
    requires Digits(a) && Digits(b)
    ensures CompareFractions(a, b) < 0 <==> FractionValue(a) < FractionValue(b)
    ensures CompareFractions(a, b) == 0 <==> FractionValue(a) == FractionValue(b)
  {
    var length := if |a| < |b| then |b| else |a|;
    PaddingKeepsValue(a, length);
    PaddingKeepsValue(b, length);
    DigitsCompareAsNumbers(PadEnd(a, length), PadEnd(b, length));
  }

  // ---------------------------------------------------------------- instants

  /** A moment on the UTC calendar and clock; only a leap second has second 60. */
  datatype Instant = Instant(date: Date, hour: int, minute: int, second: nat, fraction: real)

  function OffsetMinutes(zone: Zone): int {
    if zone.Z? then 0 else if zone.ahead then zone.hours * 60 + zone.minutes else -(zone.hours * 60 + zone.minutes)
  }

  /** The moment a timestamp names: its clock set back by its offset, the date one day off where that passes midnight. */
  ghost function Utc(t: Timestamp): Instant
    requires InRange(t)
  {
    var date := Date(t.year, t.month, t.day);
    var minutes := t.hour * 60 + t.minute - OffsetMinutes(t.zone);
    var day := if minutes < 0 then PreviousDay(date) else if minutes < 1440 then date else NextDay(date);
    var clock := if minutes < 0 then minutes + 1440 else if minutes < 1440 then minutes else minutes - 1440;
    Instant(day, clock / 60, clock % 60, t.second, FractionValue(t.fraction))
  }

  /** One moment before another: the first difference from the year down decides. */
  ghost predicate Before(a: Instant, b: Instant) {
    if a.date != b.date then Earlier(a.date, b.date)
    else if a.hour != b.hour then a.hour < b.hour
    else if a.minute != b.minute then a.minute < b.minute
    else if a.second != b.second then a.second < b.second
    else a.fraction < b.fraction
  }

  ghost function MinuteOf(i: Instant): int
    requires 1 <= i.date.month <= 12
  {
    DayNumber(i.date) * 1440 + i.hour * 60 + i.minute
  }

  /** The time value of a second of a timestamp, from its UTC fields. */
  lemma TimeValueIsUtc(t: Timestamp, second: int)
    requires InRange(t)
    ensures UtcSecondStart(t.year, t.month, t.day, t.hour, t.minute, second) - OffsetMillis(t.zone) ==
            MinuteOf(Utc(t)) * 60_000 + second * 1_000
  {
    var date := Date(t.year, t.month, t.day);
    NextDayCounts(date);
    PreviousDayCounts(date);
    assert OffsetMillis(t.zone) == OffsetMinutes(t.zone) * 60_000;
  }

  lemma DayPart(value: int, day: int, rest: int)
    requires 0 <= rest < MILLIS_PER_DAY && value == day * MILLIS_PER_DAY + rest
    ensures value / MILLIS_PER_DAY == day && value % MILLIS_PER_DAY == rest
  {
  }

  lemma HourPart(value: int, hour: int, rest: int)
    requires 0 <= rest < 3_600_000 && value == hour * 3_600_000 + rest
    ensures value / 3_600_000 == hour
  {
  }

  lemma MinutePart(value: int, hour: int, minute: int, rest: int)
    requires 0 <= minute <= 59 && 0 <= rest < 60_000 && value == (hour * 60 + minute) * 60_000 + rest
    ensures value / 60_000 % 60 == minute
  {
    assert value / 60_000 == hour * 60 + minute;
  }

  lemma SecondPart(value: int, minutes: int, second: int)
    requires 0 <= second <= 59 && value == (minutes * 60 + second) * 1_000
    ensures value / 1_000 % 60 == second
  {
    assert value / 1_000 == minutes * 60 + second;
  }

  /** Reading the fields of a time value gives back what it was made of. */
  lemma FieldsOfTimeValue(value: int, day: int, hour: int, minute: int, second: int)
    requires 0 <= hour <= 23 && 0 <= minute <= 59 && 0 <= second <= 59
    requires value == (day * 1440 + hour * 60 + minute) * 60_000 + second * 1_000
    ensures value / MILLIS_PER_DAY == day
    ensures var ofDay := value % MILLIS_PER_DAY;
            ofDay / 3_600_000 == hour && ofDay / 60_000 % 60 == minute && ofDay / 1_000 % 60 == second
  {
    var ofDay := hour * 3_600_000 + minute * 60_000 + second * 1_000;
    DayPart(value, day, ofDay);
    HourPart(ofDay, hour, minute * 60_000 + second * 1_000);
    MinutePart(ofDay, hour, minute, second * 1_000);
    SecondPart(ofDay, hour * 60 + minute, second);
  }

  lemma UtcIsProper(t: Timestamp)
    requires InRange(t)
    ensures Valid(Utc(t).date) && 0 <= Utc(t).hour <= 23 && 0 <= Utc(t).minute <= 59
  {
  }

  /** A leap second is accepted exactly at 23:59:60 UTC on the last day of a month. */
  lemma LeapSecondsEndMonths(t: Timestamp)
    requires InRange(t)
    ensures LeapSecondPlaced(t) <==>
            t.second != 60 || (Utc(t).hour == 23 && Utc(t).minute == 59 && LastOfMonth(Utc(t).date))
  {
    ghost var value := UtcSecondStart(t.year, t.month, t.day, t.hour, t.minute, 59) - OffsetMillis(t.zone);
    ghost var utc := Utc(t);
    assert EndsMonth(value) <==> utc.hour == 23 && utc.minute == 59 && LastOfMonth(utc.date) by {
      UtcIsProper(t);
      TimeValueIsUtc(t, 59);
      LastSecondsEndMonths(value, utc);
    }
  }

  lemma LastSecondsEndMonths(value: int, utc: Instant)
    requires Valid(utc.date) && 0 <= utc.hour <= 23 && 0 <= utc.minute <= 59
    requires value == MinuteOf(utc) * 60_000 + 59_000
    ensures EndsMonth(value) <==> utc.hour == 23 && utc.minute == 59 && LastOfMonth(utc.date)
  {
    DateRoundTrip(utc.date);
    FieldsOfTimeValue(value, DayNumber(utc.date), utc.hour, utc.minute, 59);
  }

  lemma MinutesOrderClocks(a: int, h: int, m: int, b: int, i: int, n: int)
    requires 0 <= h <= 23 && 0 <= i <= 23 && 0 <= m <= 59 && 0 <= n <= 59
    ensures a * 1440 + h * 60 + m < b * 1440 + i * 60 + n <==> a < b || (a == b && (h < i || (h == i && m < n)))
    ensures a * 1440 + h * 60 + m == b * 1440 + i * 60 + n <==> a == b && h == i && m == n
  {
  }

  lemma MinutesOrderInstants(a: Timestamp, b: Timestamp)
    requires InRange(a) && InRange(b)
    ensures var (u, v) := (Utc(a), Utc(b));
            && (MinuteOf(u) < MinuteOf(v) <==>
                Earlier(u.date, v.date) ||
                (u.date == v.date && (u.hour < v.hour || (u.hour == v.hour && u.minute < v.minute))))
            && (MinuteOf(u) == MinuteOf(v) <==> u.date == v.date && u.hour == v.hour && u.minute == v.minute)
  {
    UtcIsProper(a);
    UtcIsProper(b);
    ghost var u, v := Utc(a), Utc(b);
    DayNumbersOrderDates(u.date, v.date);
    MinutesOrderClocks(DayNumber(u.date), u.hour, u.minute, DayNumber(v.date), v.hour, v.minute);
  }

  /** Timestamps compare as the moments they name, whatever zones and how many zeros they are written with. */
  lemma CompareIsChronology(a: Timestamp, b: Timestamp)
    requires InRange(a) && InRange(b)
    ensures Compare(a, b) < 0 <==> Before(Utc(a), Utc(b))
    ensures Compare(a, b) == 0 <==> Utc(a) == Utc(b)
  {
    KeyIsMinuteAndSecond(a);
    KeyIsMinuteAndSecond(b);
    MinutesOrderInstants(a, b);
    FractionsCompareAsNumbers(a.fraction, b.fraction);
  }

  lemma KeyIsMinuteAndSecond(t: Timestamp)
    requires InRange(t)
    ensures KeyOf(t).boundaryMillis == MinuteOf(Utc(t)) * 60_000 + t.second * 1_000
  {
    TimeValueIsUtc(t, if t.second < 59 then t.second else 59);
  }

  /** The minutes on the clock and calendar a timestamp is written with. */
  ghost function LocalMinutes(t: Timestamp): int
    requires InRange(t)
  {
    DayNumber(Date(t.year, t.month, t.day)) * 1440 + t.hour * 60 + t.minute
  }

  /** A zone ahead of UTC shows a later clock for the same moment, by its hours and minutes; a zone behind, an earlier one. */
  lemma ZonesShiftClocks(t: Timestamp, utc: Timestamp)
    requires InRange(t) && InRange(utc) && t.zone.Offset? && utc.zone.Z?
    ensures Compare(t, utc) == 0 <==>
            && LocalMinutes(t) == LocalMinutes(utc) +
              (if t.zone.ahead then t.zone.hours * 60 + t.zone.minutes else -(t.zone.hours * 60 + t.zone.minutes))
            && t.second == utc.second && FractionValue(t.fraction) == FractionValue(utc.fraction)
  {
    CompareIsChronology(t, utc);
    TimeValueIsUtc(t, 0);
    TimeValueIsUtc(utc, 0);
    MinutesOrderInstants(t, utc);
  }

  /** The order is total: it only turns round with its arguments. */
  lemma CompareIsTotal(a: Timestamp, b: Timestamp)
    requires InRange(a) && InRange(b)
    ensures Compare(a, b) < 0 <==> Compare(b, a) > 0
    ensures Compare(a, b) == 0 <==> Compare(b, a) == 0
  {
    FractionsCompareAsNumbers(a.fraction, b.fraction);
    FractionsCompareAsNumbers(b.fraction, a.fraction);
  }

  lemma CompareIsTransitive(a: Timestamp, b: Timestamp, c: Timestamp)
    requires InRange(a) && InRange(b) && InRange(c)
    requires Compare(a, b) <= 0 && Compare(b, c) <= 0
    ensures Compare(a, c) <= 0
    ensures Compare(a, c) == 0 ==> Compare(a, b) == 0 && Compare(b, c) == 0
  {
    FractionsCompareAsNumbers(a.fraction, b.fraction);
    FractionsCompareAsNumbers(b.fraction, c.fraction);
    FractionsCompareAsNumbers(a.fraction, c.fraction);
  }

  /** A leap second lies after every part of the second before it and before all of the next day. */
  lemma LeapSecondInBetween(before: Timestamp, leap: Timestamp, after: Timestamp)
    requires Accepted(before) && Accepted(leap) && Accepted(after) && leap.second == 60
    requires var (u, v) := (Utc(before), Utc(leap)); u.date == v.date && u.hour == 23 && u.minute == 59 && u.second == 59
    requires var (u, v) := (Utc(after), Utc(leap)); u.date == NextDay(v.date) && u.hour == u.minute == u.second == 0
    ensures Compare(before, leap) < 0 && Compare(leap, after) < 0
  {
    LeapSecondsEndMonths(leap);
    CompareIsChronology(before, leap);
    CompareIsChronology(leap, after);
  }

  /** Without the branch for them, years before 100 would be taken for the twentieth century. */
  lemma EarlyYearsNeedTheirBranch(year: nat, month: int, day: int, hour: int, minute: int, second: int)
    requires 1 <= month <= 12
    ensures UtcSecondStart(year, month, day, hour, minute, second) == TimeValue(year, month, day, hour, minute, second)
    ensures DateUtc(year, 1, 1, 0, 0, 0) == TimeValue(year, 1, 1, 0, 0, 0) <==> year >= 100
  {
    if year < 100 {
      YearsInOrder(year, 1900 + year);
      YearLength(year);
    }
  }
}
