/** Timestamps: the encoding that `getTime` produces and the decoding that `formatTime` performs,
    in whole milliseconds. Years are counted from 1900, which the tables take for a leap year. */
module CalendarTime {
  import opened Ids

  const MS_PER_DAY: nat := 86400000

  // ----- the tables, in closed form -----

  /** The days before the first of January of year `k`, up to 2200. */
  function YearOffset(k: nat): nat {
    365 * k + (k + 3) / 4 - (if k > 200 then 1 else 0)
  }

  predicate YearIsLeap(k: nat) {
    k % 4 == 0 && k != 200 && k != 300
  }

  function YearLength(k: nat): nat {
    if YearIsLeap(k) then 366 else 365
  }

  /** The days before each month, and those of the whole year. */
  function MonthOffsets(leap: bool): (offsets: seq<nat>)
    ensures |offsets| == 13
  {
    if leap then [0, 31, 60, 91, 121, 152, 182, 213, 244, 274, 305, 335, 366]
    else [0, 31, 59, 90, 120, 151, 181, 212, 243, 273, 304, 334, 365]
  }

  /** The months have the lengths of the calendar. */
  lemma MonthLengths(leap: bool, month: nat)
    requires 1 <= month <= 12
    ensures MonthOffsets(leap)[0] == 0
    ensures MonthOffsets(leap)[month] - MonthOffsets(leap)[month - 1] ==
      if month == 2 then (if leap then 29 else 28) else if month in {4, 6, 9, 11} then 30 else 31
  {
  }

  /** The leap years are those of the calendar, and 1900. */
  lemma LeapYears(year: nat)
    requires 1900 <= year <= 2200
    ensures YearIsLeap(year - 1900) <==> (year % 4 == 0 && year % 100 != 0) || year % 400 == 0 || year == 1900
    ensures YearOffset(0) == 0
  {
  }

  /** The two tables agree: a year offset is the one before it plus the length of that year. */
  lemma YearOffsetStep(k: nat)
    requires k < 300
    ensures YearOffset(k + 1) == YearOffset(k) + YearLength(k)
  {
  }

  lemma YearOffsetAscends(j: nat, k: nat)
    requires j < k <= 300
    ensures YearOffset(j) + YearLength(j) <= YearOffset(k)
  {
  }

  // ----- stamps -----

  datatype Stamp = Stamp(year: nat, month: nat, day: nat, hour: nat, minute: nat, second: nat, millisecond: nat)

  function MonthOffset(leap: bool, month: nat): nat
    requires month <= 12
  {
    MonthOffsets(leap)[month]
  }

  lemma MonthOffsetAscends(leap: bool, m: nat, n: nat)
    requires m <= n <= 12
    ensures MonthOffset(leap, m) <= MonthOffset(leap, n)
  {
  }

  predicate ValidDate(year: nat, month: nat, day: nat) {
    && 1900 <= year <= 2200 && 1 <= month <= 12
    && var leap := YearIsLeap(year - 1900);
       1 <= day <= MonthOffset(leap, month) - MonthOffset(leap, month - 1)
  }

  predicate ValidStamp(s: Stamp) {
    ValidDate(s.year, s.month, s.day) && s.hour < 24 && s.minute < 60 && s.second < 60 && s.millisecond < 1000
  }

  predicate LastOfDecember(s: Stamp) { s.month == 12 && s.day == 31 }

  // ----- getTime -----

  /** The fields of the C library's broken-down time, and the milliseconds, that `getTime` uses. */
  datatype LocalTime = LocalTime(year: int, yday: nat, hour: nat, minute: nat, second: nat, millisecond: nat)

  /** `getTime`, in milliseconds: the time of day on top of day `yday + 1` of the year. */
  function GetTime(tm: LocalTime): Option<nat> {
    if 0 <= tm.year <= 300 then
      Some(Milliseconds(tm.yday + 1 + YearOffset(tm.year), TimeOfDay(tm.hour, tm.minute, tm.second, tm.millisecond)))
    else None
  }

  function TimeOfDay(hour: nat, minute: nat, second: nat, millisecond: nat): nat {
    millisecond + 1000 * (second + 60 * (minute + 60 * hour))
  }

  function Milliseconds(days: nat, ms: nat): nat { days * MS_PER_DAY + ms }

  function DayOfYear(s: Stamp): (d: nat)
    requires ValidStamp(s)
    ensures 1 <= d <= YearLength(s.year - 1900)
    ensures d == YearLength(s.year - 1900) <==> LastOfDecember(s)
  {
    MonthOffset(YearIsLeap(s.year - 1900), s.month - 1) + s.day
  }

  function DayNumber(s: Stamp): nat
    requires ValidStamp(s)
  {
    YearOffset(s.year - 1900) + DayOfYear(s)
  }

  /** What the C library reports for a stamp. */
  function Broken(s: Stamp): LocalTime
    requires ValidStamp(s)
  {
    LocalTime(s.year - 1900, DayOfYear(s) - 1, s.hour, s.minute, s.second, s.millisecond)
  }

  function Encode(s: Stamp): (total: nat)
    requires ValidStamp(s)
    ensures GetTime(Broken(s)) == Some(total)
  {
    Milliseconds(DayNumber(s), TimeOfDay(s.hour, s.minute, s.second, s.millisecond))
  }

  /** The first day of 1900 is day 1, and in January the day of the year is one less than that of the
      month. */
  lemma FirstDay(s: Stamp)
    requires ValidStamp(s) && s.month == 1
    ensures Broken(s).yday == s.day - 1
    ensures GetTime(LocalTime(0, 0, 0, 0, 0, 0)) == Some(86400000)
  {
  }

  // ----- stamps are determined by their encodings -----

  lemma EncodedDay(s: Stamp)
    requires ValidStamp(s)
    ensures Encode(s) / MS_PER_DAY == DayNumber(s)
  {
  }

  lemma SameYear(s: Stamp, t: Stamp)
    requires ValidStamp(s) && ValidStamp(t) && DayNumber(s) == DayNumber(t)
    ensures s.year == t.year
  {
    if s.year < t.year {
      YearOffsetAscends(s.year - 1900, t.year - 1900);
    } else if t.year < s.year {
      YearOffsetAscends(t.year - 1900, s.year - 1900);
    }
  }

  lemma SameMonth(s: Stamp, t: Stamp)
    requires ValidStamp(s) && ValidStamp(t) && s.year == t.year && DayOfYear(s) == DayOfYear(t)
    ensures s.month == t.month && s.day == t.day
  {
    var leap := YearIsLeap(s.year - 1900);
    if s.month < t.month {
      MonthOffsetAscends(leap, s.month, t.month - 1);
    } else if t.month < s.month {
      MonthOffsetAscends(leap, t.month, s.month - 1);
    }
  }

  lemma SameTimeOfDay(s: Stamp, t: Stamp)
    requires ValidStamp(s) && ValidStamp(t)
    requires TimeOfDay(s.hour, s.minute, s.second, s.millisecond) == TimeOfDay(t.hour, t.minute, t.second, t.millisecond)
    ensures s.hour == t.hour && s.minute == t.minute && s.second == t.second && s.millisecond == t.millisecond
  {
  }

  /** No two valid stamps have the same encoding. */
  lemma EncodeInjective(s: Stamp, t: Stamp)
    requires ValidStamp(s) && ValidStamp(t) && Encode(s) == Encode(t)
    ensures s == t
  {
    EncodedDay(s);
    EncodedDay(t);
    SameYear(s, t);
    SameMonth(s, t);
    SameTimeOfDay(s, t);
  }

  // ----- formatTime -----

  /** The encodings that `formatTime` rejects: days equal to an entry of the year table, and days
      from the last entry searched on. */
  ghost predicate Rejected(total: nat) {
    var day := total / MS_PER_DAY;
    day >= YearOffset(299) || exists k: nat :: k < 299 && day == YearOffset(k)
  }

  /** Among valid stamps, exactly the thirty-firsts of December and those after 2198 are rejected. */
  lemma RejectedStamps(s: Stamp)
    requires ValidStamp(s)
    ensures Rejected(Encode(s)) <==> LastOfDecember(s) || s.year > 2198
  {
    var y := s.year - 1900;
    EncodedDay(s);
    if y > 298 {
      YearOffsetAscends(298, y);
      YearOffsetStep(298);
    } else {
      YearOffsetStep(y);
      if LastOfDecember(s) {
        if y < 298 { assert DayNumber(s) == YearOffset(y + 1); }
      } else {
        if y < 298 { YearOffsetAscends(y, 299); }
        forall k: nat | k < 299 ensures DayNumber(s) != YearOffset(k) {
          if k < y { YearOffsetAscends(k, y); }
          if y < k { YearOffsetAscends(y, k); }
        }
      }
    }
  }

  /** The last day of 2000, at noon, is a valid time that is rejected. */
  lemma LastOf2000Rejected()
    ensures ValidStamp(Stamp(2000, 12, 31, 12, 0, 0, 0)) && Rejected(Encode(Stamp(2000, 12, 31, 12, 0, 0, 0)))
  {
    RejectedStamps(Stamp(2000, 12, 31, 12, 0, 0, 0));
  }

  /** The search for the year: the first entry past the day, among the first 300. */
  method FindYear(day: nat) returns (yearOffset: nat, found: bool)
    ensures found <==> day < YearOffset(299)
    ensures found ==> 1 <= yearOffset <= 299 && YearOffset(yearOffset - 1) <= day < YearOffset(yearOffset)
  {
    yearOffset, found := 0, false;
    while yearOffset < 300
      invariant yearOffset <= 300
      invariant yearOffset > 0 ==> YearOffset(yearOffset - 1) <= day
    {
      if day < YearOffset(yearOffset) {
        if yearOffset < 299 { YearOffsetAscends(yearOffset, 299); }
        found := true;
        return;
      }
      yearOffset := yearOffset + 1;
    }
  }

  /** The search for the month starts at `days / 30`, which is never past it, and never fails. */
  method FindMonth(leap: bool, days: nat) returns (month: nat, found: bool)
    requires 1 <= days <= MonthOffset(leap, 12)
    ensures found
    ensures 1 <= month <= 12 && MonthOffset(leap, month - 1) < days <= MonthOffset(leap, month)
  {
    month, found := days / 30, false;
    assert month > 0 ==> MonthOffset(leap, month - 1) < days;
    while month < 13
      invariant month <= 12
      invariant month > 0 ==> MonthOffset(leap, month - 1) < days
    {
      if days <= MonthOffset(leap, month) {
        found := true;
        return;
      }
      month := month + 1;
    }
  }

  /** The time of day is taken off field by field. */
  method SplitTimeOfDay(total: nat) returns (hour: nat, minute: nat, second: nat, millisecond: nat)
    ensures TimeOfDay(hour, minute, second, millisecond) == total
    ensures total < MS_PER_DAY ==> hour < 24
    ensures minute < 60 && second < 60 && millisecond < 1000
  {
    var rest := total;
    hour := rest / 3600000;
    rest := rest - hour * 3600000;
    minute := rest / 60000;
    rest := rest - minute * 60000;
    second := rest / 1000;
    millisecond := rest - second * 1000;
  }

  /** `formatTime`, up to the layout of the text: the stamp of a number of milliseconds. */
  method FormatTime(total: nat) returns (r: Option<Stamp>)
    ensures r.None? <==> Rejected(total)
    ensures r.Some? ==> ValidStamp(r.value) && Encode(r.value) == total
  {
    var yearOffset, found := FindYear(total / MS_PER_DAY);
    if !found {
      return None;
    }
    var year := yearOffset - 1;
    var rest := total - YearOffset(year) * MS_PER_DAY;
    var days := rest / MS_PER_DAY;
    if days == 0 {
      return None;
    }
    YearOffsetStep(year);
    var leap := YearIsLeap(year);
    var month, monthFound := FindMonth(leap, days);
    assert monthFound;
    rest := rest - days * MS_PER_DAY;
    days := days - MonthOffset(leap, month - 1);
    var hour, minute, second, millisecond := SplitTimeOfDay(rest);
    var s := Stamp(year + 1900, month, days, hour, minute, second, millisecond);
    RejectedStamps(s);
    r := Some(s);
  }

  /** Decoding undoes encoding, for every stamp that is not rejected. */
  method RoundTrip(s: Stamp) returns (r: Option<Stamp>)
    requires ValidStamp(s)
    ensures r == if LastOfDecember(s) || s.year > 2198 then None else Some(s)
  {
    r := FormatTime(Encode(s));
    RejectedStamps(s);
    if r.Some? {
      EncodeInjective(r.value, s);
    }
  }
}
