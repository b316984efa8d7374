/** The date arithmetic of `format_utc_iso`, against the Gregorian calendar counted day by day
    (section 5.7 and Appendix C of RFC 3339). */
module Calendar {
  import opened Words
  import opened Decimals

  datatype Date = Date(year: int, month: int, day: int)

  // ---- The calendar

  predicate IsLeap(y: int) {
    y % 4 == 0 && (y % 100 != 0 || y % 400 == 0)
  }

  function MonthLength(y: int, m: int): int {
    if m == 2 then (if IsLeap(y) then 29 else 28)
    else if m == 4 || m == 6 || m == 9 || m == 11 then 30
    else 31
  }

  predicate IsDate(d: Date) {
    1 <= d.month <= 12 && 1 <= d.day <= MonthLength(d.year, d.month)
  }

  function NextDay(d: Date): Date {
    if d.day < MonthLength(d.year, d.month) then Date(d.year, d.month, d.day + 1)
    else if d.month < 12 then Date(d.year, d.month + 1, 1)
    else Date(d.year + 1, 1, 1)
  }

  /** The date `n` days after the first of January 1970, counted one day at a time. */
  function DateAfter(n: nat): Date {
    if n == 0 then Date(1970, 1, 1) else NextDay(DateAfter(n - 1))
  }

  // ---- The source's arithmetic. Every intermediate value is natural, so no 32-bit subtraction underflows.

  const ERA_DAYS: nat := 146097

  /** The year of the era, counted from March, of a day of the era. */
  function YearOfEra(doe: nat): (yoe: nat)
    requires doe < ERA_DAYS
  {
    (doe - doe / 1460 + doe / 36524 - doe / 146096) / 365
  }

  /** The days of the era before its `yoe`-th year. */
  function YearStart(yoe: nat): nat {
    365 * yoe + yoe / 4 - yoe / 100
  }

  function MonthIndex(doy: nat): nat {
    (5 * doy + 2) / 153
  }

  /** The days of the March-based year before its `mp`-th month. */
  function MonthStart(mp: nat): nat {
    (153 * mp + 2) / 5
  }

  /** The date of day `doy` of the March-based year `y`. */
  function DateInYear(y: int, doy: nat): Date
    requires doy <= 365
  {
    var mp := MonthIndex(doy);
    MonthBounds(doy);
    var d: nat := doy - MonthStart(mp) + 1;
    var m: nat := if mp < 10 then mp + 3 else mp - 9;
    Date(if m <= 2 then y + 1 else y, m, d)
  }

  function CivilFromDays(days: nat): Date {
    var z: nat := days + 719468;
    var era := z / ERA_DAYS;
    var doe := z - era * ERA_DAYS;
    var yoe := YearOfEra(doe);
    YearBounds(doe);
    var doy: nat := doe - YearStart(yoe);
    DateInYear(yoe + era * 400, doy)
  }

  /** The correction term removes the leap days passed so far. */
  lemma YearWithin(doe: nat, century: nat, cycle: nat, rest: nat)
    requires century < 4 && cycle < 25 && rest < 1461 && doe == 36524 * century + 1461 * cycle + rest
    requires doe < 36524 * (century + 1)
    ensures YearOfEra(doe) == 100 * century + 4 * cycle + (if rest < 1460 then rest / 365 else 3)
  {
    var carry := if 24 * century + cycle + rest < 1460 then 0 else 1;
    assert doe / 1460 == 25 * century + cycle + carry;
    assert doe / 36524 == century && doe / 146096 == 0;
    assert doe - doe / 1460 + doe / 36524 - doe / 146096 == 365 * (100 * century + 4 * cycle) + rest - carry;
    assert (rest - carry) / 365 == if rest < 1460 then rest / 365 else 3;
  }

  lemma YearStartWithin(century: nat, cycle: nat, k: nat)
    requires century < 4 && cycle < 25 && k < 4
    ensures YearStart(100 * century + 4 * cycle + k) == 36524 * century + 1461 * cycle + 365 * k
  {
  }

  lemma CycleEnd(century: nat, cycle: nat)
    requires century < 4 && cycle < 25
    ensures YearStart(100 * century + 4 * cycle + 4) == 36524 * century + 1461 * (cycle + 1) - (if cycle == 24 then 1 else 0)
  {
  }

  /** The day of the era lies in the year computed for it. */
  lemma YearBounds(doe: nat)
    requires doe < ERA_DAYS
    ensures YearOfEra(doe) < 400
    ensures YearStart(YearOfEra(doe)) <= doe
    ensures doe < YearStart(YearOfEra(doe) + 1) || (YearOfEra(doe) == 399 && doe == ERA_DAYS - 1)
    ensures doe - YearStart(YearOfEra(doe)) <= 365
  {
    if doe < ERA_DAYS - 1 {
      var century := doe / 36524;
      var r := doe - 36524 * century;
      YearBoundsWithin(doe, century, r / 1461, r % 1461);
    }
  }

  lemma YearBoundsWithin(doe: nat, century: nat, cycle: nat, rest: nat)
    requires century < 4 && cycle < 25 && rest < 1461 && doe == 36524 * century + 1461 * cycle + rest
    requires doe < 36524 * (century + 1)
    ensures YearOfEra(doe) < 400
    ensures YearStart(YearOfEra(doe)) <= doe < YearStart(YearOfEra(doe) + 1) <= YearStart(YearOfEra(doe)) + 366
  {
    hide YearOfEra, YearStart;
    YearWithin(doe, century, cycle, rest);
    var k := if rest < 1460 then rest / 365 else 3;
    YearStartWithin(century, cycle, k);
    if k < 3 {
      YearStartWithin(century, cycle, k + 1);
    } else {
      CycleEnd(century, cycle);
    }
  }

  lemma MonthBounds(doy: nat)
    requires doy <= 365
    ensures MonthIndex(doy) <= 11 && MonthStart(MonthIndex(doy)) <= doy < MonthStart(MonthIndex(doy) + 1)
  {
  }

  // ---- Successive days

  lemma YearStartGrows(a: nat, b: nat)
    requires a < b
    ensures YearStart(a) < YearStart(a + 1) <= YearStart(b)
  {
  }

  /** The year of a day of the era is determined by its bounds. */
  lemma YearUnique(doe: nat, yoe: nat)
    requires doe < ERA_DAYS && yoe < 400 && YearStart(yoe) <= doe && (doe < YearStart(yoe + 1) || yoe == 399)
    ensures YearOfEra(doe) == yoe
  {
    hide YearOfEra, YearStart;
    YearBounds(doe);
    var k := YearOfEra(doe);
    if k < yoe {
      YearStartGrows(k, yoe);
      EraEnd();
    } else if yoe < k {
      YearStartGrows(yoe, k);
    }
  }

  lemma EraEnd()
    ensures YearStart(399) == ERA_DAYS - 366 && YearStart(0) == 0 && YearStart(1) == 365
  {
  }

  /** A March-based year has 366 days exactly if the calendar year it ends in is a leap year. */
  lemma YearLength(era: nat, yoe: nat)
    requires yoe < 400
    ensures (if yoe == 399 then ERA_DAYS else YearStart(yoe + 1)) == YearStart(yoe) + (if IsLeap(yoe + era * 400 + 1) then 366 else 365)
  {
    LeapPeriodic(yoe + 1, era);
    if yoe < 399 {
      LeapStep(yoe);
    }
  }

  lemma PeriodicBy4(y: nat, k: nat)
    ensures (y + 4 * k) % 4 == y % 4
  {
  }

  lemma PeriodicBy100(y: nat, k: nat)
    ensures (y + 100 * k) % 100 == y % 100
  {
  }

  lemma PeriodicBy400(y: nat, k: nat)
    ensures (y + 400 * k) % 400 == y % 400
  {
  }

  lemma LeapPeriodic(y: nat, era: nat)
    ensures IsLeap(y + era * 400) == IsLeap(y)
  {
    PeriodicBy4(y, 100 * era);
    PeriodicBy100(y, 4 * era);
    PeriodicBy400(y, era);
  }

  lemma LeapStep(yoe: nat)
    requires yoe < 399
    ensures YearStart(yoe + 1) == YearStart(yoe) + (if IsLeap(yoe + 1) then 366 else 365)
  {
    DivisorStep4(yoe);
    DivisorStep100(yoe);
    assert (yoe + 1) % 400 != 0;
    assert (yoe + 1) % 100 == 0 ==> (yoe + 1) % 4 == 0;
  }

  lemma DivisorStep4(y: nat)
    ensures (y + 1) / 4 == y / 4 + (if (y + 1) % 4 == 0 then 1 else 0)
  {
  }

  lemma DivisorStep100(y: nat)
    ensures (y + 1) / 100 == y / 100 + (if (y + 1) % 100 == 0 then 1 else 0)
  {
  }

  lemma MonthIndexUnique(doy: nat, mp: nat)
    requires doy <= 365 && mp <= 11 && MonthStart(mp) <= doy < MonthStart(mp + 1)
    ensures MonthIndex(doy) == mp
  {
  }

  /** The months of the March-based year have the lengths of the calendar, but for the last one, which the year cuts. */
  lemma MonthLengths(mp: nat, y: int)
    requires mp < 11
    ensures var m := if mp < 10 then mp + 3 else mp - 9;
      MonthStart(mp + 1) - MonthStart(mp) == MonthLength(y, m)
    ensures MonthStart(11) == 337 && MonthStart(12) == 367
  {
  }

  lemma WithinYear(y: int, doy: nat)
    requires doy + 1 < (if IsLeap(y + 1) then 366 else 365)
    ensures DateInYear(y, doy + 1) == NextDay(DateInYear(y, doy)) && IsDate(DateInYear(y, doy))
  {
    hide MonthIndex, MonthStart, IsLeap;
    var mp := MonthIndex(doy);
    MonthBounds(doy);
    MonthLengths(0, y);
    if mp < 11 {
      var m := if mp < 10 then mp + 3 else mp - 9;
      MonthLengths(mp, if m <= 2 then y + 1 else y);
    }
    if doy + 1 < MonthStart(mp + 1) {
      MonthIndexUnique(doy + 1, mp);
    } else {
      if mp < 10 {
        MonthLengths(mp + 1, y);
      }
      MonthIndexUnique(doy + 1, mp + 1);
    }
  }

  lemma YearTurns(y: int, doy: nat)
    requires doy + 1 == (if IsLeap(y + 1) then 366 else 365)
    ensures DateInYear(y + 1, 0) == NextDay(DateInYear(y, doy)) && IsDate(DateInYear(y, doy))
  {
    MonthIndexUnique(doy, 11);
    MonthIndexUnique(0, 0);
  }

  lemma SameEra(z: nat)
    ensures if z % ERA_DAYS == ERA_DAYS - 1 then z / ERA_DAYS + 1 == (z + 1) / ERA_DAYS && (z + 1) % ERA_DAYS == 0
            else z / ERA_DAYS == (z + 1) / ERA_DAYS && (z + 1) % ERA_DAYS == z % ERA_DAYS + 1
    ensures z - z / ERA_DAYS * ERA_DAYS == z % ERA_DAYS
  {
  }

  /** Consecutive days give consecutive calendar dates. */
  lemma Successor(days: nat)
    ensures CivilFromDays(days + 1) == NextDay(CivilFromDays(days)) && IsDate(CivilFromDays(days))
  {
    hide YearOfEra, YearStart, DateInYear, NextDay, IsDate, IsLeap;
    var z := days + 719468;
    var era, doe := z / ERA_DAYS, z % ERA_DAYS;
    SameEra(z);
    SameEra(z + 1);
    YearBounds(doe);
    var yoe := YearOfEra(doe);
    var y, doy := yoe + era * 400, doe - YearStart(yoe);
    YearLength(era, yoe);
    EraEnd();
    if doe == ERA_DAYS - 1 {
      YearUnique(doe, 399);
      YearUnique(0, 0);
      YearTurns(y, doy);
    } else if doe + 1 < YearStart(yoe + 1) || yoe == 399 {
      YearUnique(doe + 1, yoe);
      WithinYear(y, doy);
    } else {
      YearStartGrows(yoe + 1, yoe + 2);
      YearUnique(doe + 1, yoe + 1);
      YearTurns(y, doy);
    }
  }

  lemma EpochDate()
    ensures CivilFromDays(0) == Date(1970, 1, 1)
  {
  }

  /** For every day from 1970 on, the formula gives the calendar date counted day by day, and it is a valid date. */
  lemma {:induction false} CivilIsCalendar(days: nat)
    ensures CivilFromDays(days) == DateAfter(days) && IsDate(CivilFromDays(days))
    decreases days
  {
    hide CivilFromDays, NextDay, IsDate;
    EpochDate();
    Successor(days);
    if days > 0 {
      CivilIsCalendar(days - 1);
      Successor(days - 1);
    }
  }

  // ---- Back to the day number

  /** The number of days of a year before one of its months, counted month by month. */
  function DaysBeforeMonth(y: int, m: nat): nat
    requires 1 <= m <= 12
  {
    if m == 1 then 0 else DaysBeforeMonth(y, m - 1) + MonthLength(y, m - 1)
  }

  function DaysBeforeYear(y: int): nat
    requires y >= 1970
    decreases y
  {
    if y == 1970 then 0 else DaysBeforeYear(y - 1) + (if IsLeap(y - 1) then 366 else 365)
  }

  /** The day number of a date from 1970 on, by counting years, months and days. */
  function DayNumber(d: Date): int
    requires IsDate(d) && d.year >= 1970
  {
    DaysBeforeYear(d.year) + DaysBeforeMonth(d.year, d.month) + d.day - 1
  }

  lemma YearDays(y: int)
    ensures DaysBeforeMonth(y, 12) + 31 == if IsLeap(y) then 366 else 365
  {
    var february := if IsLeap(y) then 29 else 28;
    assert DaysBeforeMonth(y, 2) == 31;
    assert DaysBeforeMonth(y, 3) == 31 + february;
    assert DaysBeforeMonth(y, 4) == 62 + february;
    assert DaysBeforeMonth(y, 5) == 92 + february;
    assert DaysBeforeMonth(y, 6) == 123 + february;
    assert DaysBeforeMonth(y, 7) == 153 + february;
    assert DaysBeforeMonth(y, 8) == 184 + february;
    assert DaysBeforeMonth(y, 9) == 215 + february;
    assert DaysBeforeMonth(y, 10) == 245 + february;
    assert DaysBeforeMonth(y, 11) == 276 + february;
    assert DaysBeforeMonth(y, 12) == 306 + february;
  }

  lemma NextDayNumber(d: Date)
    requires IsDate(d) && d.year >= 1970
    ensures IsDate(NextDay(d)) && NextDay(d).year >= 1970 && DayNumber(NextDay(d)) == DayNumber(d) + 1
  {
    YearDays(d.year);
  }

  /** Converting a day to its date and counting back gives the same day. */
  lemma {:induction false} DayRoundTrip(days: nat)
    ensures IsDate(CivilFromDays(days)) && CivilFromDays(days).year >= 1970 && DayNumber(CivilFromDays(days)) == days
    decreases days
  {
    hide CivilFromDays, NextDay, IsDate, DayNumber;
    CivilIsCalendar(days);
    if days == 0 {
      EpochNumber();
    } else {
      DayRoundTrip(days - 1);
      CivilIsCalendar(days - 1);
      NextDayNumber(CivilFromDays(days - 1));
    }
  }

  lemma EpochNumber()
    ensures IsDate(Date(1970, 1, 1)) && DayNumber(Date(1970, 1, 1)) == 0
  {
  }

  /** The clock part: hours, minutes and seconds are in range and make up the second of the day. */
  lemma ClockParts(totalSecs: nat)
    ensures var s := totalSecs % 86400; var h, m, sec := s / 3600, (s % 3600) / 60, s % 60;
      h < 24 && m < 60 && sec < 60 && totalSecs == 86400 * (totalSecs / 86400) + 3600 * h + 60 * m + sec
  {
  }

  // ---- The text of a timestamp

  /** `format_utc_iso`, from the seconds and milliseconds since the epoch. */
  function FormatUtcIso(totalSecs: nat, millis: nat): string
    requires millis < 1000
  {
    DayRoundTrip(totalSecs / 86400);
    var date, s := CivilFromDays(totalSecs / 86400), totalSecs % 86400;
    Pad(date.year, 4) + IsoTail(date.month, date.day, s / 3600, s % 3600 / 60, s % 60, millis)
  }

  /** Everything after the year. */
  function IsoTail(month: nat, day: nat, hours: nat, minutes: nat, seconds: nat, millis: nat): string {
    WriteParts([('-', month), ('-', day), ('T', hours), (':', minutes), (':', seconds)]) + ("." + (Pad(millis, 3) + "Z"))
  }

  /** Two-digit parts, each after its separator. */
  function WriteParts(parts: seq<(char, nat)>): string {
    if parts == [] then "" else [parts[0].0] + (Pad(parts[0].1, 2) + WriteParts(parts[1..]))
  }

  /** The numbers in the next `n` parts, and what follows them. */
  function ReadParts(t: string, n: nat): (r: (seq<Option<nat>>, string))
    requires |t| >= 3 * n
    ensures |r.0| == n && |r.1| == |t| - 3 * n
  {
    if n == 0 then ([], t)
    else
      var (rest, after) := ReadParts(t[3..], n - 1);
      ([DigitsValue(t[1..3])] + rest, after)
  }

  /** Reading a timestamp: the last twenty characters are fixed, the year takes the rest. */
  function ReadInstant(t: string): Option<(nat, nat)> {
    if |t| <= 20 then None
    else
      var (p, last) := ReadParts(t[|t| - 20..], 5);
      var year, millis := DigitsValue(t[..|t| - 20]), DigitsValue(last[1..4]);
      if year.None? || millis.None? || exists i :: 0 <= i < 5 && p[i].None? then None
      else
        var date := Date(year.value, p[0].value, p[1].value);
        if !IsDate(date) || date.year < 1970 || DayNumber(date) < 0 then None
        else Some((86400 * DayNumber(date) + 3600 * p[2].value + 60 * p[3].value + p[4].value, millis.value))
  }

  ghost predicate ReadsBack(parts: seq<(char, nat)>, read: seq<Option<nat>>) {
    |read| == |parts| && forall i :: 0 <= i < |parts| ==> read[i] == Some(parts[i].1)
  }

  lemma {:induction false} PartsRead(parts: seq<(char, nat)>, rest: string)
    requires forall i :: 0 <= i < |parts| ==> parts[i].1 < 100
    ensures |WriteParts(parts)| == 3 * |parts|
    ensures ReadParts(WriteParts(parts) + rest, |parts|).1 == rest && ReadsBack(parts, ReadParts(WriteParts(parts) + rest, |parts|).0)
    decreases |parts|
  {
    if parts == [] {
      assert WriteParts(parts) + rest == rest;
    } else {
      var first, more := Pad(parts[0].1, 2), WriteParts(parts[1..]);
      PadExact(parts[0].1);
      PadValue(parts[0].1, 2);
      hide Pad, DigitsValue;
      PartsRead(parts[1..], rest);
      assert WriteParts(parts) + rest == [parts[0].0] + (first + (more + rest));
      assert ([parts[0].0] + (first + (more + rest)))[1..3] == first && ([parts[0].0] + (first + (more + rest)))[3..] == more + rest;
    }
  }

  /** The text of a timestamp determines the instant, to the millisecond, for every time from 1970 on. */
  lemma IsoRoundTrip(totalSecs: nat, millis: nat)
    requires millis < 1000
    ensures ReadInstant(FormatUtcIso(totalSecs, millis)) == Some((totalSecs, millis))
  {
    hide CivilFromDays, DayNumber, Pad, DigitsValue, WriteParts, ReadParts;
    var days, s := totalSecs / 86400, totalSecs % 86400;
    var date := CivilFromDays(days);
    DayRoundTrip(days);
    ClockParts(totalSecs);
    PadValue(date.year, 4);
    PadValue(millis, 3);
    PadExact(millis);
    var parts := [('-', date.month), ('-', date.day), ('T', s / 3600), (':', s % 3600 / 60), (':', s % 60)];
    var year, last := Pad(date.year, 4), "." + (Pad(millis, 3) + "Z");
    PartsRead(parts, last);
    var tail, t := WriteParts(parts) + last, FormatUtcIso(totalSecs, millis);
    assert t == year + tail && t[..|t| - 20] == year && t[|t| - 20..] == tail;
    assert last[1..4] == Pad(millis, 3);
  }

  ghost predicate IsDigit(c: char) {
    '0' <= c <= '9'
  }

  lemma PadDigits(n: nat, width: nat)
    ensures forall i :: 0 <= i < |Pad(n, width)| ==> IsDigit(Pad(n, width)[i])
  {
  }

  /** Every part is its separator and two digits. */
  ghost predicate PartAt(parts: seq<(char, nat)>, t: string, i: nat)
    requires i < |parts|
  {
    3 * i + 2 < |t| && t[3 * i] == parts[i].0 && IsDigit(t[3 * i + 1]) && IsDigit(t[3 * i + 2])
  }

  lemma {:induction false} PartsShape(parts: seq<(char, nat)>, i: nat)
    requires i < |parts| && forall k :: 0 <= k < |parts| ==> parts[k].1 < 100
    ensures PartAt(parts, WriteParts(parts), i)
    decreases i
  {
    var first, more := Pad(parts[0].1, 2), WriteParts(parts[1..]);
    PadExact(parts[0].1);
    PadDigits(parts[0].1, 2);
    hide Pad;
    assert WriteParts(parts) == [parts[0].0] + (first + more);
    assert WriteParts(parts)[3..] == more;
    if i > 0 {
      PartsShape(parts[1..], i - 1);
      assert PartAt(parts[1..], more, i - 1);
    }
  }

  /** A timestamp ends in `-mm-ddThh:mm:ss.mmmZ`, where letters stand for digits but `T` and `Z`; what is before is the year in
      digits. */
  lemma IsoShape(totalSecs: nat, millis: nat)
    requires millis < 1000
    ensures var t := FormatUtcIso(totalSecs, millis); var n := |t| - 20;
      && n >= 4
      && t[n] == '-' && t[n + 3] == '-' && t[n + 6] == 'T' && t[n + 9] == ':' && t[n + 12] == ':' && t[n + 15] == '.' && t[n + 19] == 'Z'
      && forall i :: 0 <= i < |t| && i !in {n, n + 3, n + 6, n + 9, n + 12, n + 15, n + 19} ==> IsDigit(t[i])
  {
    hide CivilFromDays, DayNumber, Pad, WriteParts, PartAt;
    var days, s := totalSecs / 86400, totalSecs % 86400;
    var date := CivilFromDays(days);
    DayRoundTrip(days);
    ClockParts(totalSecs);
    PadExact(millis);
    PadDigits(millis, 3);
    PadDigits(date.year, 4);
    var parts := [('-', date.month), ('-', date.day), ('T', s / 3600), (':', s % 3600 / 60), (':', s % 60)];
    var year, last := Pad(date.year, 4), "." + (Pad(millis, 3) + "Z");
    PartsRead(parts, last);
    PartsShape(parts, 0);
    PartsShape(parts, 1);
    PartsShape(parts, 2);
    PartsShape(parts, 3);
    PartsShape(parts, 4);
    TailShape(parts, WriteParts(parts), Pad(millis, 3));
    var tail, t := WriteParts(parts) + last, FormatUtcIso(totalSecs, millis);
    assert t == year + tail;
    TextShape(year, tail);
  }

  /** The places of the separators in the last twenty characters. */
  ghost predicate TailOk(tail: string) {
    && |tail| == 20
    && tail[0] == '-' && tail[3] == '-' && tail[6] == 'T' && tail[9] == ':' && tail[12] == ':' && tail[15] == '.' && tail[19] == 'Z'
    && forall i :: 0 <= i < 20 && i !in {0, 3, 6, 9, 12, 15, 19} ==> IsDigit(tail[i])
  }

  lemma TailShape(parts: seq<(char, nat)>, written: string, millis: string)
    requires |parts| == 5 && parts[0].0 == '-' && parts[1].0 == '-' && parts[2].0 == 'T' && parts[3].0 == ':' && parts[4].0 == ':'
    requires |written| == 15 && forall i :: 0 <= i < 5 ==> PartAt(parts, written, i)
    requires |millis| == 3 && forall i :: 0 <= i < 3 ==> IsDigit(millis[i])
    ensures TailOk(written + ("." + (millis + "Z")))
  {
    assert PartAt(parts, written, 0) && PartAt(parts, written, 1) && PartAt(parts, written, 2) && PartAt(parts, written, 3) && PartAt(parts, written, 4);
  }

  lemma TextShape(year: string, tail: string)
    requires TailOk(tail) && |year| >= 4 && forall i :: 0 <= i < |year| ==> IsDigit(year[i])
    ensures var t, n := year + tail, |year|;
      && t[n] == '-' && t[n + 3] == '-' && t[n + 6] == 'T' && t[n + 9] == ':' && t[n + 12] == ':' && t[n + 15] == '.' && t[n + 19] == 'Z'
      && forall i :: 0 <= i < |t| && i !in {n, n + 3, n + 6, n + 9, n + 12, n + 15, n + 19} ==> IsDigit(t[i])
  {
    var t, n := year + tail, |year|;
    forall i | 0 <= i < |t| && i !in {n, n + 3, n + 6, n + 9, n + 12, n + 15, n + 19}
      ensures IsDigit(t[i])
    {
      if i >= n {
        assert t[i] == tail[i - n] && i - n !in {0, 3, 6, 9, 12, 15, 19};
      }
    }
  }
}
