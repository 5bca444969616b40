/**
 * Integer calendar arithmetic behind `pd.to_datetime(..., unit="s")` followed by
 * `strftime("%Y%m%d")` and `strftime("%H%M%S")`: seconds counted from
 * 1970-01-01 00:00:00 in the proleptic Gregorian calendar, with no time zone
 * database (the +9 hour shift is applied by the caller).
 */
module Calendar {
  import opened Wrappers

  const SecondsPerDay := 86400

  /** Whole seconds a 64-bit count of nanoseconds can hold (pandas' datetime64[ns]). */
  const MaxTimestampSeconds := 9223372036

  datatype Date = Date(year: int, month: int, day: int)

  datatype TimeOfDay = TimeOfDay(hour: int, minute: int, second: int)

  predicate IsLeapYear(y: int) {
    y % 4 == 0 && (y % 100 != 0 || y % 400 == 0)
  }

  function DaysInMonth(y: int, m: int): (n: int)
    requires 1 <= m <= 12
    ensures 28 <= n <= 31
    ensures n == 29 <==> m == 2 && IsLeapYear(y)
  {
    if m == 2 then (if IsLeapYear(y) then 29 else 28)
    else if m == 4 || m == 6 || m == 9 || m == 11 then 30
    else 31
  }

  predicate ValidDate(d: Date) {
    1 <= d.month <= 12 && 1 <= d.day <= DaysInMonth(d.year, d.month)
  }

  predicate ValidTime(t: TimeOfDay) {
    0 <= t.hour < 24 && 0 <= t.minute < 60 && 0 <= t.second < 60
  }

  /** First day of month `mp` in a year that starts on 1 March (mp = 0 is March). */
  function MarchMonthStart(mp: int): int
    requires 0 <= mp < 12
  {
    (153 * mp + 2) / 5
  }

  /** The number of days from 1970-01-01 to `d`, negative before it. */
  function DaysFromCivil(d: Date): int
    requires ValidDate(d)
  {
    var y := if d.month <= 2 then d.year - 1 else d.year;
    var era := y / 400;
    var yoe := y - era * 400;
    var mp := if d.month > 2 then d.month - 3 else d.month + 9;
    var doy := MarchMonthStart(mp) + d.day - 1;
    var doe := yoe * 365 + yoe / 4 - yoe / 100 + doy;
    era * 146097 + doe - 719468
  }

  /**
   * Splits a day of a March-based year (0 .. 365) into month and day. The last
   * month is February, so day 365 can only be a 29 February.
   */
  function MarchDayToMonthDay(doy: int): (md: (int, int))
    requires 0 <= doy <= 365
    ensures 0 <= md.0 < 12 && 1 <= md.1
    ensures MarchMonthStart(md.0) + md.1 - 1 == doy
    ensures md.0 < 11 ==> md.1 <= DaysInMonth(1, if md.0 < 10 then md.0 + 3 else md.0 - 9)
    ensures md.0 == 11 ==> md.1 <= 28 || doy == 365
  {
    var mp := (5 * doy + 2) / 153;
    (mp, doy - MarchMonthStart(mp) + 1)
  }

  /**
   * Splits a day of a 400-year era of March-based years (0 .. 146096) into the
   * year of the era and the day of that year. The era is cut into centuries
   * (36524 days, the last one 36525), each century into 4-year cycles (1461
   * days, the last one of a century 1460 unless the century ends the era) and
   * each cycle into years (365 days, the last one 366).
   */
  function YearOfEra(doe: int): (r: (int, int))
    requires 0 <= doe < 146097
    ensures 0 <= r.0 < 400 && 0 <= r.1 <= 365
    ensures 365 * r.0 + r.0 / 4 - r.0 / 100 + r.1 == doe
    ensures r.1 == 365 ==> (r.0 + 1) % 4 == 0 && ((r.0 + 1) % 100 != 0 || r.0 == 399)
  {
    var c := if doe / 36524 < 3 then doe / 36524 else 3;
    var doc := doe - 36524 * c;
    assert 0 <= doc <= 36524 && (c < 3 ==> doc <= 36523);
    var q := doc / 1461;
    var doq := doc - 1461 * q;
    assert 0 <= q <= 24 && 0 <= doq <= 1460 && (q == 24 && c < 3 ==> doq <= 1459);
    var yr := if doq / 365 < 3 then doq / 365 else 3;
    var doy := doq - 365 * yr;
    var yoe := 100 * c + 4 * q + yr;
    assert yoe / 4 == 25 * c + q;
    assert yoe / 100 == c;
    assert doy == 365 ==> yr == 3 && (q < 24 || c == 3);
    assert doy == 365 ==> yoe + 1 == 100 * c + 4 * (q + 1);
    (yoe, doy)
  }

  /**
   * The civil date of day `n` counted from 1970-01-01 (day 0 of era 5 of
   * March-based years is 0000-03-01, 719468 days before 1970-01-01).
   */
  function CivilFromDays(n: int): (d: Date)
    ensures ValidDate(d)
    ensures DaysFromCivil(d) == n
  {
    var z := n + 719468;
    var era := z / 146097;
    var yd := YearOfEra(z % 146097);
    var md := MarchDayToMonthDay(yd.1);
    var month := if md.0 < 10 then md.0 + 3 else md.0 - 9;
    var d := Date(era * 400 + yd.0 + (if month <= 2 then 1 else 0), month, md.1);
    assert ValidDate(d) by {
      if md.0 == 11 && md.1 == 29 {
        LeapDayYear(era, yd.0);
      }
    }
    DaysFromCivilParts(d, era, yd.0, md.0);
    d
  }

  /** `DaysFromCivil` read off the era, the year of the era and the March-based month of a date. */
  lemma DaysFromCivilParts(d: Date, era: int, yoe: int, mp: int)
    requires ValidDate(d) && 0 <= yoe < 400 && 0 <= mp < 12
    requires (if d.month <= 2 then d.year - 1 else d.year) == era * 400 + yoe
    requires (if d.month > 2 then d.month - 3 else d.month + 9) == mp
    ensures DaysFromCivil(d) == era * 146097 + (365 * yoe + yoe / 4 - yoe / 100 + MarchMonthStart(mp) + d.day - 1) - 719468
  {
    EraOfYear(era, yoe);
  }

  /** The calendar year that ends March-based year `yoe` of an era holds a 29 February. */
  lemma LeapDayYear(era: int, yoe: int)
    requires 0 <= yoe < 400
    requires (yoe + 1) % 4 == 0 && ((yoe + 1) % 100 != 0 || yoe == 399)
    ensures IsLeapYear(era * 400 + yoe + 1)
  {
    var y := era * 400 + yoe + 1;
    if yoe == 399 {
      RemainderOf(y, 4, (era + 1) * 100, 0);
      RemainderOf(y, 400, era + 1, 0);
    } else {
      RemainderOf(y, 4, era * 100 + (yoe + 1) / 4, 0);
      RemainderOf(y, 100, era * 4 + (yoe + 1) / 100, (yoe + 1) % 100);
    }
  }

  /** Writing `y` as `q` times `d` plus a remainder below `d` fixes `y % d`. */
  lemma RemainderOf(y: int, d: int, q: int, r: int)
    requires d == 4 || d == 100 || d == 400
    requires y == d * q + r && 0 <= r < d
    ensures y % d == r
  {
  }

  lemma EraOfYear(era: int, yoe: int)
    requires 0 <= yoe < 400
    ensures (era * 400 + yoe) / 400 == era
  {
  }

  /** Instants a pandas timestamp can represent, in whole seconds. */
  predicate InTimestampRange(t: int) {
    -MaxTimestampSeconds <= t <= MaxTimestampSeconds
  }

  function DateOf(t: int): Date {
    CivilFromDays(t / SecondsPerDay)
  }

  function TimeOf(t: int): (tod: TimeOfDay)
    ensures ValidTime(tod)
    ensures (t / SecondsPerDay) * SecondsPerDay + SecondOfDay(tod) == t
  {
    var s := t % SecondsPerDay;
    TimeOfDay(s / 3600, s % 3600 / 60, s % 60)
  }

  function SecondOfDay(tod: TimeOfDay): int {
    tod.hour * 3600 + tod.minute * 60 + tod.second
  }

  /** The year of every representable timestamp has four digits. */
  lemma {:induction false} YearOfTimestamp(t: int)
    requires InTimestampRange(t)
    ensures 1600 <= DateOf(t).year <= 2400
  {
    var z := t / SecondsPerDay + 719468;
    assert 612716 <= z <= 826219;
    assert 4 <= z / 146097 <= 5;
  }

  function Pow10(w: nat): (p: nat)
    ensures p >= 1
  {
    if w == 0 then 1 else 10 * Pow10(w - 1)
  }

  /** The last `width` decimal digits of `n`, zero-padded, as `strftime` writes a field. */
  function Digits(n: nat, width: nat): (s: string)
    ensures |s| == width
    ensures forall i :: 0 <= i < width ==> '0' <= s[i] <= '9'
  {
    if width == 0 then "" else Digits(n / 10, width - 1) + [DigitChar(n % 10)]
  }

  /** The decimal digit for `k`. */
  function DigitChar(k: nat): (c: char)
    requires k < 10
    ensures '0' <= c <= '9'
  {
    ('0' as int + k) as char
  }

  function DigitValue(c: char): nat {
    if '0' <= c <= '9' then (c as int) - ('0' as int) else 0
  }

  /** Reads a string of decimal digits back as a number. */
  function ParseDigits(s: string): nat {
    if s == [] then 0 else 10 * ParseDigits(s[..|s| - 1]) + DigitValue(s[|s| - 1])
  }

  lemma {:induction false} ParseDigitsOfDigits(n: nat, width: nat)
    requires n < Pow10(width)
    ensures ParseDigits(Digits(n, width)) == n
  {
    if width > 0 {
      var s := Digits(n, width);
      assert s[..width - 1] == Digits(n / 10, width - 1);
      assert DigitValue(s[width - 1]) == n % 10;
      ParseDigitsOfDigits(n / 10, width - 1);
    }
  }

  /** `strftime("%Y%m%d")` of the timestamp `t` seconds after 1970-01-01 00:00:00. */
  function FormatDate(t: int): (s: string)
    requires InTimestampRange(t)
    ensures |s| == 8
    ensures forall i :: 0 <= i < 8 ==> '0' <= s[i] <= '9'
  {
    YearOfTimestamp(t);
    DateDigits(DateOf(t))
  }

  function DateDigits(d: Date): (s: string)
    requires 0 <= d.year && 0 <= d.month && 0 <= d.day
  {
    Digits(d.year, 4) + Digits(d.month, 2) + Digits(d.day, 2)
  }

  /** `strftime("%H%M%S")` of the timestamp `t`. */
  function FormatTime(t: int): (s: string)
    ensures |s| == 6
    ensures forall i :: 0 <= i < 6 ==> '0' <= s[i] <= '9'
  {
    TimeDigits(TimeOf(t))
  }

  function TimeDigits(tod: TimeOfDay): (s: string)
    requires 0 <= tod.hour && 0 <= tod.minute && 0 <= tod.second
  {
    Digits(tod.hour, 2) + Digits(tod.minute, 2) + Digits(tod.second, 2)
  }

  /** The instant a `YYYYMMDD` and an `HHMMSS` string name, or None when no such date or time of day exists. */
  function ParseInstant(date: string, time: string): Option<int>
    requires |date| == 8 && |time| == 6
  {
    var d := Date(ParseDigits(date[..4]), ParseDigits(date[4..6]), ParseDigits(date[6..]));
    var tod := TimeOfDay(ParseDigits(time[..2]), ParseDigits(time[2..4]), ParseDigits(time[4..]));
    if ValidDate(d) && ValidTime(tod) then Some(DaysFromCivil(d) * SecondsPerDay + SecondOfDay(tod)) else None
  }

  /** The two rendered keys name the timestamp they were rendered from. */
  lemma FormatRoundTrip(t: int)
    requires InTimestampRange(t)
    ensures ParseInstant(FormatDate(t), FormatTime(t)) == Some(t)
  {
    YearOfTimestamp(t);
    var d, tod := DateOf(t), TimeOf(t);
    var date, time := FormatDate(t), FormatTime(t);
    assert date[..4] == Digits(d.year, 4) && date[4..6] == Digits(d.month, 2) && date[6..] == Digits(d.day, 2);
    assert time[..2] == Digits(tod.hour, 2) && time[2..4] == Digits(tod.minute, 2) && time[4..] == Digits(tod.second, 2);
    ParseDigitsOfDigits(d.year, 4);
    ParseDigitsOfDigits(d.month, 2);
    ParseDigitsOfDigits(d.day, 2);
    ParseDigitsOfDigits(tod.hour, 2);
    ParseDigitsOfDigits(tod.minute, 2);
    ParseDigitsOfDigits(tod.second, 2);
  }

  /** Two timestamps with the same date and time strings are the same to the second. */
  lemma FormatInjective(t1: int, t2: int)
    requires InTimestampRange(t1) && InTimestampRange(t2)
    requires FormatDate(t1) == FormatDate(t2) && FormatTime(t1) == FormatTime(t2)
    ensures t1 == t2
  {
    FormatRoundTrip(t1);
    FormatRoundTrip(t2);
  }

  /** 1700032400 seconds after the epoch is 2023-11-15 07:13:20. */
  lemma FormatExample()
    ensures FormatDate(1700032400) == "20231115"
    ensures FormatTime(1700032400) == "071320"
  {
    DateExample();
    DateDigitsExample(DateOf(1700032400));
    TimeExample();
    TimeDigitsExample(TimeOf(1700032400));
  }

  lemma DateExample()
    ensures DateOf(1700032400) == Date(2023, 11, 15)
  {
    assert 1700032400 / SecondsPerDay == 19676;
    assert (19676 + 719468) / 146097 == 5 && (19676 + 719468) % 146097 == 8659;
    assert YearOfEra(8659) == (23, 259);
    assert MarchDayToMonthDay(259) == (8, 15);
  }

  lemma TimeExample()
    ensures TimeOf(1700032400) == TimeOfDay(7, 13, 20)
  {
    assert 1700032400 % SecondsPerDay == 26000;
  }

  lemma DateDigitsExample(d: Date)
    requires d == Date(2023, 11, 15)
    ensures DateDigits(d) == "20231115"
  {
    YearDigitsExample(d.year);
    TwoDigitsExample(d.month, "11");
    TwoDigitsExample(d.day, "15");
    assert "2023" + "11" + "15" == "20231115";
  }

  /** The year of the example, as four digits. */
  lemma YearDigitsExample(y: nat)
    requires y == 2023
    ensures Digits(y, 4) == "2023"
  {
  }

  /** A two-digit field of the example. */
  lemma TwoDigitsExample(n: nat, s: string)
    requires n < 100 && |s| == 2
    requires s[0] == DigitChar(n / 10) && s[1] == DigitChar(n % 10)
    ensures Digits(n, 2) == s
  {
  }

  lemma TimeDigitsExample(tod: TimeOfDay)
    requires tod == TimeOfDay(7, 13, 20)
    ensures TimeDigits(tod) == "071320"
  {
  }
}
