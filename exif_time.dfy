/** EXIF capture timestamps as `create_mpo_gui.py` reads them: the tag value is
    `DateTimeDigitized`, or `DateTimeOriginal` when the first is missing or
    empty, parsed with the format "%Y:%m:%d %H:%M:%S". A parsed timestamp is
    counted in seconds since 0001-01-01 00:00:00 (Python's `datetime.min`), so
    differences of these numbers are `(ts2 - ts1).total_seconds()`. */
module ExifTime {
  import opened Common

  datatype DateTime = DateTime(year: int, month: int, day: int, hour: int, minute: int, second: int)

  predicate IsLeap(y: int) {
    y % 4 == 0 && (y % 100 != 0 || y % 400 == 0)
  }

  function DaysInYear(y: int): int {
    if IsLeap(y) then 366 else 365
  }

  function DaysInMonth(y: int, m: int): int {
    if m == 2 then (if IsLeap(y) then 29 else 28)
    else if m == 4 || m == 6 || m == 9 || m == 11 then 30
    else 31
  }

  /** The ranges `datetime` accepts; anything else makes `strptime` raise `ValueError`. */
  predicate Valid(dt: DateTime) {
    && 1 <= dt.year <= 9999
    && 1 <= dt.month <= 12
    && 1 <= dt.day <= DaysInMonth(dt.year, dt.month)
    && 0 <= dt.hour < 24
    && 0 <= dt.minute < 60
    && 0 <= dt.second < 60
  }

  /** Days from 0001-01-01 to January 1st of year `y`. */
  function DaysBeforeYear(y: int): nat
    requires y >= 1
  {
    if y == 1 then 0 else DaysBeforeYear(y - 1) + DaysInYear(y - 1)
  }

  /** Days from January 1st to the first day of month `m` of year `y`. */
  function DaysBeforeMonth(y: int, m: int): nat
    requires 1 <= m <= 13
  {
    if m == 1 then 0 else DaysBeforeMonth(y, m - 1) + DaysInMonth(y, m - 1)
  }

  function SecondsOfDay(dt: DateTime): int {
    dt.hour * 3600 + dt.minute * 60 + dt.second
  }

  /** Days from `datetime.min` to the reading's day. */
  function DayNumber(dt: DateTime): int
    requires Valid(dt)
  {
    DaysBeforeYear(dt.year) + DaysBeforeMonth(dt.year, dt.month) + dt.day - 1
  }

  /** Seconds since `datetime.min`. */
  function ToSeconds(dt: DateTime): int
    requires Valid(dt)
  {
    DayNumber(dt) * 86400 + SecondsOfDay(dt)
  }

  /** Chronological order of two calendar readings, field by field. */
  predicate Before(a: DateTime, b: DateTime) {
    || a.year < b.year
    || (a.year == b.year && a.month < b.month)
    || (a.year == b.year && a.month == b.month && a.day < b.day)
    || (a.year == b.year && a.month == b.month && a.day == b.day && SecondsOfDay(a) < SecondsOfDay(b))
  }

  lemma {:induction false} DaysBeforeYearMonotone(y1: int, y2: int)
    requires 1 <= y1 <= y2
    ensures DaysBeforeYear(y1) <= DaysBeforeYear(y2)
    decreases y2 - y1
  {
    if y1 < y2 {
      DaysBeforeYearMonotone(y1, y2 - 1);
    }
  }

  lemma {:induction false} DaysBeforeMonthMonotone(y: int, m1: int, m2: int)
    requires 1 <= m1 <= m2 <= 13
    ensures DaysBeforeMonth(y, m1) <= DaysBeforeMonth(y, m2)
    decreases m2 - m1
  {
    if m1 < m2 {
      DaysBeforeMonthMonotone(y, m1, m2 - 1);
    }
  }

  lemma DaysBeforeMonthWholeYear(y: int)
    ensures DaysBeforeMonth(y, 13) == DaysInYear(y)
  {
    assert DaysBeforeMonth(y, 2) == 31;
    assert DaysBeforeMonth(y, 3) == 31 + DaysInMonth(y, 2);
    assert DaysBeforeMonth(y, 4) == DaysBeforeMonth(y, 3) + 31;
    assert DaysBeforeMonth(y, 5) == DaysBeforeMonth(y, 4) + 30;
    assert DaysBeforeMonth(y, 6) == DaysBeforeMonth(y, 5) + 31;
    assert DaysBeforeMonth(y, 7) == DaysBeforeMonth(y, 6) + 30;
    assert DaysBeforeMonth(y, 8) == DaysBeforeMonth(y, 7) + 31;
    assert DaysBeforeMonth(y, 9) == DaysBeforeMonth(y, 8) + 31;
    assert DaysBeforeMonth(y, 10) == DaysBeforeMonth(y, 9) + 30;
    assert DaysBeforeMonth(y, 11) == DaysBeforeMonth(y, 10) + 31;
    assert DaysBeforeMonth(y, 12) == DaysBeforeMonth(y, 11) + 30;
    assert DaysBeforeMonth(y, 13) == DaysBeforeMonth(y, 12) + 31;
  }

  /** Counting seconds preserves chronological order, so sorting by `ToSeconds`
      sorts by calendar reading. */
  lemma ToSecondsMonotone(a: DateTime, b: DateTime)
    requires Valid(a) && Valid(b) && Before(a, b)
    ensures ToSeconds(a) < ToSeconds(b)
  {
    if a.year < b.year {
      LaterYear(a, b);
      EarlierDay(DayNumber(a), DayNumber(b), SecondsOfDay(a), SecondsOfDay(b));
    } else if a.month < b.month {
      LaterMonth(a, b);
      EarlierDay(DayNumber(a), DayNumber(b), SecondsOfDay(a), SecondsOfDay(b));
    } else if a.day < b.day {
      EarlierDay(DayNumber(a), DayNumber(b), SecondsOfDay(a), SecondsOfDay(b));
    }
  }

  lemma LaterYear(a: DateTime, b: DateTime)
    requires Valid(a) && Valid(b) && a.year < b.year
    ensures DayNumber(a) < DayNumber(b)
  {
    DaysBeforeMonthMonotone(a.year, a.month + 1, 13);
    DaysBeforeMonthWholeYear(a.year);
    DaysBeforeYearMonotone(a.year + 1, b.year);
    assert DaysBeforeMonth(a.year, a.month + 1) == DaysBeforeMonth(a.year, a.month) + DaysInMonth(a.year, a.month);
    assert DaysBeforeYear(a.year + 1) == DaysBeforeYear(a.year) + DaysInYear(a.year);
  }

  lemma LaterMonth(a: DateTime, b: DateTime)
    requires Valid(a) && Valid(b) && a.year == b.year && a.month < b.month
    ensures DayNumber(a) < DayNumber(b)
  {
    DaysBeforeMonthMonotone(a.year, a.month + 1, b.month);
    assert DaysBeforeMonth(a.year, a.month + 1) == DaysBeforeMonth(a.year, a.month) + DaysInMonth(a.year, a.month);
  }

  /** Any moment of an earlier day comes before every moment of a later one. */
  lemma EarlierDay(dayA: int, dayB: int, secA: int, secB: int)
    requires dayA < dayB && 0 <= secA < 86400 && 0 <= secB
    ensures dayA * 86400 + secA < dayB * 86400 + secB
  {
    assert dayB * 86400 == dayA * 86400 + (dayB - dayA) * 86400;
    assert (dayB - dayA) * 86400 >= 86400;
  }

  /** Two valid readings have the same number of seconds only if they are equal. */
  lemma ToSecondsInjective(a: DateTime, b: DateTime)
    requires Valid(a) && Valid(b) && ToSeconds(a) == ToSeconds(b)
    ensures a == b
  {
    if Before(a, b) {
      ToSecondsMonotone(a, b);
    } else if Before(b, a) {
      ToSecondsMonotone(b, a);
    } else {
      assert a.hour == b.hour && a.minute == b.minute && a.second == b.second by {
        SecondsOfDayInjective(a, b);
      }
    }
  }

  lemma SecondsOfDayInjective(a: DateTime, b: DateTime)
    requires 0 <= a.hour < 24 && 0 <= a.minute < 60 && 0 <= a.second < 60
    requires 0 <= b.hour < 24 && 0 <= b.minute < 60 && 0 <= b.second < 60
    requires SecondsOfDay(a) == SecondsOfDay(b)
    ensures a.hour == b.hour && a.minute == b.minute && a.second == b.second
  {
  }

  predicate IsDigit(c: char) {
    '0' <= c <= '9'
  }

  /** The value of a string of decimal digits. */
  function DigitsValue(s: string): nat
    requires forall i :: 0 <= i < |s| ==> IsDigit(s[i])
  {
    if s == [] then 0
    else
      assert IsDigit(s[|s| - 1]);
      DigitsValue(s[..|s| - 1]) * 10 + (s[|s| - 1] as int - '0' as int)
  }

  function DigitChar(d: int): char
    requires 0 <= d < 10
  {
    ('0' as int + d) as char
  }

  /** `n` written with exactly `width` digits, zero padded as `%m`, `%Y` write it. */
  function Padded(n: nat, width: nat): (r: string)
    ensures |r| == width
    ensures forall i :: 0 <= i < |r| ==> IsDigit(r[i])
  {
    if width == 0 then [] else Padded(n / 10, width - 1) + [DigitChar(n % 10)]
  }

  /** A helper for `PaddedValue`: the place value of a digit. */
  function Pow10(k: nat): (r: nat)
    ensures r >= 1
  {
    if k == 0 then 1 else 10 * Pow10(k - 1)
  }

  /** Reading back a number written with enough digits gives the number. */
  lemma {:induction false} PaddedValue(n: nat, width: nat)
    requires n < Pow10(width)
    ensures DigitsValue(Padded(n, width)) == n
  {
    if width > 0 {
      var p := Padded(n, width);
      assert p[..|p| - 1] == Padded(n / 10, width - 1);
      assert p[|p| - 1] as int - '0' as int == n % 10;
      PaddedValue(n / 10, width - 1);
    }
  }

  /** A reading written in the format "%Y:%m:%d %H:%M:%S", every field zero padded
      to its width: the strings `Parse` accepts are exactly these. */
  function Format(dt: DateTime): (r: string)
    requires Valid(dt)
    ensures |r| == 19
  {
    Padded(dt.year, 4) + ":" + Padded(dt.month, 2) + ":" + Padded(dt.day, 2) + " "
      + Padded(dt.hour, 2) + ":" + Padded(dt.minute, 2) + ":" + Padded(dt.second, 2)
  }

  predicate FieldDigits(s: string, lo: nat, hi: nat)
    requires lo <= hi <= |s|
  {
    forall i :: lo <= i < hi ==> IsDigit(s[i])
  }

  /** `datetime.strptime(s, "%Y:%m:%d %H:%M:%S")`: None where it raises `ValueError`. */
  function Parse(s: string): (r: Option<DateTime>)
    ensures r.Some? ==> Valid(r.value) && Format(r.value) == s
  {
    if |s| == 19 && s[4] == ':' && s[7] == ':' && s[10] == ' ' && s[13] == ':' && s[16] == ':'
      && FieldDigits(s, 0, 4) && FieldDigits(s, 5, 7) && FieldDigits(s, 8, 10)
      && FieldDigits(s, 11, 13) && FieldDigits(s, 14, 16) && FieldDigits(s, 17, 19)
    then
      var dt := DateTime(DigitsValue(s[0..4]), DigitsValue(s[5..7]), DigitsValue(s[8..10]),
                         DigitsValue(s[11..13]), DigitsValue(s[14..16]), DigitsValue(s[17..19]));
      if Valid(dt) then
        FormatParsed(s, dt);
        Some(dt)
      else None
    else None
  }

  lemma FormatParsed(s: string, dt: DateTime)
    requires |s| == 19 && s[4] == ':' && s[7] == ':' && s[10] == ' ' && s[13] == ':' && s[16] == ':'
    requires FieldDigits(s, 0, 4) && FieldDigits(s, 5, 7) && FieldDigits(s, 8, 10)
    requires FieldDigits(s, 11, 13) && FieldDigits(s, 14, 16) && FieldDigits(s, 17, 19)
    requires dt == DateTime(DigitsValue(s[0..4]), DigitsValue(s[5..7]), DigitsValue(s[8..10]),
                            DigitsValue(s[11..13]), DigitsValue(s[14..16]), DigitsValue(s[17..19]))
    requires Valid(dt)
    ensures Format(dt) == s
  {
    FieldRoundTrip(s, 0, 4);
    FieldRoundTrip(s, 5, 7);
    FieldRoundTrip(s, 8, 10);
    FieldRoundTrip(s, 11, 13);
    FieldRoundTrip(s, 14, 16);
    FieldRoundTrip(s, 17, 19);
    FormatOfFields(dt, s[0..4], s[5..7], s[8..10], s[11..13], s[14..16], s[17..19]);
    FieldsJoin(s);
  }

  lemma FormatOfFields(dt: DateTime, a: string, b: string, c: string, d: string, e: string, f: string)
    requires Valid(dt)
    requires Padded(dt.year, 4) == a && Padded(dt.month, 2) == b && Padded(dt.day, 2) == c
    requires Padded(dt.hour, 2) == d && Padded(dt.minute, 2) == e && Padded(dt.second, 2) == f
    ensures Format(dt) == a + ":" + b + ":" + c + " " + d + ":" + e + ":" + f
  {
  }

  /** A digit field written back with its own width is the field. */
  lemma FieldRoundTrip(s: string, lo: nat, hi: nat)
    requires lo <= hi <= |s| && FieldDigits(s, lo, hi)
    ensures Padded(DigitsValue(s[lo..hi]), hi - lo) == s[lo..hi]
  {
    DigitField(s, lo, hi);
    PaddedOfDigits(s[lo..hi]);
  }

  /** A timestamp string is its six fields with their separators between. */
  lemma FieldsJoin(s: string)
    requires |s| == 19 && s[4] == ':' && s[7] == ':' && s[10] == ' ' && s[13] == ':' && s[16] == ':'
    ensures s[0..4] + ":" + s[5..7] + ":" + s[8..10] + " " + s[11..13] + ":" + s[14..16] + ":" + s[17..19] == s
  {
    assert s[4..5] == ":" && s[7..8] == ":" && s[10..11] == " " && s[13..14] == ":" && s[16..17] == ":";
    SliceJoin(s, 4, 5);
    SliceJoin(s, 5, 7);
    SliceJoin(s, 7, 8);
    SliceJoin(s, 8, 10);
    SliceJoin(s, 10, 11);
    SliceJoin(s, 11, 13);
    SliceJoin(s, 13, 14);
    SliceJoin(s, 14, 16);
    SliceJoin(s, 16, 17);
    SliceJoin(s, 17, 19);
    assert s[0..19] == s;
  }

  /** A helper for `FieldsJoin`: two adjacent slices join into one; stated
      once so the join proof stays small. */
  lemma SliceJoin(s: string, b: nat, c: nat)
    requires b <= c <= |s|
    ensures s[0..b] + s[b..c] == s[0..c]
  {
  }

  /** The fields of a timestamp string sit at fixed positions. */
  lemma FieldsSplit(a: string, b: string, c: string, d: string, e: string, f: string)
    requires |a| == 4 && |b| == 2 && |c| == 2 && |d| == 2 && |e| == 2 && |f| == 2
    ensures var s := a + ":" + b + ":" + c + " " + d + ":" + e + ":" + f;
      && |s| == 19 && s[4] == ':' && s[7] == ':' && s[10] == ' ' && s[13] == ':' && s[16] == ':'
      && s[0..4] == a && s[5..7] == b && s[8..10] == c && s[11..13] == d && s[14..16] == e && s[17..19] == f
  {
    var s := a + ":" + b + ":" + c + " " + d + ":" + e + ":" + f;
    assert forall i :: 0 <= i < 4 ==> s[0..4][i] == a[i];
    assert forall i :: 0 <= i < 2 ==> s[5..7][i] == b[i] && s[8..10][i] == c[i] && s[11..13][i] == d[i];
    assert forall i :: 0 <= i < 2 ==> s[14..16][i] == e[i] && s[17..19][i] == f[i];
  }

  /** The digit check of `Parse` on a field is the check on its characters. */
  lemma DigitField(s: string, lo: nat, hi: nat)
    requires lo <= hi <= |s|
    ensures FieldDigits(s, lo, hi) <==> forall i :: 0 <= i < hi - lo ==> IsDigit(s[lo..hi][i])
  {
    if forall i :: 0 <= i < hi - lo ==> IsDigit(s[lo..hi][i]) {
      forall i | lo <= i < hi ensures IsDigit(s[i]) {
        assert s[i] == s[lo..hi][i - lo];
      }
    }
  }

  /** Writing back the value of a digit string with its own width gives the string. */
  lemma {:induction false} PaddedOfDigits(s: string)
    requires forall i :: 0 <= i < |s| ==> IsDigit(s[i])
    ensures Padded(DigitsValue(s), |s|) == s
  {
    if s != [] {
      var init := s[..|s| - 1];
      var d := s[|s| - 1] as int - '0' as int;
      var v := DigitsValue(s);
      assert v / 10 == DigitsValue(init) && v % 10 == d;
      PaddedOfDigits(init);
      assert s == init + [s[|s| - 1]];
    }
  }

  /** Reading back what `Format` wrote gives the same date and time. */
  lemma ParseFormat(dt: DateTime)
    requires Valid(dt)
    ensures Parse(Format(dt)) == Some(dt)
  {
    var s := Format(dt);
    FieldsSplit(Padded(dt.year, 4), Padded(dt.month, 2), Padded(dt.day, 2),
                Padded(dt.hour, 2), Padded(dt.minute, 2), Padded(dt.second, 2));
    DigitField(s, 0, 4);
    DigitField(s, 5, 7);
    DigitField(s, 8, 10);
    DigitField(s, 11, 13);
    DigitField(s, 14, 16);
    DigitField(s, 17, 19);
    assert Pow10(2) == 100 && Pow10(4) == 10000;
    PaddedValue(dt.year, 4);
    PaddedValue(dt.month, 2);
    PaddedValue(dt.day, 2);
    PaddedValue(dt.hour, 2);
    PaddedValue(dt.minute, 2);
    PaddedValue(dt.second, 2);
  }

  /** `tags.get('EXIF:DateTimeDigitized') or tags.get('EXIF:DateTimeOriginal')`:
      Python's `or` falls through a missing tag and an empty string alike. */
  function TimestampTag(digitized: Option<string>, original: Option<string>): (r: Option<string>)
    ensures digitized.Some? && digitized.value != "" ==> r == digitized
    ensures (digitized.None? || digitized.value == "") ==> r == original
  {
    if digitized.Some? && digitized.value != "" then digitized else original
  }

  /** What `exiftool` returned for one file: nothing (the read raised) or the two tags. */
  datatype ExifRead = Unreadable | Tags(digitized: Option<string>, original: Option<string>)

  /** The timestamp `find_image_pairs` gives a file, or None when the file is left
      out of pairing (unreadable EXIF, neither tag, an empty value, a value that
      does not parse). */
  function CaptureSeconds(read: ExifRead): (r: Option<int>)
    ensures r.Some? <==> read.Tags? && TimestampTag(read.digitized, read.original).Some?
                           && Parse(TimestampTag(read.digitized, read.original).value).Some?
    ensures r.Some? ==> r.value >= 0
  {
    match read
    case Unreadable => None
    case Tags(d, o) =>
      match TimestampTag(d, o)
      case None => None
      case Some(str) =>
        if str == "" then None
        else match Parse(str)
          case None => None
          case Some(dt) => Some(ToSeconds(dt))
  }
}
