/** Date Taken extraction and the date-to-folder mapping
    (Src/Librarian/metadata_extractor.py). */
module MetadataExtractor {
  import opened Wrappers
  import opened Digits

  /** The fields of a `datetime` the pipeline uses, to the second. */
  datatype CalendarTime = CalendarTime(year: int, month: int, day: int, hour: int, minute: int, second: int)

  predicate IsLeapYear(year: int) {
    year % 4 == 0 && (year % 100 != 0 || year % 400 == 0)
  }

  function DaysInMonth(year: int, month: int): (n: int)
    requires 1 <= month <= 12
    ensures 28 <= n <= 31
    ensures n == 29 <==> month == 2 && IsLeapYear(year)
  {
    if month == 2 then (if IsLeapYear(year) then 29 else 28)
    else if month == 4 || month == 6 || month == 9 || month == 11 then 30
    else 31
  }

  /** The values the `datetime` constructor accepts (MINYEAR 1 to MAXYEAR 9999). */
  predicate ValidCalendarTime(t: CalendarTime) {
    1 <= t.year <= 9999 && 1 <= t.month <= 12 && 1 <= t.day <= DaysInMonth(t.year, t.month) &&
    0 <= t.hour < 24 && 0 <= t.minute < 60 && 0 <= t.second < 60
  }

  /** A `datetime` object: always a valid calendar time. */
  type DateTime = t: CalendarTime | ValidCalendarTime(t) witness CalendarTime(1, 1, 1, 0, 0, 0)

  // ---------------------------------------------------------------------
  // strftime

  /** `get_date_path_components`: `(strftime("%Y"), strftime("%Y-%m-%d"))`,
      with `%Y` written zero-padded to four digits. */
  function GetDatePathComponents(dateTaken: DateTime): (r: (string, string))
    ensures |r.0| == 4 && |r.1| == 10 && r.1[..4] == r.0 && r.1[4] == '-' && r.1[7] == '-'
  {
    var year := ZeroPad(dateTaken.year, 4);
    var dateFolder := year + "-" + ZeroPad(dateTaken.month, 2) + "-" + ZeroPad(dateTaken.day, 2);
    assert dateFolder[..4] == year;
    (year, dateFolder)
  }

  /** The two components read back as the year, month and day of the input:
      `YYYY` and `YYYY-MM-DD`, all zero-padded digits. */
  lemma DatePathComponentsDecode(dateTaken: DateTime)
    ensures var (year, dateFolder) := GetDatePathComponents(dateTaken);
      AllDigits(year) && DecimalValue(year) == dateTaken.year &&
      AllDigits(dateFolder[5..7]) && DecimalValue(dateFolder[5..7]) == dateTaken.month &&
      AllDigits(dateFolder[8..10]) && DecimalValue(dateFolder[8..10]) == dateTaken.day
  {
    var (year, dateFolder) := GetDatePathComponents(dateTaken);
    ZeroPadValue(dateTaken.year, 4);
    ZeroPadValue(dateTaken.month, 2);
    ZeroPadValue(dateTaken.day, 2);
    assert dateFolder[5..7] == ZeroPad(dateTaken.month, 2);
    assert dateFolder[8..10] == ZeroPad(dateTaken.day, 2);
  }

  /** The day folder names the calendar day and nothing else: two date-times
      share a folder exactly when they fall on the same day, and then they
      share the year folder as well. */
  lemma DayFolderIdentifiesDay(a: DateTime, b: DateTime)
    ensures GetDatePathComponents(a).1 == GetDatePathComponents(b).1 <==>
      a.year == b.year && a.month == b.month && a.day == b.day
    ensures a.year == b.year && a.month == b.month && a.day == b.day ==>
      GetDatePathComponents(a) == GetDatePathComponents(b)
  {
    var fa, fb := GetDatePathComponents(a).1, GetDatePathComponents(b).1;
    DatePathComponentsDecode(a);
    DatePathComponentsDecode(b);
    if fa == fb {
      assert fa[..4] == fb[..4] && fa[5..7] == fb[5..7] && fa[8..10] == fb[8..10];
    }
  }

  /** For a four-digit year the zero-padded `%Y` is just `str(year)`, so the
      padding only matters for years below 1000. */
  lemma FourDigitYearUnpadded(year: nat)
    requires 1000 <= year <= 9999
    ensures ZeroPad(year, 4) == DecimalString(year)
  {
    assert Pow10(3) == 1000 && Pow10(4) == 10000;
    DecimalStringLength(year, 3);
    ZeroPadOfValue(DecimalString(year));
  }

  /** The year and day folders of `t`, field by field. */
  lemma DatePathFields(t: DateTime)
    ensures GetDatePathComponents(t) ==
      (ZeroPad(t.year, 4), ZeroPad(t.year, 4) + "-" + ZeroPad(t.month, 2) + "-" + ZeroPad(t.day, 2))
  {
  }

  /** Any time on Christmas Day 2025 goes to `2025/2025-12-25`. */
  lemma DatePathChristmas(t: DateTime)
    requires t.year == 2025 && t.month == 12 && t.day == 25
    ensures GetDatePathComponents(t) == ("2025", "2025-12-25")
  {
    ZeroPadFourDigits(t.year);
    ZeroPadTwoDigits(t.month);
    ZeroPadTwoDigits(t.day);
    DatePathFields(t);
    assert ZeroPad(t.year, 4) == "2025" && ZeroPad(t.month, 2) == "12" && ZeroPad(t.day, 2) == "25";
    assert "2025" + "-" + "12" + "-" + "25" == "2025-12-25";
  }

  /** Any time on New Year's Day 2020 goes to `2020/2020-01-01`. */
  lemma DatePathNewYearsDay(t: DateTime)
    requires t.year == 2020 && t.month == 1 && t.day == 1
    ensures GetDatePathComponents(t) == ("2020", "2020-01-01")
  {
    ZeroPadFourDigits(t.year);
    ZeroPadTwoDigits(t.month);
    ZeroPadTwoDigits(t.day);
    DatePathFields(t);
    assert ZeroPad(t.year, 4) == "2020" && ZeroPad(t.month, 2) == "01" && ZeroPad(t.day, 2) == "01";
    assert "2020" + "-" + "01" + "-" + "01" == "2020-01-01";
  }

  /** Any time on New Year's Eve 1999 goes to `1999/1999-12-31`. */
  lemma DatePathNewYearsEve(t: DateTime)
    requires t.year == 1999 && t.month == 12 && t.day == 31
    ensures GetDatePathComponents(t) == ("1999", "1999-12-31")
  {
    ZeroPadFourDigits(t.year);
    ZeroPadTwoDigits(t.month);
    ZeroPadTwoDigits(t.day);
    DatePathFields(t);
    assert ZeroPad(t.year, 4) == "1999" && ZeroPad(t.month, 2) == "12" && ZeroPad(t.day, 2) == "31";
    assert "1999" + "-" + "12" + "-" + "31" == "1999-12-31";
  }

  /** Any time on the leap day of 2024 goes to `2024/2024-02-29`. */
  lemma DatePathLeapDay(t: DateTime)
    requires t.year == 2024 && t.month == 2 && t.day == 29
    ensures GetDatePathComponents(t) == ("2024", "2024-02-29")
  {
    ZeroPadFourDigits(t.year);
    ZeroPadTwoDigits(t.month);
    ZeroPadTwoDigits(t.day);
    DatePathFields(t);
    assert ZeroPad(t.year, 4) == "2024" && ZeroPad(t.month, 2) == "02" && ZeroPad(t.day, 2) == "29";
    assert "2024" + "-" + "02" + "-" + "29" == "2024-02-29";
  }

  /** The folder pairs from the tests, at any time of day: 2025-12-25, New
      Year's Day, New Year's Eve, and a leap day. */
  lemma DatePathExamples(t: DateTime)
    ensures t.year == 2025 && t.month == 12 && t.day == 25 ==> GetDatePathComponents(t) == ("2025", "2025-12-25")
    ensures t.year == 2020 && t.month == 1 && t.day == 1 ==> GetDatePathComponents(t) == ("2020", "2020-01-01")
    ensures t.year == 1999 && t.month == 12 && t.day == 31 ==> GetDatePathComponents(t) == ("1999", "1999-12-31")
    ensures t.year == 2024 && t.month == 2 && t.day == 29 ==> GetDatePathComponents(t) == ("2024", "2024-02-29")
  {
    if t.year == 2025 && t.month == 12 && t.day == 25 {
      DatePathChristmas(t);
    } else if t.year == 2020 && t.month == 1 && t.day == 1 {
      DatePathNewYearsDay(t);
    } else if t.year == 1999 && t.month == 12 && t.day == 31 {
      DatePathNewYearsEve(t);
    } else if t.year == 2024 && t.month == 2 && t.day == 29 {
      DatePathLeapDay(t);
    }
  }

  // ---------------------------------------------------------------------
  // strptime with "%Y:%m:%d %H:%M:%S"

  /** The characters `\s` matches in an ASCII string: those `str.isspace()`
      accepts, which include the separators U+001C to U+001F. */
  predicate IsSpace(c: char) {
    c == ' ' || ('\t' <= c <= '\r') || ('\U{001C}' <= c <= '\U{001F}')
  }

  /** The length of the run of digits in `s` starting at `i`. */
  function DigitRun(s: string, i: nat): (n: nat)
    requires i <= |s|
    decreases |s| - i
    ensures i + n <= |s| && forall j :: i <= j < i + n ==> IsDigit(s[j])
    ensures i + n < |s| ==> !IsDigit(s[i + n])
  {
    if i < |s| && IsDigit(s[i]) then 1 + DigitRun(s, i + 1) else 0
  }

  /** The length of the run of `\s` characters in `s` starting at `i`. */
  function SpaceRun(s: string, i: nat): (n: nat)
    requires i <= |s|
    decreases |s| - i
    ensures i + n <= |s| && forall j :: i <= j < i + n ==> IsSpace(s[j])
    ensures i + n < |s| ==> !IsSpace(s[i + n])
  {
    if i < |s| && IsSpace(s[i]) then 1 + SpaceRun(s, i + 1) else 0
  }

  /** A one- or two-digit directive (`%m`, `%d`, `%H`, `%M`, `%S`) at `i`.
      Every such directive is followed by a non-digit or by the end of the
      input, so its regular expression backtracks to exactly the digits up to
      the next non-digit; they match it when there are one or two of them and
      their value lies in `lo..hi`.  Yields the value and the index after it. */
  function NumberAt(s: string, i: nat, lo: nat, hi: nat): (r: Option<(nat, nat)>)
    requires i <= |s|
    ensures r.Some? ==> i < r.value.1 <= |s| && lo <= r.value.0 <= hi
    ensures r.Some? ==> r.value.1 == |s| || !IsDigit(s[r.value.1])
  {
    var n := DigitRun(s, i);
    assert AllDigits(s[i..i + n]);
    if (n == 1 || n == 2) && lo <= DecimalValue(s[i..i + n]) <= hi then
      Some((DecimalValue(s[i..i + n]), i + n))
    else None
  }

  /** `%d`, which also accepts a space followed by a non-zero digit. */
  function DayAt(s: string, i: nat): (r: Option<(nat, nat)>)
    requires i <= |s|
    ensures r.Some? ==> i < r.value.1 <= |s| && 1 <= r.value.0 <= 31
  {
    if i < |s| && s[i] == ' ' then
      if i + 1 < |s| && '1' <= s[i + 1] <= '9' then Some((s[i + 1] as int - '0' as int, i + 2)) else None
    else NumberAt(s, i, 1, 31)
  }

  /** True when `s[i]` exists and is `c`. */
  predicate CharAt(s: string, i: nat, c: char) {
    i < |s| && s[i] == c
  }

  /** `%m:%d` from index 5, then the whitespace `\s+`: month, day and the
      index where the time begins. */
  function DateFields(s: string): (r: Option<(nat, nat, nat)>)
    requires 5 <= |s|
    ensures r.Some? ==> 1 <= r.value.0 <= 12 && 1 <= r.value.1 <= 31 && r.value.2 <= |s|
  {
    match NumberAt(s, 5, 1, 12)
    case None => None
    case Some((month, i)) =>
      if !CharAt(s, i, ':') then None
      else match DayAt(s, i + 1)
      case None => None
      case Some((day, j)) =>
        var w := SpaceRun(s, j);
        if w == 0 then None else Some((month, day, j + w))
  }

  /** `%H:%M:%S` from index `k` to the very end of `s`: any data left after
      the seconds raises `ValueError`. */
  function TimeFields(s: string, k: nat): (r: Option<(nat, nat, nat)>)
    requires k <= |s|
    ensures r.Some? ==> r.value.0 <= 23 && r.value.1 <= 59 && r.value.2 <= 61
  {
    match NumberAt(s, k, 0, 23)
    case None => None
    case Some((hour, l)) =>
      if !CharAt(s, l, ':') then None
      else match NumberAt(s, l + 1, 0, 59)
      case None => None
      case Some((minute, m)) =>
        if !CharAt(s, m, ':') then None
        else match NumberAt(s, m + 1, 0, 61)
        case None => None
        case Some((second, end)) =>
          if end != |s| then None else Some((hour, minute, second))
  }

  /** The `datetime(...)` call that ends `strptime`: `ValueError` for year 0,
      a day past the end of the month, or second 60 or 61. */
  function Validated(t: CalendarTime): (r: Option<DateTime>)
    ensures r.Some? <==> ValidCalendarTime(t)
    ensures r.Some? ==> r.value == t
  {
    if ValidCalendarTime(t) then Some(t) else None
  }

  /** The `datetime` that `datetime.strptime(s, "%Y:%m:%d %H:%M:%S")`
      returns, or `None` where it raises `ValueError`: the text is not in the
      form, data remains after the seconds, or the fields make no valid
      `datetime`. */
  function ParseExifString(s: string): (r: Option<DateTime>)
    ensures r.Some? ==> |s| > 4 && s[..4] == ZeroPad(r.value.year, 4) && s[4] == ':'
  {
    if DigitRun(s, 0) != 4 || !CharAt(s, 4, ':') then None
    else match DateFields(s)
      case None => None
      case Some((month, day, k)) =>
        match TimeFields(s, k)
        case None => None
        case Some((hour, minute, second)) =>
          var year := DecimalValue(s[..4]);
          ZeroPadOfValue(s[..4]);
          Validated(CalendarTime(year, month, day, hour, minute, second))
  }

  /** Digits are the zero-padded text of their own value. */
  lemma {:induction false} ZeroPadOfValue(s: string)
    requires AllDigits(s)
    ensures DecimalValue(s) < Pow10(|s|) && ZeroPad(DecimalValue(s), |s|) == s
  {
    if s != [] {
      var p := s[..|s| - 1];
      ZeroPadOfValue(p);
      var v := DecimalValue(s);
      var d := s[|s| - 1] as int - '0' as int;
      ZeroPadValue(DecimalValue(s), |s|);
      assert v == DecimalValue(p) * 10 + d;
      assert v / 10 == DecimalValue(p) && v % 10 == d;
      assert DigitChar(d) == s[|s| - 1];
      assert s == p + [s[|s| - 1]];
    }
  }

  /** The text fields of a calendar time whose year has at most four digits
      and whose other fields at most two. */
  predicate Formattable(t: CalendarTime) {
    0 <= t.year < 10000 && 0 <= t.month < 100 && 0 <= t.day < 100 &&
    0 <= t.hour < 100 && 0 <= t.minute < 100 && 0 <= t.second < 100
  }

  /** The Exif date-time form `YYYY:MM:DD HH:MM:SS`, with `sep` between the
      date and the time. */
  function FormatExifWith(t: CalendarTime, sep: char): (s: string)
    requires Formattable(t)
    ensures |s| == 19
  {
    ZeroPad(t.year, 4) + ":" + ZeroPad(t.month, 2) + ":" + ZeroPad(t.day, 2) + [sep] +
    ZeroPad(t.hour, 2) + ":" + ZeroPad(t.minute, 2) + ":" + ZeroPad(t.second, 2)
  }

  /** The Exif date-time form `YYYY:MM:DD HH:MM:SS`. */
  function FormatExif(t: CalendarTime): (s: string)
    requires Formattable(t)
    ensures |s| == 19
  {
    FormatExifWith(t, ' ')
  }

  /** A digit run of known extent. */
  lemma {:induction false} DigitRunIs(s: string, i: nat, n: nat)
    requires i + n <= |s| && (forall j :: i <= j < i + n ==> IsDigit(s[j]))
    requires i + n == |s| || !IsDigit(s[i + n])
    ensures DigitRun(s, i) == n
    decreases n
  {
    if n > 0 {
      DigitRunIs(s, i + 1, n - 1);
    }
  }

  /** A two-digit field followed by a non-digit or the end. */
  lemma TwoDigitsAt(s: string, i: nat, v: nat, lo: nat, hi: nat)
    requires v < 100 && i + 2 <= |s| && s[i..i + 2] == ZeroPad(v, 2)
    requires i + 2 == |s| || !IsDigit(s[i + 2])
    ensures NumberAt(s, i, lo, hi) == if lo <= v <= hi then Some((v, i + 2)) else None
  {
    ZeroPadValue(v, 2);
    assert IsDigit(s[i..i + 2][0]) && IsDigit(s[i..i + 2][1]);
    DigitRunIs(s, i, 2);
  }

  /** Where each field of the Exif form sits. */
  lemma FormatLayout(a: string, b: string, c: string, sep: char, d: string, e: string, f: string)
    requires |a| == 4 && |b| == 2 && |c| == 2 && |d| == 2 && |e| == 2 && |f| == 2
    ensures var s := a + ":" + b + ":" + c + [sep] + d + ":" + e + ":" + f;
      s[..4] == a && s[5..7] == b && s[8..10] == c &&
      s[11..13] == d && s[14..16] == e && s[17..19] == f &&
      s[4] == ':' && s[7] == ':' && s[10] == sep && s[13] == ':' && s[16] == ':'
  {
  }

  /** The date half of the Exif form. */
  lemma DateFieldsOfLayout(s: string, month: nat, day: nat)
    requires |s| == 19 && month < 100 && day < 100
    requires s[5..7] == ZeroPad(month, 2) && s[7] == ':' && s[8..10] == ZeroPad(day, 2)
    requires IsSpace(s[10]) && IsDigit(s[11])
    ensures DateFields(s) == if 1 <= month <= 12 && 1 <= day <= 31 then Some((month, day, 11)) else None
  {
    TwoDigitsAt(s, 5, month, 1, 12);
    TwoDigitsAt(s, 8, day, 1, 31);
    ZeroPadValue(day, 2);
    assert IsDigit(s[8..10][0]);
    assert DayAt(s, 8) == NumberAt(s, 8, 1, 31);
    assert SpaceRun(s, 11) == 0;
    assert SpaceRun(s, 10) == 1;
  }

  /** The time half of the Exif form. */
  lemma TimeFieldsOfLayout(s: string, hour: nat, minute: nat, second: nat)
    requires |s| == 19 && hour < 100 && minute < 100 && second < 100
    requires s[11..13] == ZeroPad(hour, 2) && s[13] == ':' && s[14..16] == ZeroPad(minute, 2)
    requires s[16] == ':' && s[17..19] == ZeroPad(second, 2)
    ensures TimeFields(s, 11) ==
      if hour <= 23 && minute <= 59 && second <= 61 then Some((hour, minute, second)) else None
  {
    TwoDigitsAt(s, 11, hour, 0, 23);
    TwoDigitsAt(s, 14, minute, 0, 59);
    TwoDigitsAt(s, 17, second, 0, 61);
  }

  /** `strptime` accepts the Exif form of a calendar time exactly when that
      time is a valid `datetime`, and then yields that very time. */
  lemma ParseFormatted(t: CalendarTime, sep: char)
    requires Formattable(t) && IsSpace(sep)
    ensures ParseExifString(FormatExifWith(t, sep)) == if ValidCalendarTime(t) then Some(t) else None
  {
    var s := FormatExifWith(t, sep);
    var y := ZeroPad(t.year, 4);
    FormatLayout(y, ZeroPad(t.month, 2), ZeroPad(t.day, 2), sep,
                 ZeroPad(t.hour, 2), ZeroPad(t.minute, 2), ZeroPad(t.second, 2));
    assert s[..4] == y;
    ZeroPadValue(t.year, 4);
    ZeroPadValue(t.hour, 2);
    assert AllDigits(s[..4]);
    DigitRunIs(s, 0, 4);
    assert s[11] == s[11..13][0];
    DateFieldsOfLayout(s, t.month, t.day);
    TimeFieldsOfLayout(s, t.hour, t.minute, t.second);
    assert DecimalValue(s[..4]) == t.year;
  }

  /** Every `datetime`, written in the Exif form, parses back to itself. */
  lemma ParseFormatRoundTrip(t: DateTime)
    ensures ParseExifString(FormatExif(t)) == Some(t)
  {
    ParseFormatted(t, ' ');
  }

  /** The ASCII information separators U+001C to U+001F count as the
      whitespace between the date and the time, as they do for `\s`. */
  lemma ParseAcceptsInformationSeparators(t: DateTime, sep: char)
    requires '\U{001C}' <= sep <= '\U{001F}'
    ensures ParseExifString(FormatExifWith(t, sep)) == Some(t)
  {
    ParseFormatted(t, sep);
  }

  /** A text whose year is not followed by `:` never parses. */
  lemma ParseRejectsDashes()
    ensures ParseExifString("2025-06-15 14:30:00") == None
  {
    DigitRunIs("2025-06-15 14:30:00", 0, 4);
  }

  // ---------------------------------------------------------------------
  // EXIF

  /** An EXIF tag value: a string, or anything else PIL produces (bytes,
      integers, rationals, tuples). */
  datatype ExifValue = Text(text: string) | NonText

  /** The dictionary `img._getexif()` returns, keyed by numeric tag id. */
  type ExifTags = map<nat, ExifValue>

  /** `DATETIME_ORIGINAL` (0x9003). */
  const DateTimeOriginalTag: nat := 36867
  /** The one tag id that `TAGS` names `"DateTime"` (0x0132). */
  const DateTimeTag: nat := 306

  /** `_parse_exif_datetime` as its contract promises it: `None` for any value
      that is not a string in the Exif form. */
  function ParseExifDateTime(v: ExifValue): (r: Option<DateTime>)
    ensures v.NonText? ==> r.None?
    ensures r.Some? <==> v.Text? && ParseExifString(v.text).Some?
  {
    match v
    case Text(s) => ParseExifString(s)
    case NonText => None
  }

  /** An EXIF dictionary as read: `None` when the file could not be opened as
      an image or carries no EXIF block. */
  predicate HasExif(exif: Option<ExifTags>) {
    exif.Some? && |exif.value| > 0
  }

  /** `_extract_exif_date`: DateTimeOriginal when present, otherwise DateTime,
      otherwise `None`. */
  function ExtractExifDate(pilAvailable: bool, exif: Option<ExifTags>): (r: Option<DateTime>)
    ensures !pilAvailable || !HasExif(exif) ==> r.None?
    ensures r.Some? ==>
      (DateTimeOriginalTag in exif.value && ParseExifDateTime(exif.value[DateTimeOriginalTag]) == r) ||
      (DateTimeOriginalTag !in exif.value && DateTimeTag in exif.value &&
       ParseExifDateTime(exif.value[DateTimeTag]) == r)
  {
    if !pilAvailable || !HasExif(exif) then None
    else if DateTimeOriginalTag in exif.value then ParseExifDateTime(exif.value[DateTimeOriginalTag])
    else if DateTimeTag in exif.value then ParseExifDateTime(exif.value[DateTimeTag])
    else None
  }

  /** DateTimeOriginal, when present, alone decides: the rest of the tags do
      not matter, and an unparseable DateTimeOriginal gives `None` even when
      DateTime would parse. */
  lemma DateTimeOriginalDecides(e1: ExifTags, e2: ExifTags)
    requires DateTimeOriginalTag in e1 && DateTimeOriginalTag in e2
    requires e1[DateTimeOriginalTag] == e2[DateTimeOriginalTag]
    ensures ExtractExifDate(true, Some(e1)) == ExtractExifDate(true, Some(e2))
    ensures ExtractExifDate(true, Some(e1)) == ParseExifDateTime(e1[DateTimeOriginalTag])
  {
  }

  /** DateTime is read only when DateTimeOriginal is absent. */
  lemma DateTimeFallback(exif: ExifTags)
    requires DateTimeOriginalTag !in exif
    ensures ExtractExifDate(true, Some(exif)) ==
      if DateTimeTag in exif then ParseExifDateTime(exif[DateTimeTag]) else None
  {
  }

  /** `extract_date_taken`: the EXIF date if there is one, otherwise the
      file's mtime converted by `datetime.fromtimestamp` (`None` when `stat()`
      fails or the conversion raises `OSError`/`ValueError`). */
  function ExtractDateTaken(pilAvailable: bool, exif: Option<ExifTags>, mtime: Option<int>,
                            fromTimestamp: int -> Option<DateTime>): (r: Option<DateTime>)
    ensures ExtractExifDate(pilAvailable, exif).Some? ==> r == ExtractExifDate(pilAvailable, exif)
    ensures ExtractExifDate(pilAvailable, exif).None? && mtime.Some? ==> r == fromTimestamp(mtime.value)
    ensures r.None? <==> (ExtractExifDate(pilAvailable, exif).None? &&
      (mtime.None? || fromTimestamp(mtime.value).None?))
  {
    match ExtractExifDate(pilAvailable, exif)
    case Some(dateTaken) => Some(dateTaken)
    case None =>
      match mtime
      case None => None
      case Some(m) => fromTimestamp(m)
  }

  // ---------------------------------------------------------------------
  // As written: a non-string tag value

  /** The outcome of a call that may let an exception escape. */
  datatype Raising<T> = Returned(value: T) | RaisedTypeError

  /** `_parse_exif_datetime` as written: `strptime` raises `TypeError` on a
      value that is not a string, and the handler catches only `ValueError`
      and `AttributeError`. */
  function ParseExifDateTimeAsWritten(v: ExifValue): (r: Raising<Option<DateTime>>)
    ensures r.RaisedTypeError? <==> v.NonText?
    ensures r.Returned? ==> r.value == ParseExifDateTime(v)
  {
    match v
    case Text(s) => Returned(ParseExifString(s))
    case NonText => RaisedTypeError
  }

  /** `_extract_exif_date` as written: its handler does not catch `TypeError`
      either. */
  function ExtractExifDateAsWritten(pilAvailable: bool, exif: Option<ExifTags>): (r: Raising<Option<DateTime>>)
    ensures r.Returned? ==> r.value == ExtractExifDate(pilAvailable, exif)
  {
    if !pilAvailable || !HasExif(exif) then Returned(None)
    else if DateTimeOriginalTag in exif.value then ParseExifDateTimeAsWritten(exif.value[DateTimeOriginalTag])
    else if DateTimeTag in exif.value then ParseExifDateTimeAsWritten(exif.value[DateTimeTag])
    else Returned(None)
  }

  /** `extract_date_taken` as written: the `TypeError` escapes before the
      mtime fallback. */
  function ExtractDateTakenAsWritten(pilAvailable: bool, exif: Option<ExifTags>, mtime: Option<int>,
                                     fromTimestamp: int -> Option<DateTime>): (r: Raising<Option<DateTime>>)
    ensures r.Returned? ==> r.value == ExtractDateTaken(pilAvailable, exif, mtime, fromTimestamp)
  {
    match ExtractExifDateAsWritten(pilAvailable, exif)
    case RaisedTypeError => RaisedTypeError
    case Returned(d) => Returned(ExtractDateTaken(pilAvailable, exif, mtime, fromTimestamp))
  }

  /** A file whose DateTimeOriginal tag holds a non-string value: as written,
      `extract_date_taken` raises instead of returning `None` from the EXIF
      step and falling back to the mtime; the intended behaviour yields the
      mtime's date. */
  lemma NonTextDateTimeOriginalEscapes(mtime: int, fromTimestamp: int -> Option<DateTime>)
    ensures ExtractDateTakenAsWritten(true, Some(map[DateTimeOriginalTag := NonText]), Some(mtime), fromTimestamp)
         == RaisedTypeError
    ensures ExtractDateTaken(true, Some(map[DateTimeOriginalTag := NonText]), Some(mtime), fromTimestamp)
         == fromTimestamp(mtime)
  {
  }

  /** The two agree on every input without a non-string date tag consulted. */
  lemma AsWrittenAgreesOnText(pilAvailable: bool, exif: Option<ExifTags>, mtime: Option<int>,
                              fromTimestamp: int -> Option<DateTime>)
    requires exif.Some? && DateTimeOriginalTag in exif.value ==> exif.value[DateTimeOriginalTag].Text?
    requires exif.Some? && DateTimeOriginalTag !in exif.value && DateTimeTag in exif.value ==>
      exif.value[DateTimeTag].Text?
    ensures ExtractDateTakenAsWritten(pilAvailable, exif, mtime, fromTimestamp)
         == Returned(ExtractDateTaken(pilAvailable, exif, mtime, fromTimestamp))
  {
  }
}
