/**
 Python's naive `datetime` (to the second) and the EXIF date text
 `"YYYY:MM:DD HH:MM:SS"` (the format string `"%Y:%m:%d %H:%M:%S"`), with the
 strict parser the organiser calls `try_parse_date`.
 */
module Timestamps {

  import opened Wrappers
  import opened Decimal

  const MinYear := 1
  const MaxYear := 9999

  datatype Timestamp = Timestamp(year: int, month: int, day: int, hour: int, minute: int, second: int)

  predicate IsLeapYear(y: int) {
    y % 4 == 0 && (y % 100 != 0 || y % 400 == 0)
  }

  function DaysInMonth(y: int, m: int): (d: int)
    requires 1 <= m <= 12
    ensures 28 <= d <= 31
  {
    if m == 2 then (if IsLeapYear(y) then 29 else 28)
    else if m == 4 || m == 6 || m == 9 || m == 11 then 30
    else 31
  }

  /** The fields a `datetime` constructor accepts; anything else raises `ValueError`. */
  predicate Valid(t: Timestamp) {
    && MinYear <= t.year <= MaxYear
    && 1 <= t.month <= 12
    && 1 <= t.day <= DaysInMonth(t.year, t.month)
    && 0 <= t.hour < 24
    && 0 <= t.minute < 60
    && 0 <= t.second < 60
  }

  /** A Python `datetime` value: every one that exists is valid. */
  type DateTime = t: Timestamp | Valid(t) witness Timestamp(1, 1, 1, 0, 0, 0)

  /** `t.strftime("%Y:%m:%d %H:%M:%S")`, the text an EXIF date tag holds. */
  function ExifText(t: DateTime): (s: string)
    ensures |s| == 19
  {
    Fixed(t.year, 4) + ":" + Fixed(t.month, 2) + ":" + Fixed(t.day, 2) + " "
    + Fixed(t.hour, 2) + ":" + Fixed(t.minute, 2) + ":" + Fixed(t.second, 2)
  }

  /** The text is exactly the EXIF rendering of some date. */
  ghost predicate IsExifDate(s: string) {
    exists t: DateTime :: ExifText(t) == s
  }

  /** Fixed-width digit fields at 0, 5, 8, 11, 14, 17 with the separators between them. */
  predicate IsExifShape(s: string) {
    && |s| == 19
    && s[4] == ':' && s[7] == ':' && s[10] == ' ' && s[13] == ':' && s[16] == ':'
    && AllDigits(s[0..4]) && AllDigits(s[5..7]) && AllDigits(s[8..10])
    && AllDigits(s[11..13]) && AllDigits(s[14..16]) && AllDigits(s[17..19])
  }

  /** The six numbers written in a text of EXIF shape, whether or not they form a date. */
  function ShapeFields(s: string): Timestamp
    requires IsExifShape(s)
  {
    Timestamp(Value(s[0..4]), Value(s[5..7]), Value(s[8..10]),
              Value(s[11..13]), Value(s[14..16]), Value(s[17..19]))
  }

  /**
   `try_parse_date`: the date the text denotes, or `None` when the text does not
   match the pattern or its fields are out of range. It never fails.
   */
  function ParseExifDate(s: string): (r: Option<DateTime>)
    ensures r.Some? ==> ExifText(r.value) == s
  {
    if IsExifShape(s) && Valid(ShapeFields(s)) then
      var t: DateTime := ShapeFields(s);
      ShapeFieldsRender(s);
      Some(t)
    else
      None
  }

  /** A text of EXIF shape whose fields form a date is that date's rendering. */
  lemma ShapeFieldsRender(s: string)
    requires IsExifShape(s) && Valid(ShapeFields(s))
    ensures ExifText(ShapeFields(s)) == s
  {
    FixedOfValue(s[0..4]);
    FixedOfValue(s[5..7]);
    FixedOfValue(s[8..10]);
    FixedOfValue(s[11..13]);
    FixedOfValue(s[14..16]);
    FixedOfValue(s[17..19]);
    assert s == s[0..4] + [s[4]] + s[5..7] + [s[7]] + s[8..10] + [s[10]]
              + s[11..13] + [s[13]] + s[14..16] + [s[16]] + s[17..19];
  }

  /** Round trip: parsing the EXIF rendering of a date gives that date back. */
  lemma ParseExifText(t: DateTime)
    ensures ParseExifDate(ExifText(t)) == Some(t)
  {
    var s := ExifText(t);
    assert s[0..4] == Fixed(t.year, 4);
    assert s[5..7] == Fixed(t.month, 2);
    assert s[8..10] == Fixed(t.day, 2);
    assert s[11..13] == Fixed(t.hour, 2);
    assert s[14..16] == Fixed(t.minute, 2);
    assert s[17..19] == Fixed(t.second, 2);
    ValueOfFixed(t.year, 4);
    ValueOfFixed(t.month, 2);
    ValueOfFixed(t.day, 2);
    ValueOfFixed(t.hour, 2);
    ValueOfFixed(t.minute, 2);
    ValueOfFixed(t.second, 2);
    assert ShapeFields(s) == t;
  }

  /** The parser accepts exactly the renderings of dates, and returns the rendered date. */
  lemma ParseExifDateIff(s: string, t: DateTime)
    ensures ParseExifDate(s) == Some(t) <==> ExifText(t) == s
  {
    if ExifText(t) == s {
      ParseExifText(t);
    }
  }

  /** `None` is returned exactly for texts that render no date. */
  lemma ParseExifDateNone(s: string)
    ensures ParseExifDate(s).None? <==> !IsExifDate(s)
  {
    if IsExifDate(s) {
      var t: DateTime :| ExifText(t) == s;
      ParseExifText(t);
    }
  }

  /** Distinct dates have distinct EXIF renderings. */
  lemma ExifTextInjective(a: DateTime, b: DateTime)
    requires ExifText(a) == ExifText(b)
    ensures a == b
  {
    ParseExifText(a);
    ParseExifText(b);
  }

  /** The four digits of a year from 1000 on, spelled out. */
  lemma YearDigits(y: nat)
    requires 1000 <= y < 10000
    ensures Fixed(y, 4) == [DigitChar(y / 1000), DigitChar(y / 100 % 10), DigitChar(y / 10 % 10), DigitChar(y % 10)]
  {
    assert y / 10 / 10 == y / 100;
    assert y / 100 / 10 == y / 1000;
    assert y / 1000 < 10 && y / 1000 / 10 == 0;
    calc {
      Fixed(y, 4);
      Fixed(y / 10, 3) + [DigitChar(y % 10)];
      Fixed(y / 100, 2) + [DigitChar(y / 10 % 10)] + [DigitChar(y % 10)];
      Fixed(y / 1000, 1) + [DigitChar(y / 100 % 10)] + [DigitChar(y / 10 % 10)] + [DigitChar(y % 10)];
      Fixed(0, 0) + [DigitChar(y / 1000)] + [DigitChar(y / 100 % 10)] + [DigitChar(y / 10 % 10)] + [DigitChar(y % 10)];
    }
  }

  /** Worked example: the primary tag value of a 2021 photo. */
  lemma ParseExample()
    ensures ParseExifDate("2021:05:17 10:22:33") == Some(Timestamp(2021, 5, 17, 10, 22, 33))
  {
    ExampleText(Timestamp(2021, 5, 17, 10, 22, 33));
    ParseExifText(Timestamp(2021, 5, 17, 10, 22, 33));
  }

  lemma ExampleText(t: DateTime)
    requires t == Timestamp(2021, 5, 17, 10, 22, 33)
    ensures ExifText(t) == "2021:05:17 10:22:33"
  {
    YearDigits(2021);
    TextOfParts(t, "2021", "05", "17", "10", "22", "33");
  }

  /** The EXIF text assembled from the renderings of its six fields. */
  lemma TextOfParts(t: DateTime, y: string, mo: string, d: string, h: string, mi: string, s: string)
    requires Fixed(t.year, 4) == y && Fixed(t.month, 2) == mo && Fixed(t.day, 2) == d
    requires Fixed(t.hour, 2) == h && Fixed(t.minute, 2) == mi && Fixed(t.second, 2) == s
    ensures ExifText(t) == y + ":" + mo + ":" + d + " " + h + ":" + mi + ":" + s
  {
  }

  /** February 29 exists only in leap years: the text is accepted in 2024 and rejected in 2023. */
  lemma LeapDayExample()
    ensures ParseExifDate("2024:02:29 00:00:00").Some?
    ensures ParseExifDate("2023:02:29 00:00:00").None?
  {
    LeapDayText(Timestamp(2024, 2, 29, 0, 0, 0));
    ParseExifText(Timestamp(2024, 2, 29, 0, 0, 0));
    NoLeapDay("2023:02:29 00:00:00");
  }

  lemma LeapDayText(t: DateTime)
    requires t == Timestamp(2024, 2, 29, 0, 0, 0)
    ensures ExifText(t) == "2024:02:29 00:00:00"
  {
    YearDigits(2024);
    TextOfParts(t, "2024", "02", "29", "00", "00", "00");
  }

  lemma NoLeapDay(s: string)
    requires s == "2023:02:29 00:00:00"
    ensures ParseExifDate(s).None?
  {
    if IsExifShape(s) {
      YearDigits(2023);
      assert s[0..4] == Fixed(2023, 4);
      assert s[5..7] == Fixed(2, 2);
      assert s[8..10] == Fixed(29, 2);
      ValueOfFixed(2023, 4);
      ValueOfFixed(2, 2);
      ValueOfFixed(29, 2);
      assert !Valid(ShapeFields(s));
    }
  }
}
