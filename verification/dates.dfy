/**
 * `parseToStandardDate` (src/utils/utilities.ts): normalise the date texts users type into the
 * `YYYY-MM-DD` shape of an ISO 8601 calendar date, or null. Fields are copied, never
 * range-checked.
 */
module StandardDate {
  import opened Wrappers
  import opened Chars
  import opened Strings
  import opened DateForms
  import opened Quarters

  /**
   * `new Date(text)`, then the validity test `!isNaN(date.getTime())`, then
   * `date.toISOString().split('T')[0]`: `None` for an invalid date. The JavaScript Date
   * parser is implementation-defined and time-zone dependent, so it stays a parameter.
   */
  type DateParser = string -> Option<string>

  /** Splitting at `c` when `c` occurs exactly at index `i`. */
  lemma SplitTwo(s: string, c: char, i: nat)
    requires i < |s| && s[i] == c
    requires forall j :: 0 <= j < |s| && j != i ==> s[j] != c
    ensures Split(s, [c]) == [s[..i], s[i + 1..]]
  {
    SplitAtChar(s, c, i);
    SplitNoChar(s[i + 1..], c);
  }

  /** Splitting at `c` when `c` occurs exactly at indices `i` and `j`. */
  lemma SplitThree(s: string, c: char, i: nat, j: nat)
    requires i < j < |s| && s[i] == c && s[j] == c
    requires forall k :: 0 <= k < |s| && k != i && k != j ==> s[k] != c
    ensures Split(s, [c]) == [s[..i], s[i + 1..j], s[j + 1..]]
  {
    SplitRest(s, c, i, j);
    SplitAtChar(s, c, i);
  }

  lemma SplitRest(s: string, c: char, i: nat, j: nat)
    requires i < j < |s| && s[i] == c && s[j] == c
    requires forall k :: 0 <= k < |s| && k != i && k != j ==> s[k] != c
    ensures Split(s[i + 1..], [c]) == [s[i + 1..j], s[j + 1..]]
  {
    var rest := s[i + 1..];
    var m := j - i - 1;
    assert forall k :: 0 <= k < |rest| ==> rest[k] == s[k + i + 1];
    SplitTwo(rest, c, m);
    assert rest[..m] == s[i + 1..j];
    assert rest[m + 1..] == s[j + 1..];
  }

  /** `YYYY`: the first of January. */
  function YearDate(s: string): (d: string)
    requires Fits(s, "dddd")
    ensures IsoShaped(d) && d[..4] == s && d[4..] == "-01-01"
  {
    FitsDigits(s, "dddd", 0, 4);
    assert s[0..4] == s;
    IsoFromFields(s, "01", "01");
    s + "-01-01"
  }

  /** `YYYY-MM`: the first of the month. */
  function YearMonthDate(s: string): (d: string)
    requires Fits(s, "dddd-dd")
    ensures IsoShaped(d) && d[..7] == s && d[7..] == "-01"
  {
    FitsDigits(s, "dddd-dd", 0, 4);
    FitsDigits(s, "dddd-dd", 5, 7);
    assert s[5..7] == s[5..];
    assert s == s[..4] + "-" + s[5..];
    IsoFromFields(s[..4], s[5..], "01");
    s + "-01"
  }

  /** The year of a two-digit-year date: the 1900s above 50, the 2000s otherwise. */
  function FullYear(yy: string): (yyyy: string)
    requires Fits(yy, "dd")
    ensures |yyyy| == 4 && AllDigits(yyyy) && yyyy[2..] == yy
  {
    FitsDigits(yy, "dd", 0, 2);
    assert yy[0..2] == yy;
    var century := if DigitsValue(yy) > 50 then "19" else "20";
    DigitsValueAppend(century, yy);
    century + yy
  }

  /**
   * The two-digit year names the one year from 1951 to 2050 that ends in those digits:
   * 51..99 are the 1900s and 00..50 the 2000s.
   */
  lemma TwoDigitYearWindow(yy: string)
    requires Fits(yy, "dd")
    ensures var y := DigitsValue(FullYear(yy));
      1951 <= y <= 2050 && y % 100 == DigitsValue(yy)
  {
    FitsDigits(yy, "dd", 0, 2);
    assert yy[0..2] == yy;
    var century := if DigitsValue(yy) > 50 then "19" else "20";
    DigitsValueAppend(century, yy);
    assert century[..1] == [century[0]];
    assert DigitsValue(century) == if DigitsValue(yy) > 50 then 19 else 20;
  }

  /** `MM-YYYY` and `MM/YYYY`: split at the separator into month and year, then day 01. */
  function MonthYearDate(s: string, c: char): (d: string)
    requires (c == '-' || c == '/') && Fits(s, "dd" + [c] + "dddd")
    ensures d == s[3..] + "-" + s[..2] + "-01"
    ensures IsoShaped(d)
  {
    var t := "dd" + [c] + "dddd";
    FitsDigits(s, t, 0, 2);
    FitsDigits(s, t, 3, 7);
    assert s[3..7] == s[3..];
    IsoFromFields(s[3..], s[..2], "01");
    SplitTwo(s, c, 2);
    var parts := Split(s, [c]);
    parts[1] + "-" + parts[0] + "-01"
  }

  /** `DD-MM-YYYY`, `DD/MM/YYYY`, `DD.MM.YYYY`: split at the separator into day, month and year. */
  function DayMonthYearDate(s: string, c: char): (d: string)
    requires (c == '-' || c == '/' || c == '.') && Fits(s, DayMonthYearShape(c))
    ensures d == s[6..] + "-" + s[3..5] + "-" + s[..2]
    ensures IsoShaped(d)
  {
    DayMonthYearFields(s, c);
    var parts := Split(s, [c]);
    parts[2] + "-" + parts[1] + "-" + parts[0]
  }

  /** The three fields of a `DD?MM?YYYY` date, and the ISO shape of their reordering. */
  lemma DayMonthYearFields(s: string, c: char)
    requires (c == '-' || c == '/' || c == '.') && Fits(s, DayMonthYearShape(c))
    ensures Split(s, [c]) == [s[..2], s[3..5], s[6..]]
    ensures IsoShaped(s[6..] + "-" + s[3..5] + "-" + s[..2])
  {
    DayMonthYearLayout(s, c);
    var day, month, year := s[..2], s[3..5], s[6..];
    assert forall k :: 0 <= k < 2 ==> day[k] == s[k] && month[k] == s[k + 3];
    assert forall k :: 0 <= k < 4 ==> year[k] == s[k + 6];
    IsoFromFields(year, month, day);
    SplitThree(s, c, 2, 5);
  }

  /** `DD/MM/YY`, `DD.MM.YY`: the fields reordered, the year widened by `FullYear`. */
  function DayMonthShortYearDate(s: string, c: char): (d: string)
    requires (c == '/' || c == '.') && Fits(s, DayMonthShortYearShape(c))
    ensures d == FullYear(s[6..]) + "-" + s[3..5] + "-" + s[..2]
    ensures IsoShaped(d)
  {
    var t := DayMonthShortYearShape(c);
    FitsDigits(s, t, 0, 2);
    FitsDigits(s, t, 3, 5);
    FitsDigits(s, t, 6, 8);
    assert s[6..8] == s[6..];
    var yy := s[6..];
    assert Fits(yy, "dd");
    assert AllDigits(FullYear(yy)) by {
      assert forall k :: 2 <= k < 4 ==> FullYear(yy)[k] == yy[k - 2];
    }
    IsoFromFields(FullYear(yy), s[3..5], s[..2]);
    SplitThree(s, c, 2, 5);
    var parts := Split(s, [c]);
    FullYear(parts[2]) + "-" + parts[1] + "-" + parts[0]
  }

  /** `YYYY/MM/DD`: split at the slashes into year, month and day. */
  function YearMonthDayDate(s: string): (d: string)
    requires Fits(s, "dddd/dd/dd")
    ensures d == s[..4] + "-" + s[5..7] + "-" + s[8..]
    ensures IsoShaped(d)
  {
    var t := "dddd/dd/dd";
    FitsDigits(s, t, 0, 4);
    FitsDigits(s, t, 5, 7);
    FitsDigits(s, t, 8, 10);
    assert s[8..10] == s[8..];
    IsoFromFields(s[..4], s[5..7], s[8..]);
    SplitThree(s, '/', 4, 7);
    var parts := Split(s, "/");
    parts[0] + "-" + parts[1] + "-" + parts[2]
  }

  /** `Sep/2025`: split at the slash into month name and year, handed over as `Sep 2025`. */
  function MonthNameSlashText(s: string): (text: string)
    requires MonthNameSlashYear(s)
    ensures text == s[..|s| - 5] + " " + s[|s| - 4..]
  {
    SplitTwo(s, '/', |s| - 5);
    var parts := Split(s, "/");
    parts[0] + " " + parts[1]
  }

  /** `parseToStandardDate(dateStr)`; `newDate` stands for the JavaScript Date parser. */
  function ParseToStandardDate(input: Option<string>, newDate: DateParser): (r: Option<string>)
    ensures input.None? || input == Some("") ==> r.None?
    ensures input.Some? && Classify(input.value) !in {MonthNameYear, MonthNameSlash, Unrecognised, Blank}
            ==> r.Some? && IsoShaped(r.value)
  {
    if input.None? then None
    else
      var s := input.value;
      match Classify(s)
      case Blank => None
      case Year => Some(YearDate(s))
      case Quarter => Some(QuarterDateAsWritten(s))
      case MonthNameYear => newDate(s)
      case YearMonth => Some(YearMonthDate(s))
      case MonthYearDash => Some(MonthYearDate(s, '-'))
      case DayMonthYear(c) => Some(DayMonthYearDate(s, c))
      case DayMonthShortYear(c) => Some(DayMonthShortYearDate(s, c))
      case MonthYearSlash => Some(MonthYearDate(s, '/'))
      case YearMonthDaySlash => Some(YearMonthDayDate(s))
      case MonthNameSlash => newDate(MonthNameSlashText(s))
      case Unrecognised => newDate(s)
  }

  /** A bare year and a year-month become the first day of that year or month. */
  lemma ParseYearForms(s: string, newDate: DateParser)
    ensures Fits(s, "dddd") ==> ParseToStandardDate(Some(s), newDate) == Some(s + "-01-01")
    ensures Fits(s, "dddd-dd") ==> ParseToStandardDate(Some(s), newDate) == Some(s + "-01")
  {
    ClassifyExact(s, YearMonth);
  }

  /**
   * A quarter becomes the first day of its first month. The year is the one the text names
   * when the year comes first or a separator follows `Qn`; with `Qn` directly followed by the
   * year, it is the four digits starting at the quarter digit.
   */
  lemma ParseQuarter(s: string, newDate: DateParser)
    requires YearThenQuarter(s) || QuarterThenYear(s)
    ensures YearThenQuarter(s) ==> ParseToStandardDate(Some(s), newDate) == Some(s[..4] + "-" + QuarterStart(s[|s| - 1]))
    ensures QuarterThenYear(s) && |s| > 6 ==> ParseToStandardDate(Some(s), newDate) == Some(s[|s| - 4..] + "-" + QuarterStart(s[1]))
    ensures QuarterThenYear(s) && |s| == 6 ==> ParseToStandardDate(Some(s), newDate) == Some(s[1..5] + "-" + QuarterStart(s[1]))
  {
    ClassifyExact(s, Quarter);
    if QuarterThenYear(s) && |s| == 6 {
      QuarterAsWrittenUnseparated(s);
    } else {
      QuarterAsWrittenAgrees(s);
    }
  }

  /** `MM-YYYY` and `MM/YYYY` are reordered to year, month, day 01; the month is not range-checked. */
  lemma ParseMonthYear(s: string, newDate: DateParser)
    requires Fits(s, "dd-dddd") || Fits(s, "dd/dddd")
    ensures ParseToStandardDate(Some(s), newDate) == Some(s[3..] + "-" + s[..2] + "-01")
  {
    ClassifyExact(s, MonthYearDash);
    ClassifyExact(s, MonthYearSlash);
  }

  /** `DD-MM-YYYY`, `DD/MM/YYYY`, `DD.MM.YYYY` are reordered field by field, without range checks. */
  lemma ParseDayMonthYear(s: string, c: char, newDate: DateParser)
    requires (c == '-' || c == '/' || c == '.') && Fits(s, DayMonthYearShape(c))
    ensures ParseToStandardDate(Some(s), newDate) == Some(s[6..] + "-" + s[3..5] + "-" + s[..2])
  {
    ClassifyExact(s, DayMonthYear(c));
  }

  /** `DD/MM/YY` and `DD.MM.YY` are reordered with the year widened into 1951..2050. */
  lemma ParseDayMonthShortYear(s: string, c: char, newDate: DateParser)
    requires (c == '/' || c == '.') && Fits(s, DayMonthShortYearShape(c))
    ensures ParseToStandardDate(Some(s), newDate) == Some(FullYear(s[6..]) + "-" + s[3..5] + "-" + s[..2])
  {
    ClassifyExact(s, DayMonthShortYear(c));
  }

  /** `YYYY/MM/DD` only has its slashes replaced by hyphens. */
  lemma ParseYearMonthDay(s: string, newDate: DateParser)
    requires Fits(s, "dddd/dd/dd")
    ensures ParseToStandardDate(Some(s), newDate) == Some(s[..4] + "-" + s[5..7] + "-" + s[8..])
  {
    ClassifyExact(s, YearMonthDaySlash);
  }

  /**
   * Month names and everything unrecognised go to the Date parser, whose answer (a date or
   * null) is the result; `Sep/2025` is handed over as `Sep 2025`.
   */
  lemma ParseDelegates(s: string, newDate: DateParser)
    ensures MonthNameThenYear(s) ==> ParseToStandardDate(Some(s), newDate) == newDate(s)
    ensures MonthNameSlashYear(s) ==> ParseToStandardDate(Some(s), newDate) == newDate(s[..|s| - 5] + " " + s[|s| - 4..])
    ensures s != "" && !Recognised(s) ==> ParseToStandardDate(Some(s), newDate) == newDate(s)
  {
    ClassifyExact(s, MonthNameYear);
    ClassifyExact(s, MonthNameSlash);
    ClassifyExact(s, Unrecognised);
  }

  /**
   * A normalised date matches none of the patterns, so parsing it again hands it to the Date
   * parser: normalisation is idempotent exactly where that parser maps the date to itself.
   */
  lemma ReparseNormalised(d: string, newDate: DateParser)
    requires IsoShaped(d)
    ensures !Recognised(d)
    ensures ParseToStandardDate(Some(d), newDate) == newDate(d)
  {
    Landmarks(d);
    FitsAt(d, "dddd-dd-dd", 0);
    FitsAt(d, "dddd-dd-dd", 2);
    FitsAt(d, "dddd-dd-dd", 4);
    FitsAt(d, "dddd-dd-dd", 8);
    FitsAt(d, "dddd/dd/dd", 4);
    ShapeLandmarks('-');
    ShapeLandmarks('/');
    ShapeLandmarks('.');
    FitsAt(d, DayMonthYearShape('-'), 2);
    FitsAt(d, DayMonthYearShape('/'), 2);
    FitsAt(d, DayMonthYearShape('.'), 2);
    ClassifyExact(d, Unrecognised);
  }
}
