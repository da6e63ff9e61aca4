/**
 * The textual shapes `parseToStandardDate` (src/utils/utilities.ts) recognises, one
 * predicate per regular expression, and the first-match-wins choice among them.
 */
module DateForms {
  import opened Chars

  /**
   * `s` has the fixed-width shape `t`: where `t` holds `d` the character is a digit, and
   * everywhere else it is the character of `t` itself.
   */
  predicate Fits(s: string, t: string) {
    |s| == |t| && forall i :: 0 <= i < |s| ==> if t[i] == 'd' then IsDigit(s[i]) else s[i] == t[i]
  }

  /** `dd<c>dd<c>dddd`. */
  function DayMonthYearShape(c: char): string {
    "dd" + [c] + "dd" + [c] + "dddd"
  }

  /** `dd<c>dd<c>dd`. */
  function DayMonthShortYearShape(c: char): string {
    "dd" + [c] + "dd" + [c] + "dd"
  }

  predicate QuarterLetter(c: char) {
    c == 'Q' || c == 'q'
  }

  predicate QuarterDigit(c: char) {
    '1' <= c <= '4'
  }

  /** `\s?-?`: at most one white-space character, then at most one hyphen. */
  predicate QuarterSeparator(t: string) {
    || |t| == 0
    || (|t| == 1 && (IsSpace(t[0]) || t[0] == '-'))
    || (|t| == 2 && IsSpace(t[0]) && t[1] == '-')
  }

  /** `\d{4}\s?-?Q[1-4]`, case-insensitive. */
  predicate YearThenQuarter(s: string) {
    && |s| >= 6
    && AllDigits(s[..4])
    && QuarterSeparator(s[4..|s| - 2])
    && QuarterLetter(s[|s| - 2])
    && QuarterDigit(s[|s| - 1])
  }

  /** `Q[1-4]\s?-?\d{4}`, case-insensitive. */
  predicate QuarterThenYear(s: string) {
    && |s| >= 6
    && QuarterLetter(s[0])
    && QuarterDigit(s[1])
    && QuarterSeparator(s[2..|s| - 4])
    && AllDigits(s[|s| - 4..])
  }

  /** The number of letters `[A-Za-z]` at the start of `t`. */
  function LetterRun(t: string): (n: nat)
    ensures n <= |t|
    ensures forall i :: 0 <= i < n ==> IsLetter(t[i])
    ensures n < |t| ==> !IsLetter(t[n])
  {
    if |t| == 0 || !IsLetter(t[0]) then 0 else 1 + LetterRun(t[1..])
  }

  /**
   * `[A-Za-z]{3,9}\s+\d{4}`. White space is not a letter, so the letters the pattern
   * consumes are exactly the leading run of letters.
   */
  predicate MonthNameThenYear(s: string) {
    && |s| >= 8
    && AllDigits(s[|s| - 4..])
    && var head := s[..|s| - 4];
       var n := LetterRun(head);
       && 3 <= n <= 9
       && n < |head|
       && forall i :: n <= i < |head| ==> IsSpace(head[i])
  }

  /** `[A-Za-z]{3,9}\/\d{4}`. */
  predicate MonthNameSlashYear(s: string) {
    && 8 <= |s| <= 14
    && (forall i :: 0 <= i < |s| - 5 ==> IsLetter(s[i]))
    && s[|s| - 5] == '/'
    && AllDigits(s[|s| - 4..])
  }

  /** The branches of `parseToStandardDate`, in the order it tries them. */
  datatype Form =
    | Blank                         // null or the empty string
    | Year                          // 2026
    | Quarter                       // 2026 Q4, 2026-Q4, Q4 2027, Q4-2027
    | MonthNameYear                 // September 2025
    | YearMonth                     // 2026-04
    | MonthYearDash                 // 09-2027
    | DayMonthYear(sep: char)       // 01-02-2024, 01/02/2024, 01.02.2024
    | DayMonthShortYear(sep: char)  // 01/02/24, 01.02.24
    | MonthYearSlash                // 09/2027
    | YearMonthDaySlash             // 2024/02/01
    | MonthNameSlash                // Sep/2025
    | Unrecognised                  // anything else: handed to the Date parser

  /** The branch `parseToStandardDate` takes for the non-null text `s`: the first pattern that matches. */
  function Classify(s: string): Form {
    if s == "" then Blank
    else if Fits(s, "dddd") then Year
    else if YearThenQuarter(s) || QuarterThenYear(s) then Quarter
    else if MonthNameThenYear(s) then MonthNameYear
    else if Fits(s, "dddd-dd") then YearMonth
    else if Fits(s, "dd-dddd") then MonthYearDash
    else if Fits(s, DayMonthYearShape('-')) then DayMonthYear('-')
    else if Fits(s, DayMonthYearShape('/')) then DayMonthYear('/')
    else if Fits(s, DayMonthYearShape('.')) then DayMonthYear('.')
    else if Fits(s, DayMonthShortYearShape('/')) then DayMonthShortYear('/')
    else if Fits(s, DayMonthShortYearShape('.')) then DayMonthShortYear('.')
    else if Fits(s, "dd/dddd") then MonthYearSlash
    else if Fits(s, "dddd/dd/dd") then YearMonthDaySlash
    else if MonthNameSlashYear(s) then MonthNameSlash
    else Unrecognised
  }

  /** The pattern of branch `f`, read on its own. */
  predicate Matches(f: Form, s: string) {
    match f
    case Blank => s == ""
    case Year => Fits(s, "dddd")
    case Quarter => YearThenQuarter(s) || QuarterThenYear(s)
    case MonthNameYear => MonthNameThenYear(s)
    case YearMonth => Fits(s, "dddd-dd")
    case MonthYearDash => Fits(s, "dd-dddd")
    case DayMonthYear(c) => (c == '-' || c == '/' || c == '.') && Fits(s, DayMonthYearShape(c))
    case DayMonthShortYear(c) => (c == '/' || c == '.') && Fits(s, DayMonthShortYearShape(c))
    case MonthYearSlash => Fits(s, "dd/dddd")
    case YearMonthDaySlash => Fits(s, "dddd/dd/dd")
    case MonthNameSlash => MonthNameSlashYear(s)
    case Unrecognised => s != "" && !Recognised(s)
  }

  /** Some pattern other than the final fallback matches `s`. */
  predicate Recognised(s: string) {
    || Fits(s, "dddd")
    || YearThenQuarter(s) || QuarterThenYear(s)
    || MonthNameThenYear(s)
    || Fits(s, "dddd-dd") || Fits(s, "dd-dddd")
    || Fits(s, DayMonthYearShape('-')) || Fits(s, DayMonthYearShape('/')) || Fits(s, DayMonthYearShape('.'))
    || Fits(s, DayMonthShortYearShape('/')) || Fits(s, DayMonthShortYearShape('.'))
    || Fits(s, "dd/dddd") || Fits(s, "dddd/dd/dd")
    || MonthNameSlashYear(s)
  }

  /** Where the patterns put digits, letters and separators; enough to tell any two apart. */
  lemma Landmarks(s: string)
    ensures MonthNameThenYear(s) ==> IsLetter(s[0]) && IsLetter(s[1]) && IsSpace(s[|s| - 5])
    ensures MonthNameSlashYear(s) ==> IsLetter(s[0]) && IsLetter(s[1]) && s[|s| - 5] == '/'
    ensures YearThenQuarter(s) ==> IsDigit(s[0]) && QuarterLetter(s[|s| - 2])
    ensures QuarterThenYear(s) ==> QuarterLetter(s[0]) && IsDigit(s[1]) && IsDigit(s[|s| - 2])
  {
    if MonthNameThenYear(s) {
      var head := s[..|s| - 4];
      assert head[0] == s[0] && head[1] == s[1] && head[|head| - 1] == s[|s| - 5];
    }
    if YearThenQuarter(s) {
      assert s[..4][0] == s[0];
    }
    if QuarterThenYear(s) {
      assert s[|s| - 4..][2] == s[|s| - 2];
    }
  }

  /**
   * No two patterns match the same text, so the order in which `parseToStandardDate` tries
   * them does not matter: it takes branch `f` exactly when `f`'s own pattern matches. In
   * particular a month name followed by a year never falls through to the Date fallback.
   */
  lemma ClassifyExact(s: string, f: Form)
    ensures Classify(s) == f <==> Matches(f, s)
  {
    ClassifySound(s);
    if Matches(f, s) {
      match f
      case MonthNameYear => Landmarks(s);
      case YearMonth => TemplateLandmarks(s, "dddd-dd");
      case MonthYearDash => ClassifyMonthYearDash(s);
      case DayMonthYear(c) => ClassifyDayMonthYear(s, c);
      case DayMonthShortYear(c) => ClassifyDayMonthShortYear(s, c);
      case MonthYearSlash => ClassifyMonthYearSlash(s);
      case YearMonthDaySlash => ClassifyYearMonthDaySlash(s);
      case MonthNameSlash => ClassifyMonthNameSlash(s);
      case _ =>
    }
  }

  /** The branch taken is one whose pattern matches. */
  lemma ClassifySound(s: string)
    ensures Matches(Classify(s), s)
  {
  }

  lemma ClassifyMonthYearDash(s: string)
    requires Fits(s, "dd-dddd")
    ensures Classify(s) == MonthYearDash
  {
    TemplateLandmarks(s, "dd-dddd");
    FitsAt(s, "dddd-dd", 2);
  }

  lemma ClassifyDayMonthYear(s: string, c: char)
    requires (c == '-' || c == '/' || c == '.') && Fits(s, DayMonthYearShape(c))
    ensures Classify(s) == DayMonthYear(c)
  {
    ShapeLandmarks(c);
    TemplateLandmarks(s, DayMonthYearShape(c));
    FitsAt(s, DayMonthYearShape('-'), 2);
    FitsAt(s, DayMonthYearShape('/'), 2);
  }

  lemma ClassifyDayMonthShortYear(s: string, c: char)
    requires (c == '/' || c == '.') && Fits(s, DayMonthShortYearShape(c))
    ensures Classify(s) == DayMonthShortYear(c)
  {
    ShapeLandmarks(c);
    TemplateLandmarks(s, DayMonthShortYearShape(c));
    FitsAt(s, DayMonthShortYearShape('/'), 2);
    ShapeLandmarks('-');
    ShapeLandmarks('/');
    ShapeLandmarks('.');
  }

  lemma ClassifyMonthYearSlash(s: string)
    requires Fits(s, "dd/dddd")
    ensures Classify(s) == MonthYearSlash
  {
    TemplateLandmarks(s, "dd/dddd");
    FitsAt(s, "dddd-dd", 2);
    FitsAt(s, "dd-dddd", 2);
  }

  lemma ClassifyYearMonthDaySlash(s: string)
    requires Fits(s, "dddd/dd/dd")
    ensures Classify(s) == YearMonthDaySlash
  {
    TemplateLandmarks(s, "dddd/dd/dd");
    FitsAt(s, DayMonthYearShape('-'), 2);
    FitsAt(s, DayMonthYearShape('/'), 2);
    FitsAt(s, DayMonthYearShape('.'), 2);
    ShapeLandmarks('-');
    ShapeLandmarks('/');
    ShapeLandmarks('.');
  }

  lemma ClassifyMonthNameSlash(s: string)
    requires MonthNameSlashYear(s)
    ensures Classify(s) == MonthNameSlash
  {
    Landmarks(s);
    assert !IsDigit(s[0]);
    FitsAt(s, "dddd", 0);
    FitsAt(s, "dddd-dd", 0);
    FitsAt(s, "dd-dddd", 0);
    FitsAt(s, "dd/dddd", 0);
    FitsAt(s, "dddd/dd/dd", 0);
    ShapeLandmarks('-');
    ShapeLandmarks('/');
    ShapeLandmarks('.');
    FitsAt(s, DayMonthYearShape('-'), 0);
    FitsAt(s, DayMonthYearShape('/'), 0);
    FitsAt(s, DayMonthYearShape('.'), 0);
    FitsAt(s, DayMonthShortYearShape('/'), 0);
    FitsAt(s, DayMonthShortYearShape('.'), 0);
  }

  /** A template that starts and ends with digits keeps out the letter-led and quarter patterns. */
  lemma TemplateLandmarks(s: string, t: string)
    requires Fits(s, t) && |t| >= 6 && t[0] == 'd' && t[|t| - 2] == 'd'
    ensures !MonthNameThenYear(s) && !MonthNameSlashYear(s)
    ensures !YearThenQuarter(s) && !QuarterThenYear(s)
  {
    Landmarks(s);
    assert IsDigit(s[0]) && IsDigit(s[|s| - 2]);
  }

  /** What `Fits(s, t)` says about position `i`. */
  lemma FitsAt(s: string, t: string, i: int)
    requires 0 <= i
    ensures Fits(s, t) && i < |t| ==> if t[i] == 'd' then IsDigit(s[i]) else s[i] == t[i]
  {
  }

  lemma ShapeLandmarks(c: char)
    ensures var t := DayMonthYearShape(c); |t| == 10 && t[0] == t[8] == 'd' && t[2] == c
    ensures var t := DayMonthShortYearShape(c); |t| == 8 && t[0] == t[6] == 'd' && t[2] == c
  {
  }

  /** A `DD?MM?YYYY` text: the separator at indices 2 and 5, digits everywhere else. */
  lemma DayMonthYearLayout(s: string, c: char)
    requires (c == '-' || c == '/' || c == '.') && Fits(s, DayMonthYearShape(c))
    ensures |s| == 10 && s[2] == c && s[5] == c
    ensures forall k :: 0 <= k < 10 && k != 2 && k != 5 ==> IsDigit(s[k])
  {
    var t := DayMonthYearShape(c);
    assert t == ['d', 'd', c, 'd', 'd', c, 'd', 'd', 'd', 'd'];
    FitsAt(s, t, 2);
    FitsAt(s, t, 5);
  }

  /** `s` has the shape `YYYY-MM-DD` of an ISO 8601 calendar date in the extended format. */
  predicate IsoShaped(s: string) {
    Fits(s, "dddd-dd-dd")
  }

  /** The digits `Fits(s, t)` promises between `i` and `j`. */
  lemma FitsDigits(s: string, t: string, i: int, j: int)
    requires Fits(s, t) && 0 <= i <= j <= |t|
    requires forall k :: i <= k < j ==> t[k] == 'd'
    ensures AllDigits(s[i..j])
  {
    assert forall k :: i <= k < j ==> s[i..j][k - i] == s[k];
  }

  /** Four digits, two digits and two digits joined by hyphens make an ISO-shaped date. */
  lemma IsoFromFields(year: string, month: string, day: string)
    requires |year| == 4 && |month| == 2 && |day| == 2
    requires AllDigits(year) && AllDigits(month) && AllDigits(day)
    ensures IsoShaped(year + "-" + month + "-" + day)
  {
    var d := year + "-" + month + "-" + day;
    assert forall k :: 0 <= k < 4 ==> d[k] == year[k];
    assert forall k :: 5 <= k < 7 ==> d[k] == month[k - 5];
    assert forall k :: 8 <= k < 10 ==> d[k] == day[k - 8];
  }
}
