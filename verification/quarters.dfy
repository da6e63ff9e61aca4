/**
 * The quarter branch of `parseToStandardDate` (src/utils/utilities.ts): `2026 Q4`,
 * `2026-Q4`, `Q4 2027`, `Q4-2027` become the first day of the quarter.
 */
module Quarters {
  import opened Wrappers
  import opened Chars
  import opened DateForms

  /** `quarterMap`: the month and day a quarter starts on. */
  function QuarterStart(q: char): (md: string)
    requires QuarterDigit(q)
  {
    match q
    case '1' => "01-01"
    case '2' => "04-01"
    case '3' => "07-01"
    case '4' => "10-01"
  }

  /** Quarter `n` starts on day 01 of month `3n - 2`. */
  lemma QuarterStartMonth(q: char)
    requires QuarterDigit(q)
    ensures var md := QuarterStart(q);
      && |md| == 5 && Fits(md[..2], "dd") && md[2..] == "-01"
      && DigitsValue(md[..2]) == 3 * (q as int - '0' as int) - 2
  {
    var md := QuarterStart(q);
    assert md[..2][..1] == md[..1];
  }

  /**
   * The year and the quarter digit, read from where the matched pattern put them. The quarter
   * digit is the one `/Q[1-4]/i` finds, so only the year's position differs from the code.
   */
  function QuarterFields(s: string): (yq: (string, char))
    requires YearThenQuarter(s) || QuarterThenYear(s)
    ensures Fits(yq.0, "dddd") && QuarterDigit(yq.1)
    ensures yq.0 == s[..4] || yq.0 == s[|s| - 4..]
    ensures FirstQuarter(s).Some? && yq.1 == s[FirstQuarter(s).value + 1]
  {
    FirstQuarterMatched(s);
    if YearThenQuarter(s) then (s[..4], s[|s| - 1]) else (s[|s| - 4..], s[1])
  }

  /** The quarter branch as it is evidently meant: the matched year, then the quarter's first day. */
  function QuarterDate(s: string): (d: string)
    requires YearThenQuarter(s) || QuarterThenYear(s)
    ensures IsoShaped(d)
    ensures d[..4] == s[..4] || d[..4] == s[|s| - 4..]
    ensures FirstQuarter(s).Some? && d[5..] == QuarterStart(s[FirstQuarter(s).value + 1])
  {
    var (year, q) := QuarterFields(s);
    QuarterStartMonth(q);
    var md := QuarterStart(q);
    assert md == md[..2] + "-01";
    IsoFromFields(year, md[..2], "01");
    year + "-" + md
  }

  /** Four digits start at index `i` of `s`. */
  predicate FourDigitsAt(s: string, i: int) {
    0 <= i && i + 4 <= |s| && AllDigits(s[i..i + 4])
  }

  /** `s.match(/\d{4}/)`: where the leftmost run of four digits starts. */
  function FirstFourDigits(s: string): (r: Option<nat>)
    ensures r.Some? ==> FourDigitsAt(s, r.value)
    ensures r.Some? ==> forall j :: 0 <= j < r.value ==> !FourDigitsAt(s, j)
    ensures r.None? ==> forall j :: !FourDigitsAt(s, j)
    decreases |s|
  {
    if |s| < 4 then None
    else if AllDigits(s[..4]) then (assert s[0..4] == s[..4]; Some(0))
    else
      assert !FourDigitsAt(s, 0) by { assert s[0..4] == s[..4]; }
      ShiftFourDigits(s);
      match FirstFourDigits(s[1..])
      case None => None
      case Some(i) => Some(i + 1)
  }

  lemma ShiftFourDigits(s: string)
    requires |s| > 0
    ensures forall j :: 0 < j ==> (FourDigitsAt(s, j) <==> FourDigitsAt(s[1..], j - 1))
  {
    forall j | 0 < j
      ensures FourDigitsAt(s, j) <==> FourDigitsAt(s[1..], j - 1)
    {
      if j + 4 <= |s| {
        assert s[j..j + 4] == s[1..][j - 1..j + 3];
      }
    }
  }

  /** `Q[1-4]`, case-insensitive, starts at index `i` of `s`. */
  predicate QuarterAt(s: string, i: int) {
    0 <= i && i + 1 < |s| && QuarterLetter(s[i]) && QuarterDigit(s[i + 1])
  }

  /** `s.match(/Q[1-4]/i)`: where the leftmost quarter token starts. */
  function FirstQuarter(s: string): (r: Option<nat>)
    ensures r.Some? ==> QuarterAt(s, r.value)
    ensures r.Some? ==> forall j :: 0 <= j < r.value ==> !QuarterAt(s, j)
    ensures r.None? ==> forall j :: !QuarterAt(s, j)
    decreases |s|
  {
    if |s| < 2 then None
    else if QuarterAt(s, 0) then Some(0)
    else
      assert forall j :: 0 < j ==> (QuarterAt(s, j) <==> QuarterAt(s[1..], j - 1));
      match FirstQuarter(s[1..])
      case None => None
      case Some(i) => Some(i + 1)
  }

  /** Where `/Q[1-4]/i` finds its token in a text the quarter pattern matched. */
  lemma FirstQuarterMatched(s: string)
    requires YearThenQuarter(s) || QuarterThenYear(s)
    ensures FirstQuarter(s) == Some(if YearThenQuarter(s) then |s| - 2 else 0)
  {
    if YearThenQuarter(s) {
      assert forall j :: 0 <= j < |s| - 2 ==> !QuarterLetter(s[j]) by {
        forall j | 0 <= j < |s| - 2
          ensures !QuarterLetter(s[j])
        {
          if j < 4 {
            assert s[..4][j] == s[j];
          } else {
            assert s[4..|s| - 2][j - 4] == s[j];
          }
        }
      }
      assert QuarterAt(s, |s| - 2);
      assert forall j :: 0 <= j < |s| - 2 ==> !QuarterAt(s, j);
    }
  }

  /**
   * The quarter branch as written: the year is whatever `/\d{4}/` finds first, the quarter
   * whatever `/Q[1-4]/i` finds first.
   */
  function QuarterDateAsWritten(s: string): (d: string)
    requires YearThenQuarter(s) || QuarterThenYear(s)
    ensures IsoShaped(d)
  {
    assert FourDigitsAt(s, 0) || FourDigitsAt(s, |s| - 4) by {
      if YearThenQuarter(s) {
        assert s[0..4] == s[..4];
      } else {
        assert s[|s| - 4..|s|] == s[|s| - 4..];
      }
    }
    FirstQuarterMatched(s);
    QuarterDateFrom(s, FirstFourDigits(s).value, FirstQuarter(s).value)
  }

  /** The date built from the four digits at `y` and the quarter token at `q`. */
  function QuarterDateFrom(s: string, y: nat, q: nat): (d: string)
    requires FourDigitsAt(s, y) && QuarterAt(s, q)
    ensures IsoShaped(d)
  {
    var year := s[y..y + 4];
    QuarterStartMonth(s[q + 1]);
    var md := QuarterStart(s[q + 1]);
    assert md == md[..2] + "-01";
    assert Fits(year, "dddd");
    IsoFromFields(year, md[..2], "01");
    year + "-" + md
  }

  /**
   * With a separator between the quarter and a trailing year, or with the year in front,
   * the code as written agrees with the intended reading.
   */
  lemma QuarterAsWrittenAgrees(s: string)
    requires YearThenQuarter(s) || QuarterThenYear(s)
    requires QuarterThenYear(s) ==> |s| > 6
    ensures QuarterDateAsWritten(s) == QuarterDate(s)
  {
    FirstQuarterMatched(s);
    if YearThenQuarter(s) {
      assert FourDigitsAt(s, 0) by { assert s[0..4] == s[..4]; }
      assert s[0..4] == s[..4];
    } else {
      var sep := s[2..|s| - 4];
      assert |sep| > 0 && !IsDigit(sep[|sep| - 1]);
      assert s[|s| - 5] == sep[|sep| - 1];
      assert forall j :: 0 <= j < |s| - 4 ==> !FourDigitsAt(s, j) by {
        forall j | 0 <= j < |s| - 4
          ensures !FourDigitsAt(s, j)
        {
          if j + 4 <= |s| {
            assert s[j..j + 4][|s| - 5 - j] == s[|s| - 5];
          }
        }
      }
      assert s[|s| - 4..|s|] == s[|s| - 4..];
      assert FourDigitsAt(s, |s| - 4);
      assert FirstFourDigits(s) == Some(|s| - 4);
    }
  }

  /**
   * The code as written misreads `Q12026`, which its pattern accepts: the first four digits
   * are `1202`, so it answers 1202-01-01 instead of 2026-01-01.
   */
  lemma QuarterAsWrittenMisreads()
    ensures QuarterThenYear("Q12026")
    ensures QuarterDateAsWritten("Q12026") == "1202-01-01"
    ensures QuarterDate("Q12026") == "2026-01-01"
  {
    var s := "Q12026";
    assert s[2..|s| - 4] == "";
    assert s[|s| - 4..] == "2026";
    assert AllDigits(s[|s| - 4..]);
    assert !YearThenQuarter(s);
    assert s[1..5] == "1202";
    assert FourDigitsAt(s, 1);
    assert !FourDigitsAt(s, 0) by {
      assert s[0..4][0] == 'Q';
    }
    assert FirstFourDigits(s) == Some(1);
    assert FirstQuarter(s) == Some(0);
  }

  /**
   * With no separator after `Qn`, the code as written reads the year from the quarter digit
   * and the first three digits of the real year.
   */
  lemma QuarterAsWrittenUnseparated(s: string)
    requires QuarterThenYear(s) && |s| == 6
    ensures QuarterDateAsWritten(s) == s[1..5] + "-" + QuarterStart(s[1])
  {
    assert !YearThenQuarter(s) by {
      assert !IsDigit(s[0]);
      assert s[..4][0] == s[0];
    }
    assert s[2..] == s[|s| - 4..];
    assert FourDigitsAt(s, 1) by {
      forall j | 0 <= j < 4
        ensures IsDigit(s[1..5][j])
      {
        if j > 0 {
          assert s[1..5][j] == s[2..][j - 1];
        }
      }
    }
    assert !FourDigitsAt(s, 0) by {
      assert s[0..4][0] == s[0];
    }
    assert FirstFourDigits(s) == Some(1);
    assert FirstQuarter(s) == Some(0);
  }
}
