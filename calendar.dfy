/** Proleptic Gregorian dates as Python's `datetime` accepts them, their
    canonical `YYYY-MM-DD` text (`strftime("%Y-%m-%d")`) and the English
    month names that `%b` and `%B` recognise. */
module Calendar {
  import opened Text

  datatype Date = Date(year: int, month: int, day: int)

  predicate IsLeapYear(y: int) {
    y % 4 == 0 && (y % 100 != 0 || y % 400 == 0)
  }

  function DaysInMonth(y: int, m: int): (n: int)
    requires 1 <= m <= 12
    ensures 28 <= n <= 31
    ensures n == 29 <==> m == 2 && IsLeapYear(y)
  {
    if m == 2 then (if IsLeapYear(y) then 29 else 28)
    else if m == 4 || m == 6 || m == 9 || m == 11 then 30
    else 31
  }

  /** The dates `datetime.date(year, month, day)` constructs without raising
      ValueError: MINYEAR is 1, MAXYEAR is 9999. */
  predicate ValidDate(d: Date) {
    1 <= d.year <= 9999 && 1 <= d.month <= 12 && 1 <= d.day <= DaysInMonth(d.year, d.month)
  }

  /** No year has a 30th of February. */
  lemma NoFebruary30(y: int)
    ensures !ValidDate(Date(y, 2, 30))
  {
  }

  /** The shape `\d{4}-\d{2}-\d{2}` filling a whole string. */
  predicate IsIsoShape(s: string) {
    |s| == 10 && AllDigits(s[..4]) && s[4] == '-' && AllDigits(s[5..7]) && s[7] == '-'
    && AllDigits(s[8..])
  }

  /** Every character of a `\d{4}-\d{2}-\d{2}` text is a digit or a dash. */
  lemma IsoShapeChars(s: string)
    requires IsIsoShape(s)
    ensures forall j :: 0 <= j < 10 ==> IsDigit(s[j]) || s[j] == '-'
  {
    forall j | 0 <= j < 10 ensures IsDigit(s[j]) || s[j] == '-' {
      if j < 4 { assert s[..4][j] == s[j]; }
      else if 5 <= j < 7 { assert s[5..7][j - 5] == s[j]; }
      else if 8 <= j { assert s[8..][j - 8] == s[j]; }
    }
  }

  /** `strftime("%Y-%m-%d")` of a valid date: the year, month and day read
      back from the text are the date's own. */
  function Format(d: Date): (s: string)
    requires ValidDate(d)
    ensures IsIsoShape(s)
    ensures DigitsValue(s[..4]) == d.year && DigitsValue(s[5..7]) == d.month
    ensures DigitsValue(s[8..]) == d.day
  {
    var s := Pad4(d.year) + "-" + Pad2(d.month) + "-" + Pad2(d.day);
    assert s[..4] == Pad4(d.year) && s[5..7] == Pad2(d.month) && s[8..] == Pad2(d.day);
    s
  }

  /** The date a `\d{4}-\d{2}-\d{2}` text spells, valid or not. */
  function DateOfIso(t: string): Date
    requires IsIsoShape(t)
  {
    Date(DigitsValue(t[..4]), DigitsValue(t[5..7]), DigitsValue(t[8..]))
  }

  /** A `\d{4}-\d{2}-\d{2}` text that spells a valid date is that date's
      canonical text: formatting it again changes nothing. */
  lemma FormatOfIsoText(t: string)
    requires IsIsoShape(t) && ValidDate(DateOfIso(t))
    ensures Format(DateOfIso(t)) == t
  {
    var s := Format(DateOfIso(t));
    DigitsValueInjective(s[..4], t[..4]);
    DigitsValueInjective(s[5..7], t[5..7]);
    DigitsValueInjective(s[8..], t[8..]);
    assert s == s[..4] + [s[4]] + s[5..7] + [s[7]] + s[8..];
    assert t == t[..4] + [t[4]] + t[5..7] + [t[7]] + t[8..];
  }

  /** `%b` in the C/English locale, lower-cased (strptime matches ignoring case). */
  const MonthAbbrevs: seq<string> :=
    ["jan", "feb", "mar", "apr", "may", "jun", "jul", "aug", "sep", "oct", "nov", "dec"]

  /** `%B` in the C/English locale, lower-cased. */
  const MonthNames: seq<string> :=
    ["january", "february", "march", "april", "may", "june", "july", "august",
     "september", "october", "november", "december"]

  /** Every month abbreviation starts with a lower-case letter. */
  lemma MonthAbbrevsLower()
    ensures forall k :: 0 <= k < |MonthAbbrevs| ==> |MonthAbbrevs[k]| > 0 && 'a' <= MonthAbbrevs[k][0] <= 'z'
  {
  }

  /** Every month name starts with a lower-case letter. */
  lemma MonthNamesLower()
    ensures forall k :: 0 <= k < |MonthNames| ==> |MonthNames[k]| > 0 && 'a' <= MonthNames[k][0] <= 'z'
  {
  }
}
