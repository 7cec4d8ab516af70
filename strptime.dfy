/** `datetime.strptime` for the formats the two scripts use. A format is a
    list of directives; strptime turns each into a regular expression
    (compiled ignoring case, every run of spaces in the format becoming
    `\s+`), requires the whole input to match, and then builds the date, which
    raises ValueError for a day past the end of the month or year 0. Each
    directive here takes its longest match, which is the match the regular
    expression makes for these formats: a shorter one would leave a digit
    where a separator or the end of the input is needed. */
module Strptime {
  import opened Wrappers
  import opened Text
  import opened Calendar

  datatype Directive =
    | Year         // %Y  \d\d\d\d
    | Month        // %m  1[0-2]|0[1-9]|[1-9]
    | Day          // %d  3[01]|[12]\d|0[1-9]|[1-9]| [1-9]
    | MonthAbbrev  // %b
    | MonthName    // %B
    | Lit(c: char) // a literal character of the format
    | Spaces       // a space of the format, matched as \s+

  datatype Fields = Fields(year: Option<int>, month: Option<int>, day: Option<int>)

  const NoFields := Fields(None, None, None)

  /** The 1-based number of the month whose lower-cased name in `names`
      starts `s` (ignoring case), searching from index `i`. */
  function MonthFrom(s: string, names: seq<string>, i: nat): (r: Option<(int, nat)>)
    requires i <= |names|
    ensures r.Some? ==> 1 <= r.value.0 <= |names| && 0 < r.value.1 <= |s|
    ensures r.Some? ==> r.value.1 == |names[r.value.0 - 1]| && LowerAt(s, 0, names[r.value.0 - 1])
    decreases |names| - i
  {
    if i == |names| then None
    else if |names[i]| > 0 && LowerAt(s, 0, names[i]) then Some((i + 1, |names[i]|))
    else MonthFrom(s, names, i + 1)
  }

  /** `%m` at the start of `s`: the month number and how many characters it takes. */
  function MonthDigits(s: string): (r: Option<(int, nat)>)
    ensures r.Some? ==> 1 <= r.value.0 <= 12 && 1 <= r.value.1 <= 2 && r.value.1 <= |s|
  {
    if |s| >= 2 && s[0] == '1' && '0' <= s[1] <= '2' then Some((10 + DigitValue(s[1]), 2))
    else if |s| >= 2 && s[0] == '0' && '1' <= s[1] <= '9' then Some((DigitValue(s[1]), 2))
    else if |s| >= 1 && '1' <= s[0] <= '9' then Some((DigitValue(s[0]), 1))
    else None
  }

  /** `%d` at the start of `s`: the day number and how many characters it takes. */
  function DayDigits(s: string): (r: Option<(int, nat)>)
    ensures r.Some? ==> 1 <= r.value.0 <= 31 && 1 <= r.value.1 <= 2 && r.value.1 <= |s|
  {
    if |s| >= 2 && s[0] == '3' && '0' <= s[1] <= '1' then Some((30 + DigitValue(s[1]), 2))
    else if |s| >= 2 && '1' <= s[0] <= '2' && IsDigit(s[1]) then Some((DigitValue(s[0]) * 10 + DigitValue(s[1]), 2))
    else if |s| >= 2 && s[0] == '0' && '1' <= s[1] <= '9' then Some((DigitValue(s[1]), 2))
    else if |s| >= 1 && '1' <= s[0] <= '9' then Some((DigitValue(s[0]), 1))
    else if |s| >= 2 && s[0] == ' ' && '1' <= s[1] <= '9' then Some((DigitValue(s[1]), 2))
    else None
  }

  /** One directive against the start of `s`: the fields so far, updated, and
      the input left over; None when the directive does not match. */
  function Step(d: Directive, s: string, f: Fields): (r: Option<(Fields, string)>)
    ensures r.Some? ==> |r.value.1| < |s| && r.value.1 == s[|s| - |r.value.1|..]
  {
    match d
    case Year =>
      if |s| >= 4 && AllDigits(s[..4]) then Some((f.(year := Some(DigitsValue(s[..4]))), s[4..])) else None
    case Month =>
      (match MonthDigits(s)
       case Some((m, n)) => Some((f.(month := Some(m)), s[n..]))
       case None => None)
    case Day =>
      (match DayDigits(s)
       case Some((v, n)) => Some((f.(day := Some(v)), s[n..]))
       case None => None)
    case MonthAbbrev =>
      (match MonthFrom(s, MonthAbbrevs, 0)
       case Some((m, n)) => Some((f.(month := Some(m)), s[n..]))
       case None => None)
    case MonthName =>
      (match MonthFrom(s, MonthNames, 0)
       case Some((m, n)) => Some((f.(month := Some(m)), s[n..]))
       case None => None)
    case Lit(c) =>
      if |s| > 0 && s[0] == c then Some((f, s[1..])) else None
    case Spaces =>
      var n := SpaceRun(s, 0);
      if n > 0 then Some((f, s[n..])) else None
  }

  /** All directives of `fmt` in turn. */
  function Match(fmt: seq<Directive>, s: string, f: Fields): Option<(Fields, string)>
    decreases |fmt|
  {
    if fmt == [] then Some((f, s))
    else
      match Step(fmt[0], s, f)
      case Some((f', rest)) => Match(fmt[1..], rest, f')
      case None => None
  }

  /** A format whose first directive succeeds goes on with the rest. */
  lemma MatchCons(fmt: seq<Directive>, s: string, f: Fields)
    requires fmt != [] && Step(fmt[0], s, f).Some?
    ensures Match(fmt, s, f) == Match(fmt[1..], Step(fmt[0], s, f).value.1, Step(fmt[0], s, f).value.0)
  {
  }

  /** `datetime.strptime(s, fmt)`, None standing for the ValueError it raises. */
  function Parse(s: string, fmt: seq<Directive>): (r: Option<Date>)
    ensures r.Some? ==> ValidDate(r.value)
  {
    match Match(fmt, s, NoFields)
    case Some((Fields(Some(y), Some(m), Some(d)), rest)) =>
      if rest == [] && ValidDate(Date(y, m, d)) then Some(Date(y, m, d)) else None
    case _ => None
  }

  /** `\s+` over a single space. */
  lemma OneSpaceStep(t: string, f: Fields)
    requires |t| >= 2 && t[0] == ' ' && !IsSpace(t[1])
    ensures Step(Spaces, t, f) == Some((f, t[1..]))
  {
    assert SpaceRun(t, 1) == 0;
  }

  /** A format whose first directive fails raises. */
  lemma FirstStepFails(s: string, fmt: seq<Directive>)
    requires fmt != [] && Step(fmt[0], s, NoFields).None?
    ensures Parse(s, fmt).None?
  {
  }

  /** Text that fills the format with a date the calendar lacks raises. */
  lemma ParseInvalid(s: string, fmt: seq<Directive>, y: int, m: int, d: int)
    requires Match(fmt, s, NoFields) == Some((Fields(Some(y), Some(m), Some(d)), []))
    requires !ValidDate(Date(y, m, d))
    ensures Parse(s, fmt).None?
  {
  }

  const IsoFormat: seq<Directive> := [Year, Lit('-'), Month, Lit('-'), Day]                 // '%Y-%m-%d'
  const AbbrevDayCommaYear: seq<Directive> := [MonthAbbrev, Spaces, Day, Lit(','), Spaces, Year] // '%b %d, %Y'
  const NameDayCommaYear: seq<Directive> := [MonthName, Spaces, Day, Lit(','), Spaces, Year]     // '%B %d, %Y'
  const DayAbbrevYear: seq<Directive> := [Day, Spaces, MonthAbbrev, Spaces, Year]              // '%d %b %Y'
  const DayNameYear: seq<Directive> := [Day, Spaces, MonthName, Spaces, Year]                  // '%d %B %Y'
  const AbbrevDayYear: seq<Directive> := [MonthAbbrev, Spaces, Day, Spaces, Year]              // '%b %d %Y'
  const SlashFormat: seq<Directive> := [Month, Lit('/'), Day, Lit('/'), Year]                  // '%m/%d/%Y'

  /** Parsing a date's canonical text with '%Y-%m-%d' gives the date back. */
  lemma ParseFormatRoundTrip(d: Date)
    requires ValidDate(d)
    ensures Parse(Format(d), IsoFormat) == Some(d)
  {
    var s := Format(d);
    assert s[5..][..2] == s[5..7] && s[8..][..2] == s[8..];
    TwoDigitMonth(s[5..]);
    TwoDigitDay(s[8..]);
    IsoTextMatch(s, d.month, d.day);
  }

  /** `%m` over two digits naming a month. */
  lemma TwoDigitMonth(t: string)
    requires |t| >= 2 && AllDigits(t[..2]) && 1 <= DigitsValue(t[..2]) <= 12
    ensures MonthDigits(t) == Some((DigitsValue(t[..2]), 2))
  {
    TwoDigitsValue(t[..2]);
  }

  /** `%d` over two digits naming a day. */
  lemma TwoDigitDay(t: string)
    requires |t| >= 2 && AllDigits(t[..2]) && 1 <= DigitsValue(t[..2]) <= 31
    ensures DayDigits(t) == Some((DigitsValue(t[..2]), 2))
  {
    TwoDigitsValue(t[..2]);
  }

  /** `%Y-%m-%d` over four digits, `-`, a month, `-` and a day that end the text. */
  lemma IsoTextMatch(s: string, m: int, dd: int)
    requires |s| == 10 && AllDigits(s[..4]) && s[4] == '-' && s[7] == '-'
    requires MonthDigits(s[5..]) == Some((m, 2)) && DayDigits(s[8..]) == Some((dd, 2))
    ensures Match(IsoFormat, s, NoFields) == Some((Fields(Some(DigitsValue(s[..4])), Some(m), Some(dd)), []))
  {
    var fmt := IsoFormat;
    var f1 := NoFields.(year := Some(DigitsValue(s[..4])));
    var f2 := f1.(month := Some(m));
    var t4, t5, t7, t8 := s[4..], s[5..], s[7..], s[8..];
    assert t4[1..] == t5 && t5[2..] == t7 && t7[1..] == t8 && t8[2..] == [];
    assert Step(Year, s, NoFields) == Some((f1, t4));
    MatchCons(fmt, s, NoFields);
    MatchCons(fmt[1..], t4, f1);
    assert Step(Month, t5, f1) == Some((f2, t7));
    MatchCons(fmt[1..][1..], t5, f1);
    MatchCons(fmt[1..][1..][1..], t7, f2);
    MatchCons(fmt[1..][1..][1..][1..], t8, f2);
    assert fmt[1..][1..][1..][1..][1..] == [];
  }

  /** A format whose only `%Y` is its last directive takes the year from the
      last four characters of a fully consumed input, which must be digits. */
  lemma {:induction false} MatchYearLast(fmt: seq<Directive>, s: string, f: Fields)
    requires |fmt| > 0 && fmt[|fmt| - 1] == Year
    requires forall j :: 0 <= j < |fmt| - 1 ==> fmt[j] != Year
    requires Match(fmt, s, f).Some? && Match(fmt, s, f).value.1 == []
    ensures |s| >= 4 && AllDigits(s[|s| - 4..])
    ensures Match(fmt, s, f).value.0.year == Some(DigitsValue(s[|s| - 4..]))
    decreases |fmt|
  {
    var (f1, s1) := Step(fmt[0], s, f).value;
    MatchCons(fmt, s, f);
    if |fmt| == 1 {
      assert fmt[1..] == [];
      assert s1 == s[4..] && s1 == [];
      assert s[|s| - 4..] == s[..4];
    } else {
      assert fmt[1..][|fmt[1..]| - 1] == Year;
      MatchYearLast(fmt[1..], s1, f1);
      assert s1[|s1| - 4..] == s[|s| - 4..];
    }
  }

  /** A format whose only `%Y` is its last directive. */
  predicate YearLast(fmt: seq<Directive>) {
    |fmt| > 0 && fmt[|fmt| - 1] == Year && forall j :: 0 <= j < |fmt| - 1 ==> fmt[j] != Year
  }

  lemma AbbrevDayYearIsYearLast()
    ensures YearLast(AbbrevDayYear)
  {
  }

  /** The year `Parse` reads with such a format is the input's last four digits. */
  lemma ParseYearLast(s: string, fmt: seq<Directive>)
    requires YearLast(fmt)
    requires Parse(s, fmt).Some?
    ensures |s| >= 4 && AllDigits(s[|s| - 4..]) && Parse(s, fmt).value.year == DigitsValue(s[|s| - 4..])
  {
    MatchYearLast(fmt, s, NoFields);
  }

  // ---------------------------------------------------------------------
  // Each directive on its own: what it reads from a text of known shape.
  // ---------------------------------------------------------------------

  /** The first three letters of `s`, ignoring case, abbreviate month `m`. */
  predicate NamesAbbrev(s: string, m: int) {
    1 <= m <= 12 && |s| >= 3 && Lower(s[..3]) == MonthAbbrevs[m - 1]
  }

  /** No two months share an abbreviation. */
  lemma AbbrevsDistinct()
    ensures forall i, j :: 0 <= i < j < |MonthAbbrevs| ==> MonthAbbrevs[i] != MonthAbbrevs[j]
  {
  }

  /** The 1-based position of `x` in `xs`, searching from index `i`. */
  function PositionFrom(xs: seq<string>, x: string, i: nat): (r: Option<int>)
    requires i <= |xs|
    ensures r.Some? ==> i < r.value <= |xs| && xs[r.value - 1] == x
    ensures r.None? ==> forall j :: i <= j < |xs| ==> xs[j] != x
    decreases |xs| - i
  {
    if i == |xs| then None
    else if xs[i] == x then Some(i + 1)
    else PositionFrom(xs, x, i + 1)
  }

  /** The month the first three letters of `s` abbreviate, if any: the one
      month `NamesAbbrev` allows. */
  function AbbrevMonth(s: string): (m: Option<int>)
    ensures forall k :: NamesAbbrev(s, k) <==> m == Some(k)
  {
    AbbrevsDistinct();
    if |s| < 3 then None else PositionFrom(MonthAbbrevs, Lower(s[..3]), 0)
  }

  /** A failed name search found no name at the start of `s`. */
  lemma {:induction false} MonthFromNone(s: string, names: seq<string>, i: nat)
    requires i <= |names| && MonthFrom(s, names, i).None?
    ensures forall j :: i <= j < |names| ==> |names[j]| == 0 || !LowerAt(s, 0, names[j])
    decreases |names| - i
  {
    if i < |names| {
      MonthFromNone(s, names, i + 1);
    }
  }

  /** `%b` reads the month the first three letters abbreviate and takes them. */
  lemma AbbrevStep(s: string, f: Fields)
    ensures AbbrevMonth(s).None? ==> Step(MonthAbbrev, s, f).None?
    ensures AbbrevMonth(s).Some? ==>
      |s| >= 3 && Step(MonthAbbrev, s, f) == Some((f.(month := AbbrevMonth(s)), s[3..]))
  {
    match MonthFrom(s, MonthAbbrevs, 0)
    case Some((m, n)) =>
      assert |MonthAbbrevs[m - 1]| == 3;
      assert s[0 .. 3] == s[..3];
      assert NamesAbbrev(s, m);
    case None =>
      MonthFromNone(s, MonthAbbrevs, 0);
      if AbbrevMonth(s).Some? {
        var m := AbbrevMonth(s).value;
        assert NamesAbbrev(s, m);
        assert s[0 .. 3] == s[..3];
        assert LowerAt(s, 0, MonthAbbrevs[m - 1]);
      }
  }

  /** `%b` first: the rest of the format goes on after the three letters. */
  lemma AbbrevThen(fmt: seq<Directive>, s: string, f: Fields)
    requires fmt != [] && fmt[0] == MonthAbbrev
    ensures AbbrevMonth(s).None? ==> Match(fmt, s, f).None?
    ensures AbbrevMonth(s).Some? ==>
      |s| >= 3 && Match(fmt, s, f) == Match(fmt[1..], s[3..], f.(month := AbbrevMonth(s)))
  {
    AbbrevStep(s, f);
  }

  /** The spaces that begin `s`, exactly `w` of them. */
  predicate SpacesFor(s: string, w: nat) {
    0 < w <= |s| && (forall k :: 0 <= k < w ==> IsSpace(s[k])) && (w == |s| || !IsSpace(s[w]))
  }

  /** `\s+` first: the rest of the format goes on after the whole run. */
  lemma SpacesThen(fmt: seq<Directive>, s: string, f: Fields, w: nat)
    requires fmt != [] && fmt[0] == Spaces && SpacesFor(s, w)
    ensures Match(fmt, s, f) == Match(fmt[1..], s[w..], f)
  {
    SpaceRunExact(s, 0, w);
  }

  /** A literal first, standing at the start of `s`. */
  lemma LitThen(fmt: seq<Directive>, s: string, f: Fields)
    requires fmt != [] && fmt[0].Lit? && s != [] && s[0] == fmt[0].c
    ensures Match(fmt, s, f) == Match(fmt[1..], s[1..], f)
  {
  }

  /** A directive that cannot start on a digit: `\s+` or a literal non-digit. */
  predicate IsSeparator(d: Directive) {
    d == Spaces || (d.Lit? && !IsDigit(d.c))
  }

  /** The digits that begin `s`, exactly `n` of them, one or two. */
  predicate DigitsFor(s: string, n: nat) {
    1 <= n <= 2 && n <= |s| && AllDigits(s[..n]) && (n == |s| || !IsDigit(s[n]))
  }

  /** `%d` takes the whole run of digits exactly when its number is a day
      number; otherwise it fails or leaves a digit behind. */
  lemma DayOfDigits(s: string, n: nat)
    requires DigitsFor(s, n)
    ensures 1 <= DigitsValue(s[..n]) <= 31 ==> DayDigits(s) == Some((DigitsValue(s[..n]), n))
    ensures !(1 <= DigitsValue(s[..n]) <= 31) ==>
      DayDigits(s).None? || (DayDigits(s).value.1 < n && IsDigit(s[DayDigits(s).value.1]))
  {
    assert IsDigit(s[..n][0]) && s[..n][0] == s[0];
    if n == 2 {
      assert IsDigit(s[..n][1]) && s[..n][1] == s[1];
      TwoDigitsValue(s[..n]);
    } else {
      assert s[..n] == [s[0]];
      OneDigitValue(s[..n]);
    }
  }

  /** `%m` takes the whole run of digits exactly when its number is a month
      number; otherwise it fails or leaves a digit behind. */
  lemma MonthOfDigits(s: string, n: nat)
    requires DigitsFor(s, n)
    ensures 1 <= DigitsValue(s[..n]) <= 12 ==> MonthDigits(s) == Some((DigitsValue(s[..n]), n))
    ensures !(1 <= DigitsValue(s[..n]) <= 12) ==>
      MonthDigits(s).None? || (MonthDigits(s).value.1 < n && IsDigit(s[MonthDigits(s).value.1]))
  {
    assert IsDigit(s[..n][0]) && s[..n][0] == s[0];
    if n == 2 {
      assert IsDigit(s[..n][1]) && s[..n][1] == s[1];
      TwoDigitsValue(s[..n]);
    } else {
      assert s[..n] == [s[0]];
      OneDigitValue(s[..n]);
    }
  }

  /** A separator directive does not match where a digit stands. */
  lemma SeparatorAtDigit(fmt: seq<Directive>, s: string, f: Fields)
    requires fmt != [] && IsSeparator(fmt[0]) && s != [] && IsDigit(s[0])
    ensures Match(fmt, s, f).None?
  {
  }

  /** `%d` and then a separator over a run of digits: they go on after the
      run exactly when it is a day number. */
  lemma DayThen(fmt: seq<Directive>, s: string, f: Fields, n: nat)
    requires |fmt| >= 2 && fmt[0] == Day && IsSeparator(fmt[1]) && DigitsFor(s, n)
    ensures 1 <= DigitsValue(s[..n]) <= 31 ==>
      Match(fmt, s, f) == Match(fmt[1..], s[n..], f.(day := Some(DigitsValue(s[..n]))))
    ensures !(1 <= DigitsValue(s[..n]) <= 31) ==> Match(fmt, s, f).None?
  {
    DayOfDigits(s, n);
    match DayDigits(s)
    case None =>
    case Some((v, k)) =>
      if k < n {
        SeparatorAtDigit(fmt[1..], s[k..], f.(day := Some(v)));
      }
  }

  /** `%m` and then a separator over a run of digits: they go on after the
      run exactly when it is a month number. */
  lemma MonthThen(fmt: seq<Directive>, s: string, f: Fields, n: nat)
    requires |fmt| >= 2 && fmt[0] == Month && IsSeparator(fmt[1]) && DigitsFor(s, n)
    ensures 1 <= DigitsValue(s[..n]) <= 12 ==>
      Match(fmt, s, f) == Match(fmt[1..], s[n..], f.(month := Some(DigitsValue(s[..n]))))
    ensures !(1 <= DigitsValue(s[..n]) <= 12) ==> Match(fmt, s, f).None?
  {
    MonthOfDigits(s, n);
    match MonthDigits(s)
    case None =>
    case Some((v, k)) =>
      if k < n {
        SeparatorAtDigit(fmt[1..], s[k..], f.(month := Some(v)));
      }
  }

  /** `%Y` last: four digits, and whatever follows them is left over. */
  lemma YearEnd(fmt: seq<Directive>, s: string, f: Fields)
    requires fmt == [Year]
    ensures Match(fmt, s, f) ==
      if |s| >= 4 && AllDigits(s[..4]) then Some((f.(year := Some(DigitsValue(s[..4]))), s[4..])) else None
  {
    assert fmt[1..] == [];
  }
}
