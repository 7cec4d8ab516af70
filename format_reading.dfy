/** What `standardize_time`'s day-and-month-name formats read. A text spelling
    a month in full or by its abbreviation, in any case, a one- or two-digit
    day and a four-digit year, laid out as `%B %d, %Y`, `%d %b %Y` or
    `%d %B %Y` lays it out, is read as exactly that month, day and year when
    the calendar has the date, and raises otherwise. The example dates the
    conversion script gives for these formats are then keyed through
    `standardize_time` itself. */
module FormatReading {
  import opened Wrappers
  import opened Text
  import opened Calendar
  import opened Strptime
  import opened DateReading
  import opened Convert

  // ---------------------------------------------------------------------
  // Month names.
  // ---------------------------------------------------------------------

  /** Every month's full name begins with its abbreviation. */
  lemma NamesStartWithAbbrevs()
    ensures forall j :: 0 <= j < |MonthNames| ==> |MonthNames[j]| >= 3 && MonthNames[j][..3] == MonthAbbrevs[j]
  {
  }

  /** Lower-casing commutes with taking a prefix. */
  lemma LowerPrefix(x: string, k: nat)
    requires k <= |x|
    ensures Lower(x)[..k] == Lower(x[..k])
  {
  }

  /** The name search finds the first name, from `i` on, that starts `s`. */
  lemma {:induction false} MonthFromFinds(s: string, names: seq<string>, i: nat, k: nat)
    requires i <= k < |names| && |names[k]| > 0 && LowerAt(s, 0, names[k])
    requires forall j :: i <= j < k ==> |names[j]| == 0 || !LowerAt(s, 0, names[j])
    ensures MonthFrom(s, names, i) == Some((k + 1, |names[k]|))
    decreases k - i
  {
    if i < k {
      MonthFromFinds(s, names, i + 1, k);
    }
  }

  /** The name search fails when no name from `i` on starts `s`. */
  lemma {:induction false} MonthFromMisses(s: string, names: seq<string>, i: nat)
    requires i <= |names|
    requires forall j :: i <= j < |names| ==> !LowerAt(s, 0, names[j])
    ensures MonthFrom(s, names, i).None?
    decreases |names| - i
  {
    if i < |names| {
      MonthFromMisses(s, names, i + 1);
    }
  }

  /** Only month `m`'s name can start a text whose first three letters, in
      any case, abbreviate month `m`. */
  lemma OnlyThatName(s: string, m: int, j: nat)
    requires 1 <= m <= 12 && |s| >= 3 && Lower(s[..3]) == MonthAbbrevs[m - 1]
    requires j < |MonthNames| && LowerAt(s, 0, MonthNames[j])
    ensures j == m - 1
  {
    NamesStartWithAbbrevs();
    var n := MonthNames[j];
    var p := s[0 .. |n|];
    LowerPrefix(p, 3);
    assert p[..3] == s[..3];
    assert MonthAbbrevs[j] == MonthAbbrevs[m - 1];
    AbbrevsDistinct();
  }

  /** `%B` over a month written in full, in any case: that month, and the
      text after the name is left. */
  lemma NameStep(w: string, rest: string, m: int, f: Fields)
    requires 1 <= m <= 12 && Lower(w) == MonthNames[m - 1]
    ensures Step(MonthName, w + rest, f) == Some((f.(month := Some(m)), rest))
  {
    var s := w + rest;
    NamesStartWithAbbrevs();
    assert s[0 .. |w|] == w;
    LowerPrefix(w, 3);
    assert s[..3] == w[..3];
    forall j | 0 <= j < m - 1 ensures !LowerAt(s, 0, MonthNames[j]) {
      if LowerAt(s, 0, MonthNames[j]) {
        OnlyThatName(s, m, j);
      }
    }
    MonthFromFinds(s, MonthNames, 0, m - 1);
    assert s[|w|..] == rest;
  }

  /** `%b` over a month abbreviation, in any case: that month, and the text
      after the three letters is left. */
  lemma AbbrevWordStep(w: string, rest: string, m: int, f: Fields)
    requires 1 <= m <= 12 && Lower(w) == MonthAbbrevs[m - 1]
    ensures Step(MonthAbbrev, w + rest, f) == Some((f.(month := Some(m)), rest))
  {
    var s := w + rest;
    assert s[..3] == w;
    assert NamesAbbrev(s, m);
    AbbrevStep(s, f);
    assert s[3..] == rest;
  }

  /** A month directive does not match where a digit stands. */
  lemma MonthAtDigit(s: string, f: Fields)
    requires s != [] && IsDigit(s[0])
    ensures Step(MonthAbbrev, s, f).None? && Step(MonthName, s, f).None?
  {
    MonthAbbrevsLower();
    MonthNamesLower();
    forall j | 0 <= j < |MonthAbbrevs| ensures !LowerAt(s, 0, MonthAbbrevs[j]) {
      NotLowerAtHead(s, 0, MonthAbbrevs[j]);
    }
    forall j | 0 <= j < |MonthNames| ensures !LowerAt(s, 0, MonthNames[j]) {
      NotLowerAtHead(s, 0, MonthNames[j]);
    }
    MonthFromMisses(s, MonthAbbrevs, 0);
    MonthFromMisses(s, MonthNames, 0);
  }

  // ---------------------------------------------------------------------
  // Digits and separators.
  // ---------------------------------------------------------------------

  /** The written day digits `dd` before a text that does not start with a
      digit. */
  predicate DayText(dd: string) {
    1 <= |dd| <= 2 && AllDigits(dd)
  }

  /** `%d` and a separator over the day digits `dd`: they go on after them
      exactly when `dd` writes a day number. */
  lemma DayWordThen(fmt: seq<Directive>, dd: string, rest: string, f: Fields)
    requires |fmt| >= 2 && fmt[0] == Day && IsSeparator(fmt[1])
    requires DayText(dd) && rest != [] && !IsDigit(rest[0])
    ensures 1 <= DigitsValue(dd) <= 31 ==>
      Match(fmt, dd + rest, f) == Match(fmt[1..], rest, f.(day := Some(DigitsValue(dd))))
    ensures !(1 <= DigitsValue(dd) <= 31) ==> Match(fmt, dd + rest, f).None?
  {
    var s := dd + rest;
    var n := |dd|;
    assert s[..n] == dd && s[n..] == rest;
    assert n == |s| || s[n] == rest[0];
    DayThen(fmt, s, f, n);
  }

  /** `\s+` over one space before something else. */
  lemma OneSpaceThen(fmt: seq<Directive>, rest: string, f: Fields)
    requires fmt != [] && fmt[0] == Spaces && rest != [] && !IsSpace(rest[0])
    ensures Match(fmt, " " + rest, f) == Match(fmt[1..], rest, f)
  {
    var u := " " + rest;
    assert SpacesFor(u, 1) by { assert u[1] == rest[0]; }
    SpacesThen(fmt, u, f, 1);
    assert u[1..] == rest;
  }

  /** `%Y` over exactly four digits ends the parse with that year. */
  lemma YearWord(yy: string, f: Fields)
    requires |yy| == 4 && AllDigits(yy)
    ensures Match([Year], yy, f) == Some((f.(year := Some(DigitsValue(yy))), []))
  {
    assert yy[..4] == yy && yy[4..] == [];
    YearEnd([Year], yy, f);
  }

  /** A day number that no month has makes no valid date. */
  lemma NoSuchDay(y: int, m: int, d: int)
    requires !(1 <= d <= 31)
    ensures DateIfValid(y, m, d).None?
  {
  }

  // ---------------------------------------------------------------------
  // The three formats.
  // ---------------------------------------------------------------------

  /** Concatenation groups either way. */
  lemma Nest(a: string, b: string, c: string, d: string, e: string)
    ensures a + b + c + d + e == a + (b + (c + (d + e)))
  {
  }

  /** The fields a full parse of day `d`, month `m` and year `y` leaves. */
  function Read(y: int, m: int, d: int): Fields {
    Fields(Some(y), Some(m), Some(d))
  }

  /** `\s+%Y` over one space and four digits ends the parse with that year. */
  lemma SpaceYear(fmt: seq<Directive>, yy: string, f: Fields)
    requires fmt == [Spaces, Year] && |yy| == 4 && AllDigits(yy)
    ensures Match(fmt, " " + yy, f) == Some((f.(year := Some(DigitsValue(yy))), []))
  {
    OneSpaceThen(fmt, yy, f);
    assert fmt[1..] == [Year];
    YearWord(yy, f);
  }

  /** `,\s+%Y` over a comma, one space and four digits ends the parse with
      that year. */
  lemma CommaSpaceYear(fmt: seq<Directive>, yy: string, f: Fields)
    requires fmt == [Lit(','), Spaces, Year] && |yy| == 4 && AllDigits(yy)
    ensures Match(fmt, ", " + yy, f) == Some((f.(year := Some(DigitsValue(yy))), []))
  {
    var r := ", " + yy;
    assert r[1..] == " " + yy;
    LitThen(fmt, r, f);
    SpaceYear(fmt[1..], yy, f);
  }

  /** `%B\s+` over a month's full name and one space goes on after them with
      that month read. */
  lemma NameSpaceThen(fmt: seq<Directive>, w: string, rest: string, m: int, f: Fields)
    requires |fmt| >= 2 && fmt[0] == MonthName && fmt[1] == Spaces
    requires 1 <= m <= 12 && Lower(w) == MonthNames[m - 1]
    requires rest != [] && !IsSpace(rest[0])
    ensures Match(fmt, w + (" " + rest), f) == Match(fmt[2..], rest, f.(month := Some(m)))
  {
    NameStep(w, " " + rest, m, f);
    MatchCons(fmt, w + (" " + rest), f);
    OneSpaceThen(fmt[1..], rest, f.(month := Some(m)));
    assert fmt[1..][1..] == fmt[2..];
  }

  /** `%B %d, %Y` over "<name> <day>, <year>": all of it consumed when the
      digits write a day number, a failure otherwise. */
  lemma NameDayCommaYearMatch(w: string, dd: string, yy: string, m: int)
    requires 1 <= m <= 12 && Lower(w) == MonthNames[m - 1]
    requires DayText(dd) && |yy| == 4 && AllDigits(yy)
    ensures 1 <= DigitsValue(dd) <= 31 ==>
      Match(NameDayCommaYear, w + (" " + (dd + (", " + yy))), NoFields) == Some((Read(DigitsValue(yy), m, DigitsValue(dd)), []))
    ensures !(1 <= DigitsValue(dd) <= 31) ==>
      Match(NameDayCommaYear, w + (" " + (dd + (", " + yy))), NoFields).None?
  {
    var fmt := NameDayCommaYear;
    var r3 := ", " + yy;
    var f1 := NoFields.(month := Some(m));
    assert (dd + r3)[0] == dd[0];
    NameSpaceThen(fmt, w, dd + r3, m, NoFields);
    assert fmt[2..][1..] == fmt[3..] == [Lit(','), Spaces, Year];
    DayWordThen(fmt[2..], dd, r3, f1);
    if 1 <= DigitsValue(dd) <= 31 {
      CommaSpaceYear(fmt[3..], yy, f1.(day := Some(DigitsValue(dd))));
    }
  }

  /** `%B %d, %Y` over "<name> <day>, <year>" reads the month named in full,
      the day and the year, and raises when the date does not exist. */
  lemma NameDayCommaYearReads(w: string, dd: string, yy: string, m: int)
    requires 1 <= m <= 12 && Lower(w) == MonthNames[m - 1]
    requires DayText(dd) && |yy| == 4 && AllDigits(yy)
    ensures Parse(w + " " + dd + ", " + yy, NameDayCommaYear) == DateIfValid(DigitsValue(yy), m, DigitsValue(dd))
  {
    var s := w + (" " + (dd + (", " + yy)));
    Nest(w, " ", dd, ", ", yy);
    NameDayCommaYearMatch(w, dd, yy, m);
    if 1 <= DigitsValue(dd) <= 31 {
      ParseFull(s, NameDayCommaYear, DigitsValue(yy), m, DigitsValue(dd));
    }
  }

  /** `%d`, `\s+`, a month directive and `\s+%Y` over "<day> <month> <year>",
      given what the month directive does: all of it consumed when the
      digits write a day number, a failure otherwise. */
  lemma DayMonthYearMatch(fmt: seq<Directive>, md: Directive, dd: string, w: string, yy: string, m: int)
    requires fmt == [Day, Spaces, md, Spaces, Year]
    requires DayText(dd) && |yy| == 4 && AllDigits(yy) && w != [] && !IsSpace(w[0])
    requires Step(md, w + (" " + yy), NoFields.(day := Some(DigitsValue(dd)))) ==
      Some((NoFields.(day := Some(DigitsValue(dd)), month := Some(m)), " " + yy))
    ensures 1 <= DigitsValue(dd) <= 31 ==>
      Match(fmt, dd + (" " + (w + (" " + yy))), NoFields) == Some((Read(DigitsValue(yy), m, DigitsValue(dd)), []))
    ensures !(1 <= DigitsValue(dd) <= 31) ==>
      Match(fmt, dd + (" " + (w + (" " + yy))), NoFields).None?
  {
    var r3 := " " + yy;
    var r2 := w + r3;
    var r1 := " " + r2;
    DayWordThen(fmt, dd, r1, NoFields);
    if 1 <= DigitsValue(dd) <= 31 {
      var f1 := NoFields.(day := Some(DigitsValue(dd)));
      var f2 := f1.(month := Some(m));
      assert fmt[1..][1..] == fmt[2..] && fmt[2..][1..] == fmt[3..] == [Spaces, Year];
      assert r2[0] == w[0];
      calc {
        Match(fmt, dd + r1, NoFields);
      ==
        Match(fmt[1..], r1, f1);
      == { OneSpaceThen(fmt[1..], r2, f1); }
        Match(fmt[2..], r2, f1);
      == { MatchCons(fmt[2..], r2, f1); }
        Match(fmt[3..], r3, f2);
      == { SpaceYear(fmt[3..], yy, f2); }
        Some((f2.(year := Some(DigitsValue(yy))), []));
      }
    }
  }

  /** A month written out starts with a letter, not a space. */
  lemma MonthWordHead(w: string, n: string)
    requires |n| > 0 && 'a' <= n[0] <= 'z' && Lower(w) == n
    ensures w != [] && !IsSpace(w[0])
  {
    assert LowerChar(w[0]) == n[0];
  }

  /** `%d %b %Y` over "<day> <abbrev> <year>" reads the day, the abbreviated
      month and the year, and raises when the date does not exist. */
  lemma DayAbbrevYearReads(dd: string, w: string, yy: string, m: int)
    requires 1 <= m <= 12 && Lower(w) == MonthAbbrevs[m - 1]
    requires DayText(dd) && |yy| == 4 && AllDigits(yy)
    ensures Parse(dd + " " + w + " " + yy, DayAbbrevYear) == DateIfValid(DigitsValue(yy), m, DigitsValue(dd))
  {
    MonthAbbrevsLower();
    MonthWordHead(w, MonthAbbrevs[m - 1]);
    var s := dd + (" " + (w + (" " + yy)));
    Nest(dd, " ", w, " ", yy);
    AbbrevWordStep(w, " " + yy, m, NoFields.(day := Some(DigitsValue(dd))));
    DayMonthYearMatch(DayAbbrevYear, MonthAbbrev, dd, w, yy, m);
    if 1 <= DigitsValue(dd) <= 31 {
      ParseFull(s, DayAbbrevYear, DigitsValue(yy), m, DigitsValue(dd));
    }
  }

  /** `%d %B %Y` over "<day> <name> <year>" reads the day, the month named in
      full and the year, and raises when the date does not exist. */
  lemma DayNameYearReads(dd: string, w: string, yy: string, m: int)
    requires 1 <= m <= 12 && Lower(w) == MonthNames[m - 1]
    requires DayText(dd) && |yy| == 4 && AllDigits(yy)
    ensures Parse(dd + " " + w + " " + yy, DayNameYear) == DateIfValid(DigitsValue(yy), m, DigitsValue(dd))
  {
    MonthNamesLower();
    MonthWordHead(w, MonthNames[m - 1]);
    var s := dd + (" " + (w + (" " + yy)));
    Nest(dd, " ", w, " ", yy);
    NameStep(w, " " + yy, m, NoFields.(day := Some(DigitsValue(dd))));
    DayMonthYearMatch(DayNameYear, MonthName, dd, w, yy, m);
    if 1 <= DigitsValue(dd) <= 31 {
      ParseFull(s, DayNameYear, DigitsValue(yy), m, DigitsValue(dd));
    }
  }

  // ---------------------------------------------------------------------
  // Why the earlier formats fail.
  // ---------------------------------------------------------------------

  /** Month names are written in lower-case letters. */
  lemma NamesAreLetters()
    ensures forall j, k :: 0 <= j < |MonthNames| && 0 <= k < |MonthNames[j]| ==> 'a' <= MonthNames[j][k] <= 'z'
  {
  }

  /** A character that lower-cases to a lower-case letter is no space. */
  lemma LetterNoSpace(c: char)
    requires 'a' <= LowerChar(c) <= 'z'
    ensures !IsSpace(c)
  {
  }

  /** `%Y-%m-%d` fails when one of the first four characters is no digit. */
  lemma IsoNeedsFourDigits(s: string, k: nat)
    requires k < 4 && k < |s| && !IsDigit(s[k])
    ensures Parse(s, IsoFormat).None?
  {
    if |s| >= 4 {
      assert s[..4][k] == s[k];
    }
    FirstStepFails(s, IsoFormat);
  }

  /** A format that starts with a month directive fails on a leading digit. */
  lemma MonthFirstFails(s: string, fmt: seq<Directive>)
    requires fmt != [] && (fmt[0] == MonthAbbrev || fmt[0] == MonthName) && s != [] && IsDigit(s[0])
    ensures Parse(s, fmt).None?
  {
    MonthAtDigit(s, NoFields);
    FirstStepFails(s, fmt);
  }

  /** `%b` and then `\s+` fail on a month written in full when its name is
      longer than its abbreviation: `%b` takes the first three letters and
      a letter stands where a space is needed. */
  lemma AbbrevOfNameFails(fmt: seq<Directive>, w: string, rest: string, m: int, f: Fields)
    requires |fmt| >= 2 && fmt[0] == MonthAbbrev && fmt[1] == Spaces
    requires 1 <= m <= 12 && Lower(w) == MonthNames[m - 1] && |w| > 3
    ensures Match(fmt, w + rest, f).None?
  {
    NamesStartWithAbbrevs();
    NamesAreLetters();
    LowerPrefix(w, 3);
    var u := w[3..] + rest;
    assert w[..3] + u == w + rest;
    AbbrevWordStep(w[..3], u, m, f);
    MatchCons(fmt, w + rest, f);
    assert u[0] == w[3] && LowerChar(w[3]) == MonthNames[m - 1][3];
    LetterNoSpace(w[3]);
    assert SpaceRun(u, 0) == 0;
  }

  /** `%B` fails on a month abbreviation followed by a space when the
      month's name is longer than its abbreviation. */
  lemma NameOfAbbrevFails(w: string, rest: string, m: int, f: Fields)
    requires 1 <= m <= 12 && Lower(w) == MonthAbbrevs[m - 1] && |MonthNames[m - 1]| > 3
    requires rest != [] && IsSpace(rest[0])
    ensures Step(MonthName, w + rest, f).None?
  {
    var s := w + rest;
    assert s[..3] == w;
    NamesAreLetters();
    forall j | 0 <= j < |MonthNames| ensures !LowerAt(s, 0, MonthNames[j]) {
      if LowerAt(s, 0, MonthNames[j]) {
        OnlyThatName(s, m, j);
        var n := MonthNames[j];
        assert Lower(s[0 .. |n|])[3] == LowerChar(s[3]) && s[3] == rest[0];
        LetterNoSpace(s[3]);
      }
    }
    MonthFromMisses(s, MonthNames, 0);
  }

  /** Plain text: neither missing nor padded with whitespace. */
  predicate Plain(s: string) {
    s != [] && !IsSpace(s[0]) && !IsSpace(s[|s| - 1]) && !IsMissing(s)
  }

  /** Plain text is keyed by the date of the first format that parses it. */
  lemma KeyedByFirstParse(s: string, d: Date)
    requires Plain(s) && FirstParse(s, TimeFormats) == Some(d)
    ensures StandardizeTime(s) == Format(d)
  {
    StripNoop(s);
  }

  /** The formats `standardize_time` tries, by position. */
  lemma TimeFormatsAre()
    ensures |TimeFormats| == 5
    ensures TimeFormats[0] == IsoFormat && TimeFormats[1] == AbbrevDayCommaYear
    ensures TimeFormats[2] == NameDayCommaYear && TimeFormats[3] == DayAbbrevYear
    ensures TimeFormats[4] == DayNameYear
  {
  }

  /** Of a list of formats, the first two fail and the third parses. */
  lemma {:induction false} ThirdParses(t: string, fmts: seq<seq<Directive>>, d: Date)
    requires |fmts| >= 3 && Parse(t, fmts[0]).None? && Parse(t, fmts[1]).None?
    requires Parse(t, fmts[2]) == Some(d)
    ensures FirstParse(t, fmts) == Some(d)
  {
    forall j | 0 <= j < 2 ensures Parse(t, fmts[j]).None? {
      assert j == 0 || j == 1;
    }
    FirstParseFirstWins(t, fmts, 2);
  }

  /** Of a list of formats, the first three fail and the fourth parses. */
  lemma {:induction false} FourthParses(t: string, fmts: seq<seq<Directive>>, d: Date)
    requires |fmts| >= 4 && Parse(t, fmts[0]).None? && Parse(t, fmts[1]).None?
    requires Parse(t, fmts[2]).None? && Parse(t, fmts[3]) == Some(d)
    ensures FirstParse(t, fmts) == Some(d)
  {
    forall j | 0 <= j < 3 ensures Parse(t, fmts[j]).None? {
      assert j == 0 || j == 1 || j == 2;
    }
    FirstParseFirstWins(t, fmts, 3);
  }

  /** Of a list of formats, the first four fail and the fifth parses. */
  lemma {:induction false} FifthParses(t: string, fmts: seq<seq<Directive>>, d: Date)
    requires |fmts| >= 5 && Parse(t, fmts[0]).None? && Parse(t, fmts[1]).None?
    requires Parse(t, fmts[2]).None? && Parse(t, fmts[3]).None? && Parse(t, fmts[4]) == Some(d)
    ensures FirstParse(t, fmts) == Some(d)
  {
    forall j | 0 <= j < 4 ensures Parse(t, fmts[j]).None? {
      assert j == 0 || j == 1 || j == 2 || j == 3;
    }
    FirstParseFirstWins(t, fmts, 4);
  }

  /** Keyed by `%B %d, %Y`, the third format. */
  lemma KeyedByThird(s: string, d: Date)
    requires Plain(s) && Parse(s, IsoFormat).None? && Parse(s, AbbrevDayCommaYear).None?
    requires Parse(s, NameDayCommaYear) == Some(d)
    ensures StandardizeTime(s) == Format(d)
  {
    TimeFormatsAre();
    ThirdParses(s, TimeFormats, d);
    KeyedByFirstParse(s, d);
  }

  /** Keyed by `%d %b %Y`, the fourth format. */
  lemma KeyedByFourth(s: string, d: Date)
    requires Plain(s) && Parse(s, IsoFormat).None? && Parse(s, AbbrevDayCommaYear).None?
    requires Parse(s, NameDayCommaYear).None? && Parse(s, DayAbbrevYear) == Some(d)
    ensures StandardizeTime(s) == Format(d)
  {
    TimeFormatsAre();
    FourthParses(s, TimeFormats, d);
    KeyedByFirstParse(s, d);
  }

  /** Keyed by `%d %B %Y`, the fifth format. */
  lemma KeyedByFifth(s: string, d: Date)
    requires Plain(s) && Parse(s, IsoFormat).None? && Parse(s, AbbrevDayCommaYear).None?
    requires Parse(s, NameDayCommaYear).None? && Parse(s, DayAbbrevYear).None?
    requires Parse(s, DayNameYear) == Some(d)
    ensures StandardizeTime(s) == Format(d)
  {
    TimeFormatsAre();
    FifthParses(s, TimeFormats, d);
    KeyedByFirstParse(s, d);
  }

  /** A text that starts with a letter and ends with a digit is neither
      missing nor padded. */
  lemma PlainText(s: string)
    requires |s| >= 4 && (IsLetter(s[0]) || IsDigit(s[0]))
    requires IsDigit(s[|s| - 1])
    ensures Plain(s)
  {
    assert |EmDash| == 1;
  }

  // ---------------------------------------------------------------------
  // Keys of the three layouts.
  // ---------------------------------------------------------------------

  /** A date written "<name> <day>, <year>", with the month's name longer
      than its abbreviation, is keyed by that date through `%B %d, %Y`. */
  lemma KeyOfNameDayCommaYear(w: string, dd: string, yy: string, m: int)
    requires 1 <= m <= 12 && Lower(w) == MonthNames[m - 1] && |w| > 3
    requires DayText(dd) && |yy| == 4 && AllDigits(yy)
    requires ValidDate(Date(DigitsValue(yy), m, DigitsValue(dd)))
    ensures StandardizeTime(w + " " + dd + ", " + yy) == Format(Date(DigitsValue(yy), m, DigitsValue(dd)))
  {
    var s := w + " " + dd + ", " + yy;
    var rest := " " + dd + ", " + yy;
    NameFirst(w, dd, yy, m);
    NameDayCommaYearReads(w, dd, yy, m);
    IsoNeedsFourDigits(s, 0);
    AbbrevOfNameFails(AbbrevDayCommaYear, w, rest, m, NoFields);
    KeyedByThird(s, Date(DigitsValue(yy), m, DigitsValue(dd)));
  }

  /** "<name> <day>, <year>": a letter first, a digit last, and the name
      followed by the rest. */
  lemma NameFirst(w: string, dd: string, yy: string, m: int)
    requires 1 <= m <= 12 && Lower(w) == MonthNames[m - 1] && |w| > 3
    requires DayText(dd) && |yy| == 4 && AllDigits(yy)
    ensures w + " " + dd + ", " + yy == w + (" " + dd + ", " + yy)
    ensures !IsDigit((w + " " + dd + ", " + yy)[0])
    ensures Plain(w + " " + dd + ", " + yy)
  {
    var u := " " + dd + ", ";
    Regroup(w, " ", dd, ", ", yy);
    NameHead(w, m);
    EndsWith(w, u, yy);
    PlainText(w + (u + yy));
  }

  /** The written name of a month starts with a letter. */
  lemma NameHead(w: string, m: int)
    requires 1 <= m <= 12 && Lower(w) == MonthNames[m - 1]
    ensures w != [] && IsLetter(w[0]) && !IsDigit(w[0])
  {
    MonthNamesLower();
    LetterHead(w, MonthNames[m - 1]);
  }

  /** A word followed by text ending in a four-digit year: it starts with
      the word's first letter and ends with a digit. */
  lemma EndsWith(w: string, u: string, yy: string)
    requires w != [] && |yy| == 4 && AllDigits(yy)
    ensures var s := w + (u + yy); s[0] == w[0] && |s| >= 5 && IsDigit(s[|s| - 1])
  {
    var s := w + (u + yy);
    assert s[|s| - 1] == yy[3];
  }

  /** Concatenation regrouped after its first part. */
  lemma Regroup(a: string, b: string, c: string, d: string, e: string)
    ensures a + b + c + d + e == a + (b + c + d + e)
  {
  }

  /** A word that lower-cases to one starting with a lower-case letter
      starts with a letter. */
  lemma LetterHead(w: string, n: string)
    requires |n| > 0 && 'a' <= n[0] <= 'z' && Lower(w) == n
    ensures w != [] && IsLetter(w[0]) && !IsDigit(w[0])
  {
    assert LowerChar(w[0]) == n[0];
  }

  /** A date written "<day> <abbrev> <year>" is keyed by that date through
      `%d %b %Y`. */
  lemma KeyOfDayAbbrevYear(dd: string, w: string, yy: string, m: int)
    requires 1 <= m <= 12 && Lower(w) == MonthAbbrevs[m - 1]
    requires DayText(dd) && |yy| == 4 && AllDigits(yy)
    requires ValidDate(Date(DigitsValue(yy), m, DigitsValue(dd)))
    ensures StandardizeTime(dd + " " + w + " " + yy) == Format(Date(DigitsValue(yy), m, DigitsValue(dd)))
  {
    var s := dd + " " + w + " " + yy;
    DayFirst(dd, w, yy);
    DayAbbrevYearReads(dd, w, yy, m);
    IsoNeedsFourDigits(s, |dd|);
    MonthFirstFails(s, AbbrevDayCommaYear);
    MonthFirstFails(s, NameDayCommaYear);
    KeyedByFourth(s, Date(DigitsValue(yy), m, DigitsValue(dd)));
  }

  /** "<day> <word> <year>": a digit first, a space among the first four
      characters, a digit last. */
  lemma DayFirst(dd: string, w: string, yy: string)
    requires DayText(dd) && |yy| == 4 && AllDigits(yy) && w != []
    ensures var s := dd + " " + w + " " + yy;
      s != [] && IsDigit(s[0]) && |dd| < 4 && |dd| < |s| && !IsDigit(s[|dd|]) && Plain(s)
  {
    var s := dd + " " + w + " " + yy;
    assert s[0] == dd[0] && s[|dd|] == ' ' && s[|s| - 1] == yy[3];
    PlainText(s);
  }

  /** `%d %b %Y` fails on "<day> <name> <year>" when the month's name is
      longer than its abbreviation. */
  lemma DayAbbrevFailsOnName(dd: string, w: string, yy: string, m: int)
    requires 1 <= m <= 12 && Lower(w) == MonthNames[m - 1] && |w| > 3
    requires DayText(dd) && 1 <= DigitsValue(dd) <= 31
    ensures Parse(dd + (" " + (w + (" " + yy))), DayAbbrevYear).None?
  {
    var fmt := DayAbbrevYear;
    var f1 := NoFields.(day := Some(DigitsValue(dd)));
    MonthNamesLower();
    assert LowerChar(w[0]) == MonthNames[m - 1][0];
    DayWordThen(fmt, dd, " " + (w + (" " + yy)), NoFields);
    OneSpaceThen(fmt[1..], w + (" " + yy), f1);
    assert fmt[1..][1..] == fmt[2..];
    AbbrevOfNameFails(fmt[2..], w, " " + yy, m, f1);
  }

  /** A date written "<day> <name> <year>", with the month's name longer
      than its abbreviation, is keyed by that date through `%d %B %Y`. */
  lemma KeyOfDayNameYear(dd: string, w: string, yy: string, m: int)
    requires 1 <= m <= 12 && Lower(w) == MonthNames[m - 1] && |w| > 3
    requires DayText(dd) && |yy| == 4 && AllDigits(yy)
    requires ValidDate(Date(DigitsValue(yy), m, DigitsValue(dd)))
    ensures StandardizeTime(dd + " " + w + " " + yy) == Format(Date(DigitsValue(yy), m, DigitsValue(dd)))
  {
    var s := dd + " " + w + " " + yy;
    DayFirst(dd, w, yy);
    DayNameYearReads(dd, w, yy, m);
    IsoNeedsFourDigits(s, |dd|);
    MonthFirstFails(s, AbbrevDayCommaYear);
    MonthFirstFails(s, NameDayCommaYear);
    Nest(dd, " ", w, " ", yy);
    DayAbbrevFailsOnName(dd, w, yy, m);
    KeyedByFifth(s, Date(DigitsValue(yy), m, DigitsValue(dd)));
  }

  /** `%d %B %Y` fails on "<day> <abbrev> <year>" when the month's name is
      longer than its abbreviation. */
  lemma DayNameFailsOnAbbrev(dd: string, w: string, yy: string, m: int)
    requires 1 <= m <= 12 && Lower(w) == MonthAbbrevs[m - 1] && |MonthNames[m - 1]| > 3
    requires DayText(dd) && 1 <= DigitsValue(dd) <= 31
    ensures Parse(dd + (" " + (w + (" " + yy))), DayNameYear).None?
  {
    var fmt := DayNameYear;
    var f1 := NoFields.(day := Some(DigitsValue(dd)));
    MonthAbbrevsLower();
    assert LowerChar(w[0]) == MonthAbbrevs[m - 1][0];
    DayWordThen(fmt, dd, " " + (w + (" " + yy)), NoFields);
    OneSpaceThen(fmt[1..], w + (" " + yy), f1);
    assert fmt[1..][1..] == fmt[2..];
    NameOfAbbrevFails(w, " " + yy, m, f1);
  }

  /** A text written "<day> <abbrev> <year>" whose date the calendar lacks,
      for a month whose name is longer than its abbreviation, raises in
      every format and is kept as it stands. */
  lemma KeyOfMissingDate(dd: string, w: string, yy: string, m: int)
    requires 1 <= m <= 12 && Lower(w) == MonthAbbrevs[m - 1] && |MonthNames[m - 1]| > 3
    requires DayText(dd) && 1 <= DigitsValue(dd) <= 31 && |yy| == 4 && AllDigits(yy)
    requires !ValidDate(Date(DigitsValue(yy), m, DigitsValue(dd)))
    ensures StandardizeTime(dd + " " + w + " " + yy) == dd + " " + w + " " + yy
  {
    var s := dd + " " + w + " " + yy;
    DayFirst(dd, w, yy);
    DayAbbrevYearReads(dd, w, yy, m);
    IsoNeedsFourDigits(s, |dd|);
    MonthFirstFails(s, AbbrevDayCommaYear);
    MonthFirstFails(s, NameDayCommaYear);
    Nest(dd, " ", w, " ", yy);
    DayNameFailsOnAbbrev(dd, w, yy, m);
    NoTimeFormatParses(s);
    StripNoop(s);
    StandardizeTimeUnparsed(s);
  }

  // ---------------------------------------------------------------------
  // The examples of the conversion script.
  // ---------------------------------------------------------------------

  /** The canonical text of 25 January 2024. */
  lemma Jan25Format()
    ensures Format(Date(2024, 1, 25)) == "2024-01-25"
  {
    var p := "2024-01-25";
    FourDigitsValue(p[..4]);
    TwoDigitsValue(p[5..7]);
    TwoDigitsValue(p[8..]);
    assert DateOfIso(p) == Date(2024, 1, 25);
    FormatOfIsoText(p);
  }

  /** `January 25, 2024` cut into its month name, day digits and year digits. */
  lemma NameDayCommaYearPieces(t: string) returns (w: string, dd: string, yy: string)
    requires t == "January 25, 2024"
    ensures t == w + " " + dd + ", " + yy
    ensures Lower(w) == MonthNames[0] && |w| > 3
    ensures DayText(dd) && DigitsValue(dd) == 25 && |yy| == 4 && AllDigits(yy) && DigitsValue(yy) == 2024
  {
    w, dd, yy := "January", "25", "2024";
    JanuaryWord(w);
    TwoDigitsWord(dd, 25);
    YearWord2024(yy);
  }

  /** `25 Jan 2024` cut into its day digits, month abbreviation and year digits. */
  lemma DayAbbrevYearPieces(t: string) returns (dd: string, w: string, yy: string)
    requires t == "25 Jan 2024"
    ensures t == dd + " " + w + " " + yy
    ensures Lower(w) == MonthAbbrevs[0]
    ensures DayText(dd) && DigitsValue(dd) == 25 && |yy| == 4 && AllDigits(yy) && DigitsValue(yy) == 2024
  {
    dd, w, yy := "25", "Jan", "2024";
    JanWord(w);
    TwoDigitsWord(dd, 25);
    YearWord2024(yy);
  }

  /** `25 January 2024` cut into its day digits, month name and year digits. */
  lemma DayNameYearPieces(t: string) returns (dd: string, w: string, yy: string)
    requires t == "25 January 2024"
    ensures t == dd + " " + w + " " + yy
    ensures Lower(w) == MonthNames[0] && |w| > 3
    ensures DayText(dd) && DigitsValue(dd) == 25 && |yy| == 4 && AllDigits(yy) && DigitsValue(yy) == 2024
  {
    dd, w, yy := "25", "January", "2024";
    JanuaryWord(w);
    TwoDigitsWord(dd, 25);
    YearWord2024(yy);
  }

  /** `31 Sep 2024` cut into its day digits, month abbreviation and year digits. */
  lemma NoSuchDayPieces(t: string) returns (dd: string, w: string, yy: string)
    requires t == "31 Sep 2024"
    ensures t == dd + " " + w + " " + yy
    ensures Lower(w) == MonthAbbrevs[8] && |MonthNames[8]| > 3
    ensures DayText(dd) && DigitsValue(dd) == 31 && |yy| == 4 && AllDigits(yy) && DigitsValue(yy) == 2024
  {
    dd, w, yy := "31", "Sep", "2024";
    SepWord(w);
    TwoDigitsWord(dd, 31);
    YearWord2024(yy);
  }

  lemma TwoDigitsWord(dd: string, v: nat)
    requires |dd| == 2 && AllDigits(dd) && DigitValue(dd[0]) * 10 + DigitValue(dd[1]) == v
    ensures DayText(dd) && DigitsValue(dd) == v
  {
    TwoDigitsValue(dd);
  }

  lemma YearWord2024(yy: string)
    requires yy == "2024"
    ensures |yy| == 4 && AllDigits(yy) && DigitsValue(yy) == 2024
  {
    FourDigitsValue(yy);
  }

  lemma JanuaryWord(w: string)
    requires w == "January"
    ensures Lower(w) == MonthNames[0] && |w| > 3
  {
    var n := MonthNames[0];
    assert n == "january";
    forall i | 0 <= i < 7 ensures Lower(w)[i] == n[i] {
      assert Lower(w)[i] == LowerChar(w[i]);
    }
  }

  lemma JanWord(w: string)
    requires w == "Jan"
    ensures Lower(w) == MonthAbbrevs[0]
  {
  }

  lemma SepWord(w: string)
    requires w == "Sep"
    ensures Lower(w) == MonthAbbrevs[8] && |MonthNames[8]| > 3
  {
  }

  /** `January 25, 2024` is keyed `2024-01-25`. */
  lemma StandardizeNameDayCommaYear(t: string)
    requires t == "January 25, 2024"
    ensures StandardizeTime(t) == "2024-01-25"
  {
    var w, dd, yy := NameDayCommaYearPieces(t);
    KeyOfNameDayCommaYear(w, dd, yy, 1);
    Jan25Format();
  }

  /** `25 Jan 2024` is keyed `2024-01-25`. */
  lemma StandardizeDayAbbrevYear(t: string)
    requires t == "25 Jan 2024"
    ensures StandardizeTime(t) == "2024-01-25"
  {
    var dd, w, yy := DayAbbrevYearPieces(t);
    KeyOfDayAbbrevYear(dd, w, yy, 1);
    Jan25Format();
  }

  /** `25 January 2024` is keyed `2024-01-25`. */
  lemma StandardizeDayNameYear(t: string)
    requires t == "25 January 2024"
    ensures StandardizeTime(t) == "2024-01-25"
  {
    var dd, w, yy := DayNameYearPieces(t);
    KeyOfDayNameYear(dd, w, yy, 1);
    Jan25Format();
  }

  /** `31 Sep 2024` names a day September lacks and is kept as it stands. */
  lemma StandardizeNoSuchDay(t: string)
    requires t == "31 Sep 2024"
    ensures StandardizeTime(t) == t
  {
    var dd, w, yy := NoSuchDayPieces(t);
    KeyOfMissingDate(dd, w, yy, 9);
  }
}
