/** What the date texts of the page extraction spell. The "Mon D",
    "Mon D, YYYY" and "MM/DD/YYYY" shapes get reference readings defined on
    their characters alone: the month the three letters abbreviate, the
    numbers the digit runs write, and `datetime.date`'s check of the result.
    `strptime` with the formats the extraction uses is proved to read exactly
    those dates, and stage 1 and stage 3 of the extraction are then stated
    in terms of them. */
module DateReading {
  import opened Wrappers
  import opened Text
  import opened Calendar
  import opened Strptime
  import opened HtmlExtract

  /** `datetime.date(y, m, d)`, None standing for its ValueError. */
  function DateIfValid(y: int, m: int, d: int): (r: Option<Date>)
    ensures r.Some? <==> ValidDate(Date(y, m, d))
    ensures r.Some? ==> r.value == Date(y, m, d)
  {
    if ValidDate(Date(y, m, d)) then Some(Date(y, m, d)) else None
  }

  // ---------------------------------------------------------------------
  // The pieces of each shape.
  // ---------------------------------------------------------------------

  /** `s` starts with three characters, `w` spaces and `n` digits, and no
      digit follows them. */
  predicate MonDLead(s: string, w: nat, n: nat) {
    3 + w + n <= |s| && SpacesFor(s[3..], w) && DigitsFor(s[3 + w..], n)
  }

  /** A `[A-Za-z]{3}\s+\d{1,2}` match not followed by a digit has that start. */
  lemma MonDLeadOf(s: string, e: nat)
    requires MonDAt(s, 0) == Some(e) && (e == |s| || !IsDigit(s[e]))
    ensures 3 + SpaceRun(s, 3) < e && MonDLead(s, SpaceRun(s, 3), e - 3 - SpaceRun(s, 3))
  {
    var w := SpaceRun(s, 3);
    var j := 3 + w;
    var n := e - j;
    var s1 := s[3..];
    forall k | 0 <= k < w ensures IsSpace(s1[k]) {
      assert s1[k] == s[3 + k];
    }
    assert s1[w] == s[j];
    var s2 := s[j..];
    forall k | 0 <= k < n ensures IsDigit(s2[..n][k]) {
      assert s2[..n][k] == s[j + k];
    }
    assert n == |s2| || s2[n] == s[e];
  }

  /** A "Mon D" text followed by something that is not a digit keeps its start. */
  lemma MonDLeadExtends(t: string, u: string, w: nat, n: nat)
    requires MonDLead(t, w, n) && 3 + w + n == |t| && (u == [] || !IsDigit(u[0]))
    ensures MonDLead(t + u, w, n)
    ensures (t + u)[..3] == t[..3] && (t + u)[3 + w..][..n] == t[3 + w..][..n]
    ensures (t + u)[3 + w + n..] == u
  {
    var s := t + u;
    var s1, t1 := s[3..], t[3..];
    forall k | 0 <= k < w ensures IsSpace(s1[k]) {
      assert s1[k] == t1[k];
    }
    assert s1[w] == t1[w];
    assert s[3 + w..][..n] == t[3 + w..][..n];
    assert n == |s[3 + w..]| || s[3 + w..][n] == u[0];
  }

  /** `%b`, `\s+`, `%d` and a separator over such a start: they go on after
      the digits exactly when the letters abbreviate a month and the digits
      write a day number. */
  lemma MonDThen(fmt: seq<Directive>, s: string, f: Fields, w: nat, n: nat)
    requires |fmt| >= 4 && fmt[0] == MonthAbbrev && fmt[1] == Spaces && fmt[2] == Day && IsSeparator(fmt[3])
    requires MonDLead(s, w, n)
    ensures AbbrevMonth(s).None? ==> Match(fmt, s, f).None?
    ensures !(1 <= DigitsValue(s[3 + w..][..n]) <= 31) ==> Match(fmt, s, f).None?
    ensures AbbrevMonth(s).Some? && 1 <= DigitsValue(s[3 + w..][..n]) <= 31 ==>
      Match(fmt, s, f) == Match(fmt[3..], s[3 + w + n..], f.(month := AbbrevMonth(s), day := Some(DigitsValue(s[3 + w..][..n]))))
  {
    AbbrevThen(fmt, s, f);
    if AbbrevMonth(s).Some? {
      var f1 := f.(month := AbbrevMonth(s));
      var s1 := s[3..];
      SpacesThen(fmt[1..], s1, f1, w);
      var s2 := s1[w..];
      assert s2 == s[3 + w..];
      assert fmt[1..][1..] == fmt[2..] && fmt[2..][1..] == fmt[3..];
      DayThen(fmt[2..], s2, f1, n);
      assert s2[n..] == s[3 + w + n..];
    }
  }

  /** The day digits of a "Mon D" text. */
  function MonDDay(t: string): (d: string)
    requires IsMonDText(t)
    ensures 1 <= |d| <= 2 && AllDigits(d)
  {
    MonDLeadOf(t, |t|);
    var j := 3 + SpaceRun(t, 3);
    t[j..][..DigitRun12(t, j)]
  }

  /** The day digits of a "Mon D, YYYY" text. */
  function MonDYDay(t: string): (d: string)
    requires IsMonDYText(t)
    ensures 1 <= |d| <= 2 && AllDigits(d)
  {
    MonDYParts(t);
    MonDLeadOf(t, MonDAt(t, 0).value);
    var j := 3 + SpaceRun(t, 3);
    t[j..][..DigitRun12(t, j)]
  }

  /** The four year digits that end a "Mon D, YYYY" or "MM/DD/YYYY" text. */
  function YearDigits(t: string): (y: string)
    requires IsMonDYText(t) || IsSlashText(t)
    ensures |y| == 4 && AllDigits(y)
  {
    assert t[|t| - 4..] == t[|t| - 4 .. |t|];
    t[|t| - 4..]
  }

  /** The last four characters of `t`, found at `p`. */
  lemma LastFour(t: string, p: nat)
    requires p + 4 == |t|
    ensures t[|t| - 4..] == t[p .. p + 4]
  {
    assert |t| - 4 == p;
  }

  /** The month digits of a "MM/DD/YYYY" text. */
  function SlashMonth(t: string): (d: string)
    requires IsSlashText(t)
    ensures 1 <= |d| <= 2 && AllDigits(d)
  {
    t[..DigitRun12(t, 0)]
  }

  /** The day digits of a "MM/DD/YYYY" text. */
  function SlashDay(t: string): (d: string)
    requires IsSlashText(t)
    ensures 1 <= |d| <= 2 && AllDigits(d)
  {
    var a := DigitRun12(t, 0);
    t[a + 1 .. a + 1 + DigitRun12(t, a + 1)]
  }

  // ---------------------------------------------------------------------
  // Reference readings.
  // ---------------------------------------------------------------------

  /** A "Mon D" text completed with `year`: the month its letters
      abbreviate, the day its digits write and that year, when the calendar
      has the date and the year has the four digits `%Y` demands. */
  function ReadMonD(t: string, year: nat): Option<Date>
    requires IsMonDText(t)
  {
    match AbbrevMonth(t)
    case None => None
    case Some(m) => if 1000 <= year then DateIfValid(year, m, DigitsValue(MonDDay(t))) else None
  }

  /** A "Mon D, YYYY" text: the month its letters abbreviate, the day and the
      year its digits write, when the calendar has the date. */
  function ReadMonDY(t: string): Option<Date>
    requires IsMonDYText(t)
  {
    match AbbrevMonth(t)
    case None => None
    case Some(m) => DateIfValid(DigitsValue(YearDigits(t)), m, DigitsValue(MonDYDay(t)))
  }

  /** A "MM/DD/YYYY" text: the month, day and year its digit runs write,
      when the calendar has the date. */
  function ReadSlash(t: string): Option<Date>
    requires IsSlashText(t)
  {
    DateIfValid(DigitsValue(YearDigits(t)), DigitsValue(SlashMonth(t)), DigitsValue(SlashDay(t)))
  }

  // ---------------------------------------------------------------------
  // strptime reads the reference dates.
  // ---------------------------------------------------------------------

  /** A parse that consumed the whole input builds the date it read, when
      the calendar has it. */
  lemma ParseFull(s: string, fmt: seq<Directive>, y: int, m: int, d: int)
    requires Match(fmt, s, NoFields) == Some((Fields(Some(y), Some(m), Some(d)), []))
    ensures Parse(s, fmt) == DateIfValid(y, m, d)
  {
  }

  /** '%b %d %Y' over `f"{t} {year}"` reads the month and day of the
      "Mon D" text `t` and the year given. */
  lemma MonDWithYearReads(t: string, year: nat)
    requires IsMonDText(t)
    ensures MonDWithYear(t, year) == ReadMonD(t, year)
  {
    var y := NatToString(year);
    MonDYearMatch(t, y);
    NatToStringLength(year);
    if AbbrevMonth(t).Some? && 1 <= DigitsValue(MonDDay(t)) <= 31 && |y| == 4 {
      assert y[..4] == y && y[4..] == [];
      ParseFull(t + " " + y, AbbrevDayYear, year, AbbrevMonth(t).value, DigitsValue(MonDDay(t)));
    }
  }

  /** '%b %d %Y' over a "Mon D" text, a space and digits `y`: the month and
      day of the text, the year of the first four digits, and the rest. */
  lemma MonDYearMatch(t: string, y: string)
    requires IsMonDText(t) && |y| > 0 && AllDigits(y)
    ensures AbbrevMonth(t).None? || !(1 <= DigitsValue(MonDDay(t)) <= 31) ==>
      Match(AbbrevDayYear, t + " " + y, NoFields).None?
    ensures AbbrevMonth(t).Some? && 1 <= DigitsValue(MonDDay(t)) <= 31 ==>
      Match(AbbrevDayYear, t + " " + y, NoFields) ==
        if |y| >= 4 then Some((Fields(Some(DigitsValue(y[..4])), AbbrevMonth(t), Some(DigitsValue(MonDDay(t)))), y[4..]))
        else None
  {
    var u := " " + y;
    var s := t + u;
    assert t + " " + y == s;
    MonDLeadOf(t, |t|);
    var w := SpaceRun(t, 3);
    var n := |t| - 3 - w;
    assert u[0] == ' ';
    MonDLeadExtends(t, u, w, n);
    var fmt := AbbrevDayYear;
    MonDThen(fmt, s, NoFields, w, n);
    assert AbbrevMonth(s) == AbbrevMonth(t);
    assert DigitRun12(t, 3 + w) == n;
    var d := s[3 + w..][..n];
    assert MonDDay(t) == d;
    if AbbrevMonth(t).Some? && 1 <= DigitsValue(d) <= 31 {
      var f2 := NoFields.(month := AbbrevMonth(t), day := Some(DigitsValue(d)));
      assert Match(fmt, s, NoFields) == Match(fmt[3..], u, f2);
      YearAfterSpace(fmt[3..], y, f2);
    }
  }

  /** `\s+%Y` over one space and digits `y`. */
  lemma YearAfterSpace(fmt: seq<Directive>, y: string, f: Fields)
    requires fmt == [Spaces, Year] && |y| > 0 && AllDigits(y)
    ensures Match(fmt, " " + y, f) ==
      if |y| >= 4 then Some((f.(year := Some(DigitsValue(y[..4]))), y[4..])) else None
  {
    var u := " " + y;
    assert SpacesFor(u, 1) by { assert u[1] == y[0]; }
    SpacesThen(fmt, u, f, 1);
    assert u[1..] == y && fmt[1..] == [Year];
    YearEnd([Year], y, f);
  }

  /** '%b %d, %Y' over a "Mon D, YYYY" text reads its month, day and year. */
  lemma MonDYReads(t: string)
    requires IsMonDYText(t)
    ensures Parse(t, AbbrevDayCommaYear) == ReadMonDY(t)
  {
    MonDYMatch(t);
    if AbbrevMonth(t).Some? && 1 <= DigitsValue(MonDYDay(t)) <= 31 {
      ParseFull(t, AbbrevDayCommaYear, DigitsValue(YearDigits(t)), AbbrevMonth(t).value, DigitsValue(MonDYDay(t)));
    }
  }

  /** '%b %d, %Y' over a "Mon D, YYYY" text consumes it all when the letters
      abbreviate a month and the digits write a day number. */
  lemma MonDYMatch(t: string)
    requires IsMonDYText(t)
    ensures AbbrevMonth(t).None? || !(1 <= DigitsValue(MonDYDay(t)) <= 31) ==>
      Match(AbbrevDayCommaYear, t, NoFields).None?
    ensures AbbrevMonth(t).Some? && 1 <= DigitsValue(MonDYDay(t)) <= 31 ==>
      Match(AbbrevDayCommaYear, t, NoFields) ==
        Some((Fields(Some(DigitsValue(YearDigits(t))), AbbrevMonth(t), Some(DigitsValue(MonDYDay(t)))), []))
  {
    MonDYParts(t);
    var e := MonDAt(t, 0).value;
    MonDLeadOf(t, e);
    var w := SpaceRun(t, 3);
    var n := e - 3 - w;
    var fmt := AbbrevDayCommaYear;
    assert DigitRun12(t, 3 + w) == n;
    var d := t[3 + w..][..n];
    assert MonDYDay(t) == d;
    MonDThen(fmt, t, NoFields, w, n);
    if AbbrevMonth(t).Some? && 1 <= DigitsValue(d) <= 31 {
      var f2 := NoFields.(month := AbbrevMonth(t), day := Some(DigitsValue(d)));
      calc {
        Match(fmt, t, NoFields);
      ==
        Match(fmt[3..], t[e..], f2);
      == { YearTailReads(fmt[3..], t, e, f2); }
        Some((f2.(year := Some(DigitsValue(t[|t| - 4..]))), []));
      }
    }
  }

  /** A "Mon D, YYYY" text is a "Mon D" match and then a year tail. */
  lemma MonDYParts(t: string)
    requires IsMonDYText(t)
    ensures MonDAt(t, 0).Some? && MonDAt(t, 0).value < |t| && t[MonDAt(t, 0).value] == ','
    ensures YearTailAt(t, MonDAt(t, 0).value) == Some(|t| - MonDAt(t, 0).value)
  {
    var e := MonDAt(t, 0).value;
    var r := YearTailAt(t, 0 + e).value;
    assert e + r == |t|;
  }

  /** `,\s+%Y` over the `,\s+\d{4}` that ends a text. */
  lemma YearTailReads(fmt: seq<Directive>, t: string, e: nat, f: Fields)
    requires fmt == [Lit(','), Spaces, Year]
    requires YearTailAt(t, e) == Some(|t| - e)
    ensures |t| >= 4 && AllDigits(t[|t| - 4..])
    ensures Match(fmt, t[e..], f) == Some((f.(year := Some(DigitsValue(t[|t| - 4..]))), []))
  {
    var w := SpaceRun(t, e + 1);
    var k := e + 1 + w;
    assert k == |t| - 4;
    var u, v, z := t[e..], t[e + 1..], t[|t| - 4..];
    assert u[1..] == v && v[w..] == z;
    assert AllDigits(z) by {
      assert z == t[k .. k + 4];
    }
    assert SpacesFor(v, w) by {
      forall i | 0 <= i < w ensures IsSpace(v[i]) {
        assert v[i] == t[e + 1 + i];
      }
      assert v[w] == z[0];
    }
    assert z[..4] == z && z[4..] == [];
    calc {
      Match(fmt, u, f);
    == { LitThen(fmt, u, f); }
      Match(fmt[1..], v, f);
    == { SpacesThen(fmt[1..], v, f, w); }
      Match(fmt[1..][1..], z, f);
    == { assert fmt[1..][1..] == [Year]; YearEnd([Year], z, f); }
      Some((f.(year := Some(DigitsValue(z))), []));
    }
  }

  /** '%m/%d/%Y' over a "MM/DD/YYYY" text reads its month, day and year. */
  lemma SlashReads(t: string)
    requires IsSlashText(t)
    ensures Parse(t, SlashFormat) == ReadSlash(t)
  {
    SlashMatch(t);
    var m, d := DigitsValue(SlashMonth(t)), DigitsValue(SlashDay(t));
    if 1 <= m <= 12 && 1 <= d <= 31 {
      ParseFull(t, SlashFormat, DigitsValue(YearDigits(t)), m, d);
    }
  }

  /** A "MM/DD/YYYY" text: one or two digits, `/`, one or two digits, `/`
      and four digits. */
  lemma SlashParts(t: string)
    requires IsSlashText(t)
    ensures var a := DigitRun12(t, 0); var b := DigitRun12(t, a + 1);
      0 < a && 0 < b && a + b + 6 == |t| && t[a] == '/' && t[a + 1 + b] == '/'
      && AllDigits(t[a + b + 2 .. a + b + 6])
  {
  }

  /** '%m/%d/%Y' over a "MM/DD/YYYY" text consumes it all when its digit
      runs write a month number and a day number. */
  lemma SlashMatch(t: string)
    requires IsSlashText(t)
    ensures !(1 <= DigitsValue(SlashMonth(t)) <= 12 && 1 <= DigitsValue(SlashDay(t)) <= 31) ==>
      Match(SlashFormat, t, NoFields).None?
    ensures 1 <= DigitsValue(SlashMonth(t)) <= 12 && 1 <= DigitsValue(SlashDay(t)) <= 31 ==>
      Match(SlashFormat, t, NoFields) ==
        Some((Fields(Some(DigitsValue(YearDigits(t))), Some(DigitsValue(SlashMonth(t))), Some(DigitsValue(SlashDay(t)))), []))
  {
    SlashParts(t);
    var a := DigitRun12(t, 0);
    var b := DigitRun12(t, a + 1);
    var k := a + 1 + b;
    var fmt := SlashFormat;
    var m, d := DigitsValue(SlashMonth(t)), DigitsValue(SlashDay(t));
    var u, x, z := t[a + 1..], t[k..], t[|t| - 4..];
    assert DigitsFor(t, a) by {
      forall i | 0 <= i < a ensures IsDigit(t[..a][i]) {
        assert t[..a][i] == t[i];
      }
    }
    assert t[a..][0] == '/' && t[a..][1..] == u;
    assert u[..b] == SlashDay(t);
    assert DigitsFor(u, b) by {
      forall i | 0 <= i < b ensures IsDigit(u[..b][i]) {
        assert u[..b][i] == t[a + 1 + i];
      }
      assert u[b] == t[k];
    }
    assert u[b..] == x && x[0] == '/' && x[1..] == z;
    LastFour(t, k + 1);
    assert AllDigits(z);
    assert z[..4] == z && z[4..] == [];
    assert fmt[1..][1..] == fmt[2..] && fmt[2..][1..] == fmt[3..] && fmt[3..][1..] == [Year];
    MonthThen(fmt, t, NoFields, a);
    if 1 <= m <= 12 {
      var f1 := NoFields.(month := Some(m));
      DayThen(fmt[2..], u, f1, b);
      calc {
        Match(fmt, t, NoFields);
      ==
        Match(fmt[1..], t[a..], f1);
      == { LitThen(fmt[1..], t[a..], f1); }
        Match(fmt[2..], u, f1);
      }
      if 1 <= d <= 31 {
        var f2 := f1.(day := Some(d));
        calc {
          Match(fmt[2..], u, f1);
        ==
          Match(fmt[3..], x, f2);
        == { LitThen(fmt[3..], x, f2); }
          Match([Year], z, f2);
        == { YearEnd([Year], z, f2); }
          Some((f2.(year := Some(DigitsValue(z))), []));
        }
      }
    }
  }

  // ---------------------------------------------------------------------
  // The shapes exclude one another.
  // ---------------------------------------------------------------------

  /** "Mon D" and "Mon D, YYYY" texts start with a letter; "YYYY-MM-DD" and
      "MM/DD/YYYY" texts with a digit; and a "Mon D, YYYY" text goes on past
      its "Mon D" match. */
  lemma ShapesApart(t: string)
    ensures IsMonDText(t) || IsMonDYText(t) ==> t != [] && IsLetter(t[0])
    ensures IsIsoText(t) ==> t != [] && IsDigit(t[0])
    ensures IsSlashText(t) ==> t != [] && IsDigit(t[0]) && !IsIsoText(t)
    ensures IsMonDYText(t) ==> !IsMonDText(t)
  {
    if IsIsoText(t) {
      assert t[..4][0] == t[0] && t[..4][1] == t[1] && t[..4][2] == t[2];
    }
    if IsSlashText(t) {
      SlashParts(t);
    }
    if IsMonDYText(t) {
      MonDYParts(t);
    }
  }

  // ---------------------------------------------------------------------
  // Stage 1: what a capture reads as.
  // ---------------------------------------------------------------------

  /** A "Mon D" capture whose letters abbreviate month `m`: that month and
      day in the current year, when the calendar has the date and the year
      has the four digits `%Y` demands; otherwise nothing. */
  lemma CaptureMonD(cap: string, today: Date, m: int)
    requires ValidDate(today) && IsMonDText(cap) && NamesAbbrev(cap, m)
    ensures var d := Date(today.year, m, DigitsValue(MonDDay(cap)));
      CaptureDate(cap, today) == if 1000 <= today.year && ValidDate(d) then Some(Format(d)) else None
  {
    MonDWithYearReads(cap, today.year);
  }

  /** A "Mon D, YYYY" capture whose letters abbreviate month `m`: that date,
      when the calendar has it; otherwise nothing. */
  lemma CaptureMonDY(cap: string, today: Date, m: int)
    requires ValidDate(today) && IsMonDYText(cap) && NamesAbbrev(cap, m)
    ensures var d := Date(DigitsValue(YearDigits(cap)), m, DigitsValue(MonDYDay(cap)));
      CaptureDate(cap, today) == if ValidDate(d) then Some(Format(d)) else None
  {
    ShapesApart(cap);
    MonDYReads(cap);
  }

  /** A "Mon D" or "Mon D, YYYY" capture whose letters abbreviate no month
      yields nothing: the ValueError is caught, and "ago" is not tried. */
  lemma CaptureNoMonth(cap: string, today: Date)
    requires ValidDate(today) && (IsMonDText(cap) || IsMonDYText(cap))
    requires forall k :: !NamesAbbrev(cap, k)
    ensures CaptureDate(cap, today).None?
  {
    if IsMonDText(cap) {
      MonDWithYearReads(cap, today.year);
    } else {
      ShapesApart(cap);
      MonDYReads(cap);
    }
  }

  /** A capture of neither shape is today exactly when it contains "ago",
      ignoring case, and nothing otherwise. */
  lemma CaptureOther(cap: string, today: Date)
    requires ValidDate(today) && !IsMonDText(cap) && !IsMonDYText(cap)
    ensures CaptureDate(cap, today) == Some(Format(today)) <==> Contains(Lower(cap), "ago")
    ensures !Contains(Lower(cap), "ago") ==> CaptureDate(cap, today).None?
  {
  }

  // ---------------------------------------------------------------------
  // Stage 3: what a candidate reads as.
  // ---------------------------------------------------------------------

  /** A "Mon D, YYYY" candidate whose letters abbreviate month `m`: that
      date, when the calendar has it; otherwise nothing. */
  lemma CandidateMonDY(c: string, today: Date, m: int)
    requires ValidDate(today) && IsMonDYText(c) && NamesAbbrev(c, m)
    ensures var d := Date(DigitsValue(YearDigits(c)), m, DigitsValue(MonDYDay(c)));
      CandidateDate(c, today) == if ValidDate(d) then Some(Format(d)) else None
  {
    ShapesApart(c);
    MonDYReads(c);
  }

  /** A "Mon D" candidate whose letters abbreviate month `m`: that month and
      day in the current year, when the calendar has the date and the year
      has four digits; otherwise nothing. */
  lemma CandidateMonD(c: string, today: Date, m: int)
    requires ValidDate(today) && IsMonDText(c) && NamesAbbrev(c, m)
    ensures var d := Date(today.year, m, DigitsValue(MonDDay(c)));
      CandidateDate(c, today) == if 1000 <= today.year && ValidDate(d) then Some(Format(d)) else None
  {
    ShapesApart(c);
    MonDWithYearReads(c, today.year);
  }

  /** A "MM/DD/YYYY" candidate: the date its digit runs write, when the
      calendar has it; otherwise nothing. */
  lemma CandidateSlash(c: string, today: Date)
    requires ValidDate(today) && IsSlashText(c)
    ensures var d := Date(DigitsValue(YearDigits(c)), DigitsValue(SlashMonth(c)), DigitsValue(SlashDay(c)));
      CandidateDate(c, today) == if ValidDate(d) then Some(Format(d)) else None
  {
    ShapesApart(c);
    SlashReads(c);
  }

  /** A "Mon D" or "Mon D, YYYY" candidate whose letters abbreviate no
      month yields nothing, and the scan moves on. */
  lemma CandidateNoMonth(c: string, today: Date)
    requires ValidDate(today) && (IsMonDText(c) || IsMonDYText(c))
    requires forall k :: !NamesAbbrev(c, k)
    ensures CandidateDate(c, today).None?
  {
    ShapesApart(c);
    if IsMonDYText(c) {
      MonDYReads(c);
    } else {
      MonDWithYearReads(c, today.year);
    }
  }

  // ---------------------------------------------------------------------
  // A page dated "Last updated Aug 6".
  // ---------------------------------------------------------------------

  /** The only text node reads "Last updated Aug 6" and the page has no
      `meta` date and no other text; today is 14 October 2025. The first
      phrase pattern finds "updated Aug 6" inside the node, and the capture
      is completed with the current year. */
  lemma LastUpdatedAug6()
    ensures ExtractFromHtml(Document(["Last updated Aug 6"], [], ""), Date(2025, 10, 14)) == Some("2025-08-06")
  {
    var t, today := "Last updated Aug 6", Date(2025, 10, 14);
    NodeAug6(t, today);
    assert [t][1..] == [];
    assert Stage1([t], today) == Some("2025-08-06");
  }

  /** The node yields 6 August of the current year. */
  lemma NodeAug6(t: string, today: Date)
    requires t == "Last updated Aug 6" && today == Date(2025, 10, 14)
    ensures NodeDate(t, today) == Some("2025-08-06")
  {
    var cap := "Aug 6";
    NodeCaptures(t, cap);
    AugSixReads(cap, today);
    assert PhraseDate(Phrases[0], t, today) == Some("2025-08-06");
    TextDateFirstPhrase(t, today, 0);
    KeywordNoop(t);
  }

  /** The node carries the keyword and has nothing to strip. */
  lemma KeywordNoop(t: string)
    requires t == "Last updated Aug 6"
    ensures HasKeyword(t) && Strip(t) == t
  {
    UpdatedAt(t);
    StripNoop(t);
  }

  /** The first phrase pattern's leftmost match in the node captures "Aug 6". */
  lemma NodeCaptures(t: string, cap: string)
    requires t == "Last updated Aug 6" && cap == "Aug 6"
    ensures SearchPhrase(UpdatedDate, t, 0) == Some(cap)
  {
    UpdatedAt(t);
    forall j | 0 <= j < 5 ensures PhraseAt(UpdatedDate, t, j).None? {
      assert t[j] in "Last ";
      NotLowerAtHead(t, j, "updated");
    }
    CaptureAfterUpdated(t);
    PhraseFromFirst(UpdatedDate, t, 0, 5);
    assert t[13 .. 18] == cap;
  }

  /** "updated" stands at index 5, followed by one space. */
  lemma UpdatedAt(t: string)
    requires t == "Last updated Aug 6"
    ensures LowerAt(t, 5, "updated") && SpaceRun(t, 12) == 1
    ensures |t| == 18 && !IsSpace(t[0]) && !IsSpace(t[17])
  {
    UpdatedWord(t);
    assert t[12] == ' ' && t[13] == 'A';
    SingleSpace(t, 12);
  }

  lemma UpdatedWord(t: string)
    requires t == "Last updated Aug 6"
    ensures LowerAt(t, 5, "updated")
  {
    assert t[5 .. 12] == "updated";
    LowerUpdated("updated");
  }

  lemma LowerUpdated(w: string)
    requires w == "updated"
    ensures Lower(w) == w
  {
  }

  /** A word does not start where a character other than its first stands. */
  lemma NotLowerAtHead(s: string, i: nat, w: string)
    requires w != [] && i < |s| && LowerChar(s[i]) != w[0]
    ensures !LowerAt(s, i, w)
  {
    if i + |w| <= |s| {
      assert s[i .. i + |w|][0] == s[i];
    }
  }

  /** After "updated " comes the "Mon D" text "Aug 6", ending the node. */
  lemma CaptureAfterUpdated(t: string)
    requires t == "Last updated Aug 6"
    requires LowerAt(t, 5, "updated") && SpaceRun(t, 12) == 1
    ensures PhraseAt(UpdatedDate, t, 5) == Some(t[13 .. 18])
  {
    assert AfterWord(t, 5, "updated") == Some(13);
    assert IsLetter(t[13]) && IsLetter(t[14]) && IsLetter(t[15]);
    assert t[16] == ' ' && t[17] == '6';
    SingleSpace(t, 16);
    assert DigitRun12(t, 17) == 1;
    assert MonDAt(t, 13) == Some(5);
    assert YearTailAt(t, 18).None?;
  }

  /** "Aug 6" in 2025 reads as 6 August 2025. */
  lemma AugSixReads(cap: string, today: Date)
    requires cap == "Aug 6" && today == Date(2025, 10, 14)
    ensures CaptureDate(cap, today) == Some("2025-08-06")
  {
    AugSixShape(cap);
    CaptureMonD(cap, today, 8);
    AugSixFormat();
  }

  /** "Aug 6" is a "Mon D" text naming August and day 6. */
  lemma AugSixShape(cap: string)
    requires cap == "Aug 6"
    ensures IsMonDText(cap) && NamesAbbrev(cap, 8) && DigitsValue(MonDDay(cap)) == 6
  {
    assert cap[3] == ' ' && cap[4] == '6';
    SingleSpace(cap, 3);
    assert MonDAt(cap, 0) == Some(5);
    assert cap[..3] == "Aug" && Lower("Aug") == "aug";
    assert MonDDay(cap) == cap[4..][..1];
    assert cap[4..][..1] == [cap[4]];
    OneDigitValue([cap[4]]);
  }

  /** The canonical text of 6 August 2025. */
  lemma AugSixFormat()
    ensures Format(Date(2025, 8, 6)) == "2025-08-06"
  {
    var p := "2025-08-06";
    FourDigitsValue(p[..4]);
    TwoDigitsValue(p[5..7]);
    TwoDigitsValue(p[8..]);
    assert DateOfIso(p) == Date(2025, 8, 6);
    FormatOfIsoText(p);
  }
}
