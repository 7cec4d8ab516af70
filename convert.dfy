/** The three field parsers of the CSV-to-JSON conversion: the update time
    normalised to a sortable `YYYY-MM-DD` key, the parameter count read off a
    size such as `7B`, and the download count read as a number. Each field
    reaches them already stripped; each treats the empty text, an em dash and
    pandas' `nan` as missing before it strips again. */
module Convert {
  import opened Wrappers
  import opened Text
  import opened Calendar
  import opened Strptime

  /** The sort key of a model whose update time is missing. */
  const MissingTime := "9999-99-99"

  const EmDash := "\U{2014}"

  /** The texts the three parsers treat as a missing value. */
  predicate IsMissing(s: string) {
    s == [] || s == EmDash || s == "nan"
  }

  // ---------------------------------------------------------------------
  // standardize_time

  /** The formats tried in turn: `%Y-%m-%d`, `%b %d, %Y`, `%B %d, %Y`,
      `%d %b %Y`, `%d %B %Y`. */
  const TimeFormats: seq<seq<Directive>> :=
    [IsoFormat, AbbrevDayCommaYear, NameDayCommaYear, DayAbbrevYear, DayNameYear]

  /** The date of the first of `fmts` that parses `t`. */
  function FirstParse(t: string, fmts: seq<seq<Directive>>): (r: Option<Date>)
    ensures r.Some? ==> ValidDate(r.value)
    ensures r.None? <==> forall i :: 0 <= i < |fmts| ==> Parse(t, fmts[i]).None?
    decreases |fmts|
  {
    if fmts == [] then None
    else
      var rest := FirstParse(t, fmts[1..]);
      assert forall i :: 1 <= i < |fmts| ==> fmts[i] == fmts[1..][i - 1];
      Parse(t, fmts[0]).OrElse(rest)
  }

  /** The first format that parses wins, whatever the later ones would give. */
  lemma {:induction false} FirstParseFirstWins(t: string, fmts: seq<seq<Directive>>, i: nat)
    requires i < |fmts| && Parse(t, fmts[i]).Some?
    requires forall j :: 0 <= j < i ==> Parse(t, fmts[j]).None?
    ensures FirstParse(t, fmts) == Parse(t, fmts[i])
    decreases i
  {
    if i > 0 {
      assert fmts[1..][i - 1] == fmts[i];
      assert forall j :: 0 <= j < i - 1 ==> fmts[1..][j] == fmts[j + 1];
      FirstParseFirstWins(t, fmts[1..], i - 1);
    }
  }

  /** `standardize_time`: the missing key for a missing value, the canonical
      text of the first format's date, or the stripped text unchanged. */
  function StandardizeTime(s: string): (r: string)
    ensures IsMissing(s) ==> r == MissingTime
    ensures !IsMissing(s) ==>
              r == Strip(s) || (IsIsoShape(r) && ValidDate(DateOfIso(r)) && Format(DateOfIso(r)) == r)
  {
    if IsMissing(s) then MissingTime
    else
      var t := Strip(s);
      match FirstParse(t, TimeFormats)
      case Some(d) =>
        FormatOfIsoText(Format(d));
        assert DateOfIso(Format(d)) == d;
        Format(d)
      case None => t
  }

  /** A present value is keyed by the date of the first format that parses it. */
  lemma StandardizeTimeFirstFormat(s: string, i: nat)
    requires !IsMissing(s) && i < |TimeFormats|
    requires Parse(Strip(s), TimeFormats[i]).Some?
    requires forall j :: 0 <= j < i ==> Parse(Strip(s), TimeFormats[j]).None?
    ensures StandardizeTime(s) == Format(Parse(Strip(s), TimeFormats[i]).value)
  {
    FirstParseFirstWins(Strip(s), TimeFormats, i);
  }

  /** A present value that no format parses is kept, stripped, for display. */
  lemma StandardizeTimeUnparsed(s: string)
    requires !IsMissing(s)
    requires forall j :: 0 <= j < |TimeFormats| ==> Parse(Strip(s), TimeFormats[j]).None?
    ensures StandardizeTime(s) == Strip(s)
  {
  }

  /** A canonical date text is its own key. */
  lemma StandardizeTimeOfFormat(d: Date)
    requires ValidDate(d)
    ensures StandardizeTime(Format(d)) == Format(d)
  {
    var t := Format(d);
    IsoShapeChars(t);
    StripNoop(t);
    assert !IsMissing(t) by { assert |t| == 10; }
    ParseFormatRoundTrip(d);
    FirstParseFirstWins(t, TimeFormats, 0);
  }

  /** No format parses the missing key: `%Y-%m-%d` reads the year 9999 and the
      one-digit month 9, then meets a digit where the dash belongs; `%b` and
      `%B` need a letter first; `%d` reads 9 and then needs a space. */
  lemma MissingTimeParsesWithNoFormat(m: string)
    requires m == MissingTime
    ensures forall j :: 0 <= j < |TimeFormats| ==> Parse(m, TimeFormats[j]).None?
  {
    MissingTimeIso(m);
    MissingTimeMonthFirst(m);
    MissingTimeDayFirst(m);
    NoTimeFormatParses(m);
  }

  /** Text that each of the five formats rejects parses with none of them. */
  lemma NoTimeFormatParses(m: string)
    requires Parse(m, IsoFormat).None?
    requires Parse(m, AbbrevDayCommaYear).None? && Parse(m, NameDayCommaYear).None?
    requires Parse(m, DayAbbrevYear).None? && Parse(m, DayNameYear).None?
    ensures forall j :: 0 <= j < |TimeFormats| ==> Parse(m, TimeFormats[j]).None?
  {
    forall j | 0 <= j < |TimeFormats| ensures Parse(m, TimeFormats[j]).None? {
      if j == 0 { assert TimeFormats[j] == IsoFormat; }
      else if j == 1 { assert TimeFormats[j] == AbbrevDayCommaYear; }
      else if j == 2 { assert TimeFormats[j] == NameDayCommaYear; }
      else if j == 3 { assert TimeFormats[j] == DayAbbrevYear; }
      else { assert TimeFormats[j] == DayNameYear; }
    }
  }

  lemma MissingTimeIso(m: string)
    requires m == MissingTime
    ensures Match(IsoFormat, m, NoFields).None? && Parse(m, IsoFormat).None?
  {
    assert AllDigits(m[..4]);
    var f := NoFields.(year := Some(DigitsValue(m[..4])));
    assert Step(Year, m, NoFields) == Some((f, m[4..]));
    assert Step(Lit('-'), m[4..], f) == Some((f, m[5..]));
    assert m[5..][1..] == m[6..];
    assert Step(Month, m[5..], f) == Some((f.(month := Some(9)), m[6..]));
    assert Step(Lit('-'), m[6..], f.(month := Some(9))).None?;
    assert IsoFormat[1..][1..] == [Month, Lit('-'), Day];
  }

  lemma MissingTimeMonthFirst(m: string)
    requires m == MissingTime
    ensures Parse(m, AbbrevDayCommaYear).None? && Parse(m, NameDayCommaYear).None?
  {
    assert m[0] == '9';
    DigitFirstNoMonth(m);
  }

  /** Text starting with a digit fails `%b` and `%B`. */
  lemma DigitFirstNoMonth(s: string)
    requires |s| > 0 && IsDigit(s[0])
    ensures Parse(s, AbbrevDayCommaYear).None? && Parse(s, NameDayCommaYear).None?
  {
    MonthAbbrevsLower();
    MonthNamesLower();
    MonthFromNeedsLetter(s, MonthAbbrevs, 0);
    MonthFromNeedsLetter(s, MonthNames, 0);
    FirstStepFails(s, AbbrevDayCommaYear);
    FirstStepFails(s, NameDayCommaYear);
  }

  lemma MissingTimeDayFirst(m: string)
    requires m == MissingTime
    ensures Parse(m, DayAbbrevYear).None? && Parse(m, DayNameYear).None?
  {
    var g := NoFields.(day := Some(9));
    assert Step(Day, m, NoFields) == Some((g, m[1..]));
    assert Step(Spaces, m[1..], g).None?;
  }

  /** `%b` and `%B` need a letter at the start of the input. */
  lemma {:induction false} MonthFromNeedsLetter(s: string, names: seq<string>, i: nat)
    requires i <= |names| && |s| > 0 && IsDigit(s[0])
    requires forall k :: 0 <= k < |names| ==> |names[k]| > 0 && 'a' <= names[k][0] <= 'z'
    ensures MonthFrom(s, names, i).None?
    decreases |names| - i
  {
    if i < |names| {
      if |names[i]| <= |s| {
        assert Lower(s[..|names[i]|])[0] == LowerChar(s[0]) == s[0];
      }
      MonthFromNeedsLetter(s, names, i + 1);
    }
  }

  /** The missing key is a fixed point: it is present, and no format parses it. */
  lemma StandardizeMissingTime()
    ensures StandardizeTime(MissingTime) == MissingTime
  {
    var m := MissingTime;
    assert !IsMissing(m) by { assert |m| == 10; }
    StripNoop(m);
    MissingTimeParsesWithNoFormat(m);
  }

  /** `standardize_time` is idempotent on the stripped fields it receives. */
  lemma StandardizeTimeIdempotent(s: string)
    requires Strip(s) == s
    ensures StandardizeTime(StandardizeTime(s)) == StandardizeTime(s)
  {
    var r := StandardizeTime(s);
    if IsMissing(s) {
      StandardizeMissingTime();
    } else if FirstParse(s, TimeFormats).Some? {
      StandardizeTimeOfFormat(FirstParse(s, TimeFormats).value);
    } else {
      assert r == s;
    }
  }

  /** On a field that is not stripped it is not: a lone space is present,
      strips to the empty text, and the empty text is missing. */
  lemma StandardizeTimeNotIdempotentOnSpace(s: string)
    requires s == " "
    ensures StandardizeTime(s) == [] && StandardizeTime(StandardizeTime(s)) == MissingTime
  {
    assert Strip(s) == [];
    assert FirstParse([], TimeFormats).None?;
  }

  /** The placeholder `-` of an unknown update time parses with no format and
      is kept as it is; it is not treated as missing. */
  lemma StandardizeDash(s: string)
    requires s == "-"
    ensures StandardizeTime(s) == "-"
  {
    StripNoop(s);
    MonthFromNeedsNameLength(s, MonthAbbrevs, 0);
    MonthFromNeedsNameLength(s, MonthNames, 0);
    assert forall j :: 0 <= j < |TimeFormats| ==> Parse(s, TimeFormats[j]).None?;
  }

  /** A one-character input is shorter than every month name. */
  lemma {:induction false} MonthFromNeedsNameLength(s: string, names: seq<string>, i: nat)
    requires i <= |names| && |s| <= 1
    requires forall k :: 0 <= k < |names| ==> |names[k]| >= 3
    ensures MonthFrom(s, names, i).None?
    decreases |names| - i
  {
    if i < |names| { MonthFromNeedsNameLength(s, names, i + 1); }
  }

  // ---------------------------------------------------------------------
  // parse_model_size

  /** The characters of `a + rest`, position by position. */
  lemma SplitAt(s: string, a: string, rest: string)
    requires s == a + rest
    ensures s[..|a|] == a && s[|a|..] == rest
    ensures forall k :: 0 <= k < |a| ==> s[k] == a[k]
    ensures forall k :: |a| <= k < |s| ==> s[k] == rest[k - |a|]
  {
  }

  /** The number a decimal numeral `a.b` denotes. */
  function DecimalValue(a: string, b: string): (r: real)
    requires AllDigits(a) && AllDigits(b)
    ensures r >= DigitsValue(a) as real
  {
    DigitsValue(a) as real + DigitsValue(b) as real / Pow10(|b|) as real
  }

  /** `re.match(r'(\d+(?:\.\d+)?)', t)`: the whole digits and the fraction
      digits of the numeral `t` starts with (the fraction empty when no dot
      and digit follow the whole part). */
  function LeadingNumeral(t: string): (r: Option<(string, string)>)
    ensures r.Some? <==> t != [] && IsDigit(t[0])
    ensures r.Some? ==> r.value.0 != [] && AllDigits(r.value.0) && AllDigits(r.value.1)
  {
    var a := DigitRun(t, 0);
    if a == 0 then None
    else
      var b := if a < |t| && t[a] == '.' then DigitRun(t, a + 1) else 0;
      assert AllDigits(t[..a]);
      if b > 0 then
        assert AllDigits(t[a + 1 .. a + 1 + b]);
        Some((t[..a], t[a + 1 .. a + 1 + b]))
      else Some((t[..a], []))
  }

  /** `parse_model_size`: the number the stripped text starts with; None for
      a missing value or a text that does not start with a digit. The
      fraction is read exactly rather than rounded to a double. */
  function ParseModelSize(s: string): (r: Option<real>)
    ensures r.None? <==> IsMissing(s) || Strip(s) == [] || !IsDigit(Strip(s)[0])
    ensures r.Some? ==> r.value >= 0.0
  {
    if IsMissing(s) then None
    else
      match LeadingNumeral(Strip(s))
      case Some((a, b)) => Some(DecimalValue(a, b))
      case None => None
  }

  /** A run of digits `a` that no dot and digit follow is the whole numeral. */
  lemma LeadingWhole(t: string, a: string)
    requires 0 < |a| <= |t| && DigitRun(t, 0) == |a| && t[..|a|] == a
    requires |a| < |t| && t[|a|] == '.' ==> DigitRun(t, |a| + 1) == 0
    ensures LeadingNumeral(t) == Some((a, []))
  {
  }

  /** Digits `a`, a dot and digits `b` make the numeral. */
  lemma LeadingFraction(t: string, a: string, b: string)
    requires 0 < |a| && 0 < |b| && |a| + 1 + |b| <= |t| && DigitRun(t, 0) == |a|
    requires t[|a|] == '.' && DigitRun(t, |a| + 1) == |b|
    requires t[..|a|] == a && t[|a| + 1 .. |a| + 1 + |b|] == b
    ensures LeadingNumeral(t) == Some((a, b))
  {
  }

  /** A numeral the text starts with, and the unit or words after it. */
  predicate SizeText(s: string, a: string, rest: string) {
    s == a + rest && a != [] && AllDigits(a) && !IsSpace(s[|s| - 1])
  }

  /** A text starting with a digit and ending in no space is present and
      already stripped. */
  lemma SizeTextStripped(s: string, a: string, rest: string)
    requires SizeText(s, a, rest)
    ensures !IsMissing(s) && Strip(s) == s
  {
    assert s[0] == a[0];
    StripNoop(s);
  }

  /** A whole number followed by something other than a digit or a dot is
      read as that number: `7B` is 7. */
  lemma ParseModelSizeWhole(s: string, a: string, rest: string)
    requires SizeText(s, a, rest)
    requires rest == [] || (!IsDigit(rest[0]) && rest[0] != '.')
    ensures ParseModelSize(s) == Some(DigitsValue(a) as real)
  {
    WholeShapeOf(s, a, rest);
    WholeAt(s, a);
  }

  /** A dot that no digit follows is not part of the number: `1.B` is 1. */
  lemma ParseModelSizeBareDot(s: string, a: string, rest: string)
    requires SizeText(s, a, "." + rest)
    requires rest == [] || !IsDigit(rest[0])
    ensures ParseModelSize(s) == Some(DigitsValue(a) as real)
  {
    var r := "." + rest;
    assert |r| >= 2 ==> r[1] == rest[0];
    WholeShapeOf(s, a, r);
    WholeAt(s, a);
  }

  /** `n` digits from the start of a text that ends in no space, followed by
      no digit, nor by a dot and a digit. */
  predicate WholeShape(s: string, n: nat) {
    0 < n <= |s| && AllDigits(s[..n])
    && (n == |s| || !IsDigit(s[n]))
    && (n + 1 < |s| && s[n] == '.' ==> !IsDigit(s[n + 1]))
    && !IsSpace(s[|s| - 1])
  }

  lemma WholeShapeOf(s: string, a: string, r: string)
    requires SizeText(s, a, r)
    requires r == [] || !IsDigit(r[0])
    requires |r| >= 2 && r[0] == '.' ==> !IsDigit(r[1])
    ensures WholeShape(s, |a|) && s[..|a|] == a
  {
    SplitAt(s, a, r);
  }

  lemma WholeAt(s: string, a: string)
    requires WholeShape(s, |a|) && s[..|a|] == a
    ensures ParseModelSize(s) == Some(DigitsValue(a) as real)
  {
    WholeRuns(s, a);
    LeadingWhole(s, a);
    WholeClean(s, a);
    SizeOfNumeral(s, a, []);
    DecimalNoFraction(a);
  }

  /** The digit runs `LeadingNumeral` measures, on a whole numeral. */
  lemma WholeRuns(s: string, a: string)
    requires WholeShape(s, |a|) && s[..|a|] == a
    ensures 0 < |a| <= |s| && DigitRun(s, 0) == |a| && s[..|a|] == a
    ensures |a| < |s| && s[|a|] == '.' ==> DigitRun(s, |a| + 1) == 0
  {
    DigitRunSlice(s, 0, a);
    if |a| < |s| && s[|a|] == '.' {
      DigitRunExact(s, |a| + 1, 0);
    }
  }

  /** A whole numeral is not a missing mark and has nothing to strip. */
  lemma WholeClean(s: string, a: string)
    requires WholeShape(s, |a|) && s[..|a|] == a
    ensures !IsMissing(s) && Strip(s) == s && AllDigits(a)
  {
    assert IsDigit(s[0]) by { assert s[0] == a[0]; }
    MissingHasNoDigit(s);
    StripNoop(s);
  }

  lemma DecimalNoFraction(a: string)
    requires AllDigits(a)
    ensures DecimalValue(a, []) == DigitsValue(a) as real
  {
    assert Pow10(0) == 1 && DigitsValue([]) == 0;
  }

  /** A numeral with a fraction is read with it: `0.5B` is 0.5. */
  lemma ParseModelSizeFraction(s: string, a: string, b: string, rest: string)
    requires SizeText(s, a, "." + b + rest)
    requires b != [] && AllDigits(b)
    requires rest == [] || !IsDigit(rest[0])
    ensures ParseModelSize(s) == Some(DecimalValue(a, b))
  {
    FractionShapeOf(s, a, b, rest);
    FractionAt(s, a, b);
  }

  /** `n` digits, a dot and `m` digits from the start of a text that ends
      in no space, with no digit after them. */
  predicate FractionShape(s: string, n: nat, m: nat) {
    0 < n && 0 < m && n + 1 + m <= |s|
    && AllDigits(s[..n]) && s[n] == '.' && AllDigits(s[n + 1 .. n + 1 + m])
    && (n + 1 + m == |s| || !IsDigit(s[n + 1 + m]))
    && !IsSpace(s[|s| - 1])
  }

  lemma FractionShapeOf(s: string, a: string, b: string, rest: string)
    requires SizeText(s, a, "." + b + rest)
    requires b != [] && AllDigits(b)
    requires rest == [] || !IsDigit(rest[0])
    ensures FractionShape(s, |a|, |b|) && s[..|a|] == a && s[|a| + 1 .. |a| + 1 + |b|] == b
  {
    SplitFraction(s, a, b, rest);
    var n := |a| + 1 + |b|;
    if n < |s| {
      assert s[n] == s[n..][0];
    }
  }

  lemma FractionAt(s: string, a: string, b: string)
    requires FractionShape(s, |a|, |b|) && s[..|a|] == a && s[|a| + 1 .. |a| + 1 + |b|] == b
    ensures ParseModelSize(s) == Some(DecimalValue(a, b))
  {
    var n := |a|;
    assert IsDigit(s[0]) by { assert s[0] == a[0]; }
    MissingHasNoDigit(s);
    StripNoop(s);
    DigitRunSlice(s, 0, a);
    DigitRunSlice(s, n + 1, b);
    LeadingFraction(s, a, b);
    SizeOfNumeral(s, a, b);
  }

  /** The pieces of `a + "." + b + rest`, where they lie. */
  lemma SplitFraction(s: string, a: string, b: string, rest: string)
    requires s == a + ("." + b + rest)
    ensures |s| == |a| + 1 + |b| + |rest| && s[|a|] == '.'
    ensures s[..|a|] == a && s[|a| + 1 .. |a| + 1 + |b|] == b && s[|a| + 1 + |b| ..] == rest
  {
    var u := "." + b + rest;
    assert s[|a| ..] == u;
    assert u[1 ..] == b + rest;
    assert s[|a| + 1 ..] == b + rest;
    assert (b + rest)[.. |b|] == b && (b + rest)[|b| ..] == rest;
  }

  /** Digits `w` at `s[i..]` that are not followed by a digit are the run there. */
  lemma DigitRunSlice(s: string, i: nat, w: string)
    requires i + |w| <= |s| && s[i .. i + |w|] == w && AllDigits(w)
    requires i + |w| == |s| || !IsDigit(s[i + |w|])
    ensures DigitRun(s, i) == |w|
  {
    forall k | i <= k < i + |w| ensures IsDigit(s[k]) {
      assert s[k] == s[i .. i + |w|][k - i];
    }
    DigitRunExact(s, i, |w|);
  }

  /** A present, stripped text reads as the numeral it starts with. */
  lemma SizeOfNumeral(s: string, a: string, b: string)
    requires !IsMissing(s) && Strip(s) == s
    requires AllDigits(a) && AllDigits(b) && LeadingNumeral(s) == Some((a, b))
    ensures ParseModelSize(s) == Some(DecimalValue(a, b))
  {
  }

  // ---------------------------------------------------------------------
  // parse_download_number

  /** The exponent `[eE][+-]?\d+` of a float literal from `k` to the end of
      `t`, 0 when there is none; None when something else follows. */
  function ExponentAt(t: string, k: nat): (r: Option<int>)
    requires k <= |t|
    ensures r.Some? ==> k == |t| || t[k] == 'e' || t[k] == 'E'
    ensures r.Some? ==> forall q :: k < q < |t| ==> IsDigit(t[q]) || t[q] == '+' || t[q] == '-'
  {
    if k == |t| then Some(0)
    else if t[k] != 'e' && t[k] != 'E' then None
    else
      var i := if k + 1 < |t| && (t[k + 1] == '+' || t[k + 1] == '-') then k + 2 else k + 1;
      var n := DigitRun(t, i);
      if n == 0 || i + n != |t| then None
      else
        assert AllDigits(t[i..]);
        var e: int := DigitsValue(t[i..]);
        Some(if t[k + 1] == '-' then -e else e)
  }

  /** A decimal float literal: its sign, whole digits, fraction digits and
      exponent. */
  datatype FloatLiteral = FloatLiteral(negative: bool, whole: string, fraction: string, exponent: int)

  /** What `float(t)` accepts of a decimal literal, `[+-]?(\d+(\.\d*)?|\.\d+)`
      with an optional exponent, filling the whole of `t`. */
  function ReadFloat(t: string): (r: Option<FloatLiteral>)
    ensures r.Some? ==> AllDigits(r.value.whole) && AllDigits(r.value.fraction)
    ensures r.Some? ==> |r.value.whole| + |r.value.fraction| > 0
  {
    var i := if |t| > 0 && (t[0] == '+' || t[0] == '-') then 1 else 0;
    var a := DigitRun(t, i);
    var j := i + a;
    var dot := j < |t| && t[j] == '.';
    var b := if dot then DigitRun(t, j + 1) else 0;
    var k := if dot then j + 1 + b else j;
    if a + b == 0 then None
    else
      match ExponentAt(t, k)
      case None => None
      case Some(e) =>
        var frac := if dot then t[j + 1 .. k] else [];
        LiteralDigits(t, i, j, dot, k);
        Some(FloatLiteral(|t| > 0 && t[0] == '-', t[i..j], frac, e))
  }

  /** The digit runs `ReadFloat` takes are digits. */
  lemma LiteralDigits(t: string, i: nat, j: nat, dot: bool, k: nat)
    requires i <= |t| && j == i + DigitRun(t, i)
    requires dot ==> j < |t| && k == j + 1 + DigitRun(t, j + 1)
    ensures AllDigits(t[i..j]) && AllDigits(if dot then t[j + 1 .. k] else [])
  {
    DigitRunDigits(t, i);
    if dot {
      DigitRunDigits(t, j + 1);
    }
  }

  /** `m * 10^k`. */
  function Grow(m: nat, k: nat): nat {
    if k == 0 then m else 10 * Grow(m, k - 1)
  }

  /** `m / 10^k`, rounded down. */
  function Shrink(m: nat, k: nat): nat {
    if k == 0 then m else Shrink(m / 10, k - 1)
  }

  /** The integer `m * 10^e` truncated toward zero. */
  function Scale(m: nat, e: int): nat {
    if e >= 0 then Grow(m, e) else Shrink(m, -e)
  }

  /** `int(...)` of the literal's value: truncated toward zero. */
  function Truncated(f: FloatLiteral): int
    requires AllDigits(f.whole) && AllDigits(f.fraction)
  {
    DigitsValueAppend(f.whole, f.fraction);
    var mag: int := Scale(DigitsValue(f.whole + f.fraction), f.exponent - |f.fraction|);
    if f.negative then -mag else mag
  }

  /** `int(float(t))`, None for anything `float` rejects. */
  function IntOfFloat(t: string): Option<int> {
    match ReadFloat(t)
    case Some(f) => Some(Truncated(f))
    case None => None
  }

  /** The characters a float literal is made of. */
  predicate IsNumeralChar(c: char) {
    IsDigit(c) || c == '+' || c == '-' || c == '.' || c == 'e' || c == 'E'
  }

  /** What `float` accepts holds nothing but numeral characters. */
  lemma ReadFloatChars(t: string, q: nat)
    requires ReadFloat(t).Some? && q < |t|
    ensures IsNumeralChar(t[q])
  {
    var i := if |t| > 0 && (t[0] == '+' || t[0] == '-') then 1 else 0;
    var a := DigitRun(t, i);
    var j := i + a;
    var dot := j < |t| && t[j] == '.';
    var b := if dot then DigitRun(t, j + 1) else 0;
    var k := if dot then j + 1 + b else j;
    assert ExponentAt(t, k).Some?;
    if q < i {
    } else if q < j {
    } else if dot && q == j {
    } else if dot && q < k {
    } else if q == k {
    } else {
    }
  }

  /** `parse_download_number`: 0 for a missing value and for any text that is
      not a float literal, otherwise the literal truncated toward zero. */
  function ParseDownloadNumber(s: string): (r: int)
    ensures IsMissing(s) ==> r == 0
    ensures !IsMissing(s) && ReadFloat(Strip(s)).None? ==> r == 0
    ensures !IsMissing(s) && ReadFloat(Strip(s)).Some? ==> r == Truncated(ReadFloat(Strip(s)).value)
  {
    if IsMissing(s) then 0 else IntOfFloat(Strip(s)).GetOr(0)
  }

  /** A count with a thousands separator, such as `1,234`, is not a float
      literal and counts as 0. */
  lemma DownloadsWithSeparatorAreZero(s: string, q: nat)
    requires q < |Strip(s)| && Strip(s)[q] == ','
    ensures ParseDownloadNumber(s) == 0
  {
    if !IsMissing(s) && ReadFloat(Strip(s)).Some? {
      ReadFloatChars(Strip(s), q);
      assert false;
    }
  }

  /** A plain run of digits is read as the number it spells. */
  lemma DownloadsOfDigits(d: string)
    requires d != [] && AllDigits(d)
    ensures ParseDownloadNumber(d) == DigitsValue(d)
  {
    StripNoop(d);
    assert !IsMissing(d) by { assert IsDigit(d[0]); }
    DigitRunExact(d, 0, |d|);
    assert d[0..|d|] == d;
    assert ReadFloat(d) == Some(FloatLiteral(false, d, [], 0));
    assert d + [] == d;
  }

  /** None of the missing markers holds a digit. */
  lemma MissingHasNoDigit(s: string)
    ensures IsMissing(s) ==> forall k :: 0 <= k < |s| ==> !IsDigit(s[k])
  {
  }

  /** The positions of `sign + a + "." + b`. */
  lemma DecimalChars(s: string, sign: string, a: string, b: string)
    requires s == sign + a + "." + b
    ensures s[..|sign|] == sign && s[|sign| .. |sign| + |a|] == a && s[|sign| + |a|] == '.'
    ensures s[|sign| + |a| + 1 ..] == b
    ensures forall k :: |sign| <= k < |sign| + |a| ==> s[k] == a[k - |sign|]
    ensures forall k :: |sign| + |a| + 1 <= k < |s| ==> s[k] == b[k - |sign| - |a| - 1]
  {
    var head := sign + a + ".";
    SplitAt(s, head, b);
    SplitAt(head, sign + a, ".");
    SplitAt(sign + a, sign, a);
  }

  /** `sign a.b` is read as a literal with that sign, whole part and
      fraction, and no exponent. */
  lemma ReadDecimal(s: string, sign: string, a: string, b: string)
    requires sign == [] || sign == "-"
    requires s == sign + a + "." + b && a != [] && AllDigits(a) && AllDigits(b)
    ensures ReadFloat(s) == Some(FloatLiteral(sign != [], a, b, 0))
  {
    DecimalChars(s, sign, a, b);
    var i := |sign|;
    var j := i + |a|;
    DigitRunExact(s, i, |a|);
    DigitRunExact(s, j + 1, |b|);
    assert s[j + 1 .. |s|] == b;
    assert s[i..j] == a;
    assert |s| > 0 && (s[0] == '-' <==> sign != []) && (s[0] == '+' || s[0] == '-' <==> sign != []) by {
      if sign == [] { assert s[0] == a[0]; } else { assert s[0] == sign[0]; }
    }
    ReadFloatNoExponent(s, i, |a|, |b|);
  }

  /** A literal with a dot and no exponent, given by where its parts end. */
  lemma ReadFloatNoExponent(t: string, i: nat, a: nat, b: nat)
    requires i + a + 1 + b == |t| && a > 0
    requires i == (if t[0] == '+' || t[0] == '-' then 1 else 0)
    requires DigitRun(t, i) == a && t[i + a] == '.' && DigitRun(t, i + a + 1) == b
    ensures ReadFloat(t) == Some(FloatLiteral(t[0] == '-', t[i .. i + a], t[i + a + 1 ..], 0))
  {
    assert ExponentAt(t, |t|) == Some(0);
    assert t[i + a + 1 .. |t|] == t[i + a + 1 ..];
  }

  /** A present text starting with a sign or a digit and ending in a digit
      or a dot is already stripped. */
  lemma DecimalStripped(s: string, sign: string, a: string, b: string)
    requires sign == [] || sign == "-"
    requires s == sign + a + "." + b && a != [] && AllDigits(a) && AllDigits(b)
    ensures !IsMissing(s) && Strip(s) == s
  {
    DecimalChars(s, sign, a, b);
    assert IsDigit(s[|sign|]);
    MissingHasNoDigit(s);
    assert !IsSpace(s[0]) by {
      if sign == [] { assert s[0] == a[0]; } else { assert s[0] == sign[0]; }
    }
    assert !IsSpace(s[|s| - 1]) by {
      if b != [] { assert s[|s| - 1] == b[|b| - 1]; }
    }
    StripNoop(s);
  }

  /** Without an exponent the fraction is cut off toward zero on either
      side of zero. */
  lemma TruncatedDropsFraction(f: FloatLiteral)
    requires AllDigits(f.whole) && AllDigits(f.fraction) && f.exponent == 0
    ensures Truncated(f) == if f.negative then -(DigitsValue(f.whole) as int) else DigitsValue(f.whole)
  {
    ShrinkDigits(f.whole, f.fraction);
  }

  /** `-a.b` counts `-a` downloads and `a.b` counts `a`. */
  lemma DownloadsTruncateTowardZero(s: string, sign: string, a: string, b: string)
    requires sign == [] || sign == "-"
    requires s == sign + a + "." + b && a != [] && AllDigits(a) && AllDigits(b)
    ensures ParseDownloadNumber(s) == if sign == [] then DigitsValue(a) else -(DigitsValue(a) as int)
  {
    DecimalStripped(s, sign, a, b);
    ReadDecimal(s, sign, a, b);
    TruncatedDropsFraction(FloatLiteral(sign != [], a, b, 0));
  }

  /** Dropping the last `|b|` digits of `a + b` leaves `a`. */
  lemma {:induction false} ShrinkDigits(a: string, b: string)
    requires AllDigits(a) && AllDigits(b)
    ensures AllDigits(a + b) && Shrink(DigitsValue(a + b), |b|) == DigitsValue(a)
    decreases |b|
  {
    DigitsValueAppend(a, b);
    if b != [] {
      var n := |b| - 1;
      var ab := a + b;
      assert ab[..|ab| - 1] == a + b[..n];
      ShrinkDigits(a, b[..n]);
      assert DigitsValue(ab) / 10 == DigitsValue(a + b[..n]);
    }
  }
}
