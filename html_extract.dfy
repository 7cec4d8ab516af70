/** `HuggingFaceModelUpdater.extract_update_time_from_html`: three stages
    tried in order over a parsed page, each a search with fixed priorities.
    The HTML parser is not modelled: a page is given as its text nodes, the
    `content` attributes of its `meta` tags and its raw text. Each regular
    expression of the source becomes a recogniser for its own shape, with
    `re.search`'s leftmost match and `re.findall`'s non-overlapping matches
    from left to right. The current date (`datetime.now()`) is the parameter
    `today`. */
module HtmlExtract {
  import opened Wrappers
  import opened Text
  import opened Calendar
  import opened Strptime

  datatype Document = Document(texts: seq<string>, metas: seq<string>, html: string)

  // ---------------------------------------------------------------------
  // Pieces of the patterns. The repetitions are greedy. Except for the
  // `\s+` before the lazy group of `about\s+(.+?)\s+ago`, the greedy choice
  // is the only one that can lead to a match, so those recognisers need no
  // backtracking; `AboutStart` gives that one run back character by
  // character, as the regex engine does.
  // ---------------------------------------------------------------------

  /** `\d{1,2}` at `s[j..]`: how many digits it takes (0 when none). */
  function DigitRun12(s: string, j: nat): (n: nat)
    ensures n <= 2 && (n > 0 ==> j + n <= |s|)
    ensures forall k :: j <= k < j + n ==> IsDigit(s[k])
    ensures n == 0 <==> j >= |s| || !IsDigit(s[j])
    ensures n == 1 ==> j + 1 == |s| || !IsDigit(s[j + 1])
  {
    if j < |s| && IsDigit(s[j]) then (if j + 1 < |s| && IsDigit(s[j + 1]) then 2 else 1) else 0
  }

  /** `[A-Za-z]{3}\s+\d{1,2}` at `s[i..]`: the length of its match. */
  function MonDAt(s: string, i: nat): (r: Option<nat>)
    ensures r.Some? ==> 5 <= r.value && i + r.value <= |s|
  {
    if i + 3 <= |s| && IsLetter(s[i]) && IsLetter(s[i + 1]) && IsLetter(s[i + 2]) then
      var w := SpaceRun(s, i + 3);
      var n := DigitRun12(s, i + 3 + w);
      if w > 0 && n > 0 then Some(3 + w + n) else None
    else None
  }

  /** `,\s+\d{4}` at `s[j..]`: the length of its match. */
  function YearTailAt(s: string, j: nat): (r: Option<nat>)
    ensures r.Some? ==> 6 <= r.value && j + r.value <= |s|
  {
    if j < |s| && s[j] == ',' then
      var w := SpaceRun(s, j + 1);
      var k := j + 1 + w;
      if w > 0 && k + 4 <= |s| && AllDigits(s[k .. k + 4]) then Some(1 + w + 4) else None
    else None
  }

  /** `[A-Za-z]{3}\s+\d{1,2},\s+\d{4}` at `s[i..]`. */
  function MonDYAt(s: string, i: nat): (r: Option<nat>)
    ensures r.Some? ==> i + r.value <= |s|
  {
    match MonDAt(s, i)
    case None => None
    case Some(n) =>
      (match YearTailAt(s, i + n)
       case None => None
       case Some(t) => Some(n + t))
  }

  /** `\d{1,2}/\d{1,2}/\d{4}` at `s[i..]`. */
  function SlashAt(s: string, i: nat): (r: Option<nat>)
    ensures r.Some? ==> 0 < r.value && i + r.value <= |s|
  {
    var a := DigitRun12(s, i);
    if a > 0 && i + a < |s| && s[i + a] == '/' then
      var b := DigitRun12(s, i + a + 1);
      var k := i + a + 1 + b;
      if b > 0 && k < |s| && s[k] == '/' && k + 5 <= |s| && AllDigits(s[k + 1 .. k + 5]) then
        Some(k + 5 - i)
      else None
    else None
  }

  /** `\d{4}-\d{2}-\d{2}` at `s[i..]`. */
  function IsoAt(s: string, i: nat): (r: Option<nat>)
    ensures r.Some? <==> i + 10 <= |s| && IsIsoShape(s[i .. i + 10])
    ensures r.Some? ==> r.value == 10
  {
    if i + 10 <= |s| && IsIsoShape(s[i .. i + 10]) then Some(10) else None
  }

  // ---------------------------------------------------------------------
  // The date shapes of the raw-text scan, and re.search / re.findall.
  // ---------------------------------------------------------------------

  /** The four patterns of the raw-text scan, in their order of priority. */
  datatype DateShape = IsoDate | MonDayYear | MonDay | SlashDate

  function ShapeAt(p: DateShape, s: string, i: nat): (r: Option<nat>)
    ensures r.Some? ==> 0 < r.value && i + r.value <= |s|
  {
    match p
    case IsoDate => IsoAt(s, i)
    case MonDayYear => MonDYAt(s, i)
    case MonDay => MonDAt(s, i)
    case SlashDate => SlashAt(s, i)
  }

  /** `re.search` from index `i`: the leftmost position where the shape matches. */
  function SearchFrom(p: DateShape, s: string, i: nat): (r: Option<nat>)
    requires i <= |s|
    ensures r.Some? ==> i <= r.value <= |s| && ShapeAt(p, s, r.value).Some?
    ensures r.Some? ==> forall k :: i <= k < r.value ==> ShapeAt(p, s, k).None?
    ensures r.None? ==> forall k :: i <= k <= |s| ==> ShapeAt(p, s, k).None?
    decreases |s| - i
  {
    if ShapeAt(p, s, i).Some? then Some(i)
    else if i == |s| then None
    else SearchFrom(p, s, i + 1)
  }

  /** `re.findall` from index `i`: the non-overlapping matches, left to right,
      each search resuming where the previous match ended. */
  function FindAll(p: DateShape, s: string, i: nat): (r: seq<string>)
    requires i <= |s|
    ensures SearchFrom(p, s, i).None? <==> r == []
    ensures r != [] ==> var k := SearchFrom(p, s, i).value; r[0] == s[k .. k + ShapeAt(p, s, k).value]
    decreases |s| - i
  {
    match SearchFrom(p, s, i)
    case None => []
    case Some(k) =>
      var n := ShapeAt(p, s, k).value;
      [s[k .. k + n]] + FindAll(p, s, k + n)
  }

  // ---------------------------------------------------------------------
  // Turning a matched text into a date.
  // ---------------------------------------------------------------------

  /** `re.match(r'^...$', t)` for the shapes above: the shape consumes `t`.
      None of the texts these predicates are applied to ends in a newline,
      so `$` means the end. */
  predicate IsIsoText(t: string) { IsIsoShape(t) }
  predicate IsMonDText(t: string) { MonDAt(t, 0) == Some(|t|) }
  predicate IsMonDYText(t: string) { MonDYAt(t, 0) == Some(|t|) }
  predicate IsSlashText(t: string) { SlashAt(t, 0) == Some(|t|) }

  /** `parsed.strftime("%Y-%m-%d")` of a parse that succeeded; None stands
      for the ValueError of a parse that did not. */
  function Formatted(o: Option<Date>): (r: Option<string>)
    requires o.Some? ==> ValidDate(o.value)
    ensures r.Some? <==> o.Some?
    ensures r.Some? ==> r.value == Format(o.value) && IsIsoShape(r.value)
  {
    if o.Some? then Some(Format(o.value)) else None
  }

  /** A "Mon D" completed with the current year, `f"{t} {year}"`, parsed
      with '%b %d %Y'. */
  function MonDWithYear(t: string, year: nat): Option<Date> {
    Parse(t + " " + NatToString(year), AbbrevDayYear)
  }

  /** Stage 1's reading of the captured group: "Mon D" with the current
      year, then "Mon D, YYYY", then anything containing "ago" as today;
      None both for a ValueError and for a capture of no known form, which
      alike move on to the next pattern. */
  function CaptureDate(cap: string, today: Date): (r: Option<string>)
    requires ValidDate(today)
    ensures r.Some? ==> IsIsoShape(r.value)
  {
    if IsMonDText(cap) then Formatted(MonDWithYear(cap, today.year))
    else if IsMonDYText(cap) then Formatted(Parse(cap, AbbrevDayCommaYear))
    else if Contains(Lower(cap), "ago") then Some(Format(today))
    else None
  }

  /** Stage 3's reading of a match: an ISO date verbatim (it is not checked
      against the calendar), then the other three forms; None both for a
      ValueError and for a text of no known form. */
  function CandidateDate(m: string, today: Date): (r: Option<string>)
    requires ValidDate(today)
    ensures r.Some? ==> IsIsoShape(r.value)
    ensures IsIsoText(m) ==> r == Some(m)
  {
    if IsIsoText(m) then Some(m)
    else if IsMonDYText(m) then Formatted(Parse(m, AbbrevDayCommaYear))
    else if IsMonDText(m) then Formatted(MonDWithYear(m, today.year))
    else if IsSlashText(m) then Formatted(Parse(m, SlashFormat))
    else None
  }

  // ---------------------------------------------------------------------
  // Stage 1: keyword text nodes against four phrase patterns.
  // ---------------------------------------------------------------------

  /** The pattern that selects the text nodes, `Updated|Last updated|Modified`
      ignoring case, searched anywhere in the node. */
  predicate HasKeyword(t: string) {
    exists i :: 0 <= i <= |t| && (LowerAt(t, i, "updated") || LowerAt(t, i, "last updated") || LowerAt(t, i, "modified"))
  }

  /** The four phrase patterns of stage 1, in the order they are tried. */
  datatype Phrase = UpdatedDate | UpdatedAbout | LastUpdated | ModifiedDate

  /** `\s+ago` (ignoring case) at `s[j..]`. */
  predicate AgoAt(s: string, j: nat) {
    j <= |s| && SpaceRun(s, j) > 0 && AgoWordAt(s, j + SpaceRun(s, j))
  }

  /** `ago`, ignoring case, at `s[i..]`. */
  predicate AgoWordAt(s: string, i: nat) {
    i + 3 <= |s| && LowerChar(s[i]) == 'a' && LowerChar(s[i + 1]) == 'g' && LowerChar(s[i + 2]) == 'o'
  }

  /** The lazy group `(.+?)` of `(.+?)\s+ago` starting at `s[c..]`: the
      shortest length from `k` on that is followed by `\s+ago`. `.` does not
      match a newline, so no length reaching past one can serve. */
  function LazyAgo(s: string, c: nat, k: nat): (r: Option<nat>)
    requires 1 <= k && c + k - 1 <= |s|
    requires forall j :: c <= j < c + k - 1 ==> s[j] != '\n'
    ensures r.Some? ==> k <= r.value && c + r.value <= |s| && AgoAt(s, c + r.value)
    ensures r.Some? ==> forall j :: c <= j < c + r.value ==> s[j] != '\n'
    decreases |s| + 1 - (c + k)
  {
    if c + k > |s| || s[c + k - 1] == '\n' then None
    else if AgoAt(s, c + k) then Some(k)
    else LazyAgo(s, c, k + 1)
  }

  /** The lazy group is the shortest that serves: no `\s+ago` starts
      between its minimum length and its end. */
  lemma {:induction false} LazyAgoShortest(s: string, c: nat, k: nat)
    requires 1 <= k && c + k - 1 <= |s|
    requires forall j :: c <= j < c + k - 1 ==> s[j] != '\n'
    ensures LazyAgo(s, c, k).Some? ==> forall m :: c + k <= m < c + LazyAgo(s, c, k).value ==> !AgoAt(s, m)
    decreases |s| + 1 - (c + k)
  {
    if c + k > |s| || s[c + k - 1] == '\n' {
    } else if AgoAt(s, c + k) {
    } else {
      LazyAgoShortest(s, c, k + 1);
      var r := LazyAgo(s, c, k + 1);
      assert LazyAgo(s, c, k) == r;
      if r.Some? {
        forall m | c + k <= m < c + r.value ensures !AgoAt(s, m) {
          if m > c + k {
            assert c + k + 1 <= m;
          }
        }
      }
    }
  }

  /** The literal word `w` (ignoring case) and the `\s+` after it at
      `s[i..]`: the index past them. */
  function AfterWord(s: string, i: nat, w: string): (r: Option<nat>)
    ensures r.Some? <==> LowerAt(s, i, w) && SpaceRun(s, i + |w|) > 0
    ensures r.Some? ==> r.value == i + |w| + SpaceRun(s, i + |w|) <= |s|
  {
    if LowerAt(s, i, w) && SpaceRun(s, i + |w|) > 0 then Some(i + |w| + SpaceRun(s, i + |w|)) else None
  }

  /** `([A-Za-z]{3}\s+\d{1,2})` at `s[j..]`, with the optional `(?:,\s+\d{4})?`
      when `withYear`. */
  function MonDCapture(s: string, j: nat, withYear: bool): (r: Option<string>)
    ensures r.Some? ==> |r.value| > 0
  {
    match MonDAt(s, j)
    case None => None
    case Some(n) => Some(s[j .. j + n + (if withYear then YearTailAt(s, j + n).GetOr(0) else 0)])
  }

  /** `(.+?)\s+ago` at `s[c..]`. */
  function AgoCapture(s: string, c: nat): (r: Option<string>)
    requires c <= |s|
    ensures r.Some? ==> |r.value| > 0
  {
    match LazyAgo(s, c, 1)
    case None => None
    case Some(k) => Some(s[c .. c + k])
  }

  /** `(.+?)\s+ago` matches from `s[u..]`. */
  predicate GroupAt(s: string, u: nat)
    requires u <= |s|
  {
    LazyAgo(s, u, 1).Some?
  }

  /** The last position whose flag is set. */
  function LastSet(f: seq<bool>): (r: Option<nat>)
    ensures r.Some? ==> r.value < |f| && f[r.value] && forall j :: r.value < j < |f| ==> !f[j]
    ensures r.None? ==> forall j :: 0 <= j < |f| ==> !f[j]
    decreases |f|
  {
    if f == [] then None
    else if f[|f| - 1] then Some(|f| - 1)
    else
      var r := LastSet(f[..|f| - 1]);
      assert forall j :: 0 <= j < |f| - 1 ==> f[..|f| - 1][j] == f[j];
      r
  }

  /** Where the lazy group of `about\s+(.+?)\s+ago` starts, the run of
      whitespace after `about` being `s[b .. b + w]`: the engine tries the
      longest run first and gives back one character at a time until the
      group and its `\s+ago` match, so the largest start that serves
      decides. */
  function AboutStart(s: string, b: nat, w: nat): (r: Option<nat>)
    requires 1 <= w && b + w <= |s|
    ensures r.Some? ==> b < r.value <= b + w && GroupAt(s, r.value)
    ensures r.Some? ==> forall u :: r.value < u <= b + w ==> !GroupAt(s, u)
    ensures r.None? ==> forall u :: b < u <= b + w ==> !GroupAt(s, u)
  {
    var f := GroupFlags(s, b, w);
    var r := LastSet(f);
    var q := if r.Some? then Some(b + 1 + r.value) else None;
    LargestStart(s, b, w, f, r, q);
    q
  }

  /** The last set flag is the largest start that serves. */
  lemma LargestStart(s: string, b: nat, w: nat, f: seq<bool>, r: Option<nat>, q: Option<nat>)
    requires b + w <= |s| && |f| == w
    requires forall i :: 0 <= i < w ==> f[i] == GroupAt(s, b + 1 + i)
    requires r.Some? ==> r.value < |f| && f[r.value] && forall j :: r.value < j < |f| ==> !f[j]
    requires r.None? ==> forall j :: 0 <= j < |f| ==> !f[j]
    requires q == if r.Some? then Some(b + 1 + r.value) else None
    ensures q.Some? ==> b < q.value <= b + w && GroupAt(s, q.value)
    ensures q.Some? ==> forall u :: q.value < u <= b + w ==> !GroupAt(s, u)
    ensures q.None? ==> forall u :: b < u <= b + w ==> !GroupAt(s, u)
  {
    if r.Some? {
      assert q == Some(b + 1 + r.value) && f[r.value] == GroupAt(s, b + 1 + r.value);
      FlagsUnset(s, b, w, f, r.value + 1);
    } else {
      FlagsUnset(s, b, w, f, 0);
    }
  }

  /** Flag `i` says whether the lazy group can start at `b + 1 + i`. */
  function GroupFlags(s: string, b: nat, w: nat): (f: seq<bool>)
    requires b + w <= |s|
    ensures |f| == w && forall i :: 0 <= i < w ==> f[i] == GroupAt(s, b + 1 + i)
  {
    seq(w, i requires 0 <= i < w => GroupAt(s, b + 1 + i))
  }

  /** Unset flags from `lo` on mean no group starts past `b + lo`. */
  lemma FlagsUnset(s: string, b: nat, w: nat, f: seq<bool>, lo: nat)
    requires b + w <= |s| && |f| == w
    requires forall i :: 0 <= i < w ==> f[i] == GroupAt(s, b + 1 + i)
    requires forall j :: lo <= j < |f| ==> !f[j]
    ensures forall u :: b + lo < u <= b + w ==> !GroupAt(s, u)
  {
    forall u | b + lo < u <= b + w ensures !GroupAt(s, u) {
      assert !f[u - b - 1];
    }
  }

  /** Group 1 of a phrase pattern matched at `s[i..]`, ignoring case. */
  function PhraseAt(p: Phrase, s: string, i: nat): (r: Option<string>)
    ensures r.Some? ==> |r.value| > 0
  {
    match p
    case UpdatedDate =>
      // Updated\s+([A-Za-z]{3}\s+\d{1,2}(?:,\s+\d{4})?)
      (match AfterWord(s, i, "updated")
       case None => None
       case Some(j) => MonDCapture(s, j, true))
    case UpdatedAbout =>
      // Updated\s+about\s+(.+?)\s+ago
      (match AfterWord(s, i, "updated")
       case None => None
       case Some(a) =>
         if LowerAt(s, a, "about") && SpaceRun(s, a + 5) > 0 then
           match AboutStart(s, a + 5, SpaceRun(s, a + 5))
           case None => None
           case Some(c) => AgoCapture(s, c)
         else None)
    case LastUpdated =>
      // Last\s+updated\s+([A-Za-z]{3}\s+\d{1,2})
      (match AfterWord(s, i, "last")
       case None => None
       case Some(a) =>
         match AfterWord(s, a, "updated")
         case None => None
         case Some(j) => MonDCapture(s, j, false))
    case ModifiedDate =>
      // Modified\s+([A-Za-z]{3}\s+\d{1,2})
      (match AfterWord(s, i, "modified")
       case None => None
       case Some(j) => MonDCapture(s, j, false))
  }

  /** The leftmost position from `i` on where the phrase pattern matches. */
  function PhraseFrom(p: Phrase, s: string, i: nat): (r: Option<nat>)
    requires i <= |s|
    ensures r.Some? ==> i <= r.value <= |s| && PhraseAt(p, s, r.value).Some?
    ensures r.Some? ==> forall k :: i <= k < r.value ==> PhraseAt(p, s, k).None?
    ensures r.None? ==> forall k :: i <= k <= |s| ==> PhraseAt(p, s, k).None?
    decreases |s| - i
  {
    if PhraseAt(p, s, i).Some? then Some(i)
    else if i == |s| then None
    else PhraseFrom(p, s, i + 1)
  }

  /** `re.search(pattern, s, re.IGNORECASE).group(1)` from index `i`. */
  function SearchPhrase(p: Phrase, s: string, i: nat): (r: Option<string>)
    requires i <= |s|
    ensures r.Some? <==> exists k :: i <= k <= |s| && PhraseAt(p, s, k).Some?
    ensures r.Some? ==> exists k :: i <= k <= |s| && PhraseAt(p, s, k) == r
                          && forall j :: i <= j < k ==> PhraseAt(p, s, j).None?
  {
    match PhraseFrom(p, s, i)
    case None => None
    case Some(k) => PhraseAt(p, s, k)
  }

  /** The search finds the leftmost position where the pattern matches. */
  lemma {:induction false} PhraseFromFirst(p: Phrase, s: string, i: nat, k: nat)
    requires i <= k <= |s| && PhraseAt(p, s, k).Some?
    requires forall j :: i <= j < k ==> PhraseAt(p, s, j).None?
    ensures PhraseFrom(p, s, i) == Some(k)
    decreases k - i
  {
    if i < k {
      PhraseFromFirst(p, s, i + 1, k);
    }
  }

  /** One pattern against one stripped text node: its date, or None to go on. */
  function PhraseDate(p: Phrase, t: string, today: Date): (r: Option<string>)
    requires ValidDate(today)
    ensures r.Some? ==> IsIsoShape(r.value)
  {
    match SearchPhrase(p, t, 0)
    case None => None
    case Some(cap) => CaptureDate(cap, today)
  }

  /** The four patterns in order against one stripped text node. */
  function TextDate(t: string, today: Date): (r: Option<string>)
    requires ValidDate(today)
    ensures r.Some? ==> IsIsoShape(r.value)
  {
    PhraseDate(UpdatedDate, t, today)
      .OrElse(PhraseDate(UpdatedAbout, t, today))
      .OrElse(PhraseDate(LastUpdated, t, today))
      .OrElse(PhraseDate(ModifiedDate, t, today))
  }

  /** The four phrase patterns in the order `TextDate` tries them. */
  const Phrases: seq<Phrase> := [UpdatedDate, UpdatedAbout, LastUpdated, ModifiedDate]

  /** The first phrase pattern, in order, that yields a date decides. */
  lemma TextDateFirstPhrase(t: string, today: Date, i: nat)
    requires ValidDate(today) && i < |Phrases|
    requires PhraseDate(Phrases[i], t, today).Some?
    requires forall j :: 0 <= j < i ==> PhraseDate(Phrases[j], t, today).None?
    ensures TextDate(t, today) == PhraseDate(Phrases[i], t, today)
  {
    if i > 0 {
      assert PhraseDate(Phrases[0], t, today).None?;
    }
    if i > 1 {
      assert PhraseDate(Phrases[1], t, today).None?;
    }
    if i > 2 {
      assert PhraseDate(Phrases[2], t, today).None?;
    }
  }

  /** A text node's phrases yield nothing exactly when none of the four does. */
  lemma TextDateNone(t: string, today: Date)
    requires ValidDate(today)
    ensures TextDate(t, today).None? <==> forall j :: 0 <= j < |Phrases| ==> PhraseDate(Phrases[j], t, today).None?
  {
    if TextDate(t, today).None? {
      forall j | 0 <= j < |Phrases| ensures PhraseDate(Phrases[j], t, today).None? {
        if j == 0 { assert Phrases[j] == UpdatedDate; }
        else if j == 1 { assert Phrases[j] == UpdatedAbout; }
        else if j == 2 { assert Phrases[j] == LastUpdated; }
        else { assert Phrases[j] == ModifiedDate; }
      }
    } else {
      assert PhraseDate(Phrases[0], t, today).None? ==> PhraseDate(Phrases[1], t, today).None? ==>
        PhraseDate(Phrases[2], t, today).None? ==> PhraseDate(Phrases[3], t, today).Some?;
    }
  }

  /** The date a text node yields in stage 1: none unless it carries a keyword. */
  function NodeDate(t: string, today: Date): (r: Option<string>)
    requires ValidDate(today)
    ensures r.Some? ==> IsIsoShape(r.value) && HasKeyword(t)
  {
    if HasKeyword(t) then TextDate(Strip(t), today) else None
  }

  /** Stage 1: the text nodes in document order; the first that yields a date wins. */
  function Stage1(texts: seq<string>, today: Date): (r: Option<string>)
    requires ValidDate(today)
    ensures r.Some? ==> IsIsoShape(r.value)
    decreases |texts|
  {
    if texts == [] then None else NodeDate(texts[0], today).OrElse(Stage1(texts[1..], today))
  }

  // ---------------------------------------------------------------------
  // Stage 2: meta contents. Stage 3: the raw-text scan.
  // ---------------------------------------------------------------------

  /** Stage 2: the first `meta` content holding a `\d{4}-\d{2}-\d{2}` gives
      its leftmost such text, verbatim. */
  function Stage2(metas: seq<string>): (r: Option<string>)
    ensures r.Some? ==> IsIsoShape(r.value)
    decreases |metas|
  {
    if metas == [] then None
    else
      match SearchFrom(IsoDate, metas[0], 0)
      case Some(k) => Some(metas[0][k .. k + 10])
      case None => Stage2(metas[1..])
  }

  /** The matches of one pattern in turn; a match that yields no date
      (a ValueError among them) is skipped. */
  function FirstCandidate(ms: seq<string>, today: Date): (r: Option<string>)
    requires ValidDate(today)
    ensures r.Some? ==> IsIsoShape(r.value)
    decreases |ms|
  {
    if ms == [] then None else CandidateDate(ms[0], today).OrElse(FirstCandidate(ms[1..], today))
  }

  function ShapeDate(p: DateShape, html: string, today: Date): (r: Option<string>)
    requires ValidDate(today)
    ensures r.Some? ==> IsIsoShape(r.value)
  {
    FirstCandidate(FindAll(p, html, 0), today)
  }

  /** Stage 3: the four patterns in priority order over the whole page text. */
  function Stage3(html: string, today: Date): (r: Option<string>)
    requires ValidDate(today)
    ensures r.Some? ==> IsIsoShape(r.value)
  {
    ShapeDate(IsoDate, html, today)
      .OrElse(ShapeDate(MonDayYear, html, today))
      .OrElse(ShapeDate(MonDay, html, today))
      .OrElse(ShapeDate(SlashDate, html, today))
  }

  /** `extract_update_time_from_html`: whatever it returns is a
      `YYYY-MM-DD` text. */
  function ExtractFromHtml(d: Document, today: Date): (r: Option<string>)
    requires ValidDate(today)
    ensures r.Some? ==> IsIsoShape(r.value)
  {
    Stage1(d.texts, today).OrElse(Stage2(d.metas)).OrElse(Stage3(d.html, today))
  }

  // ---------------------------------------------------------------------
  // Properties.
  // ---------------------------------------------------------------------

  /** The stages are strictly ordered: the `meta` contents matter only when
      no text node yields a date, and the raw text only when neither does. */
  lemma HtmlStageOrder(d: Document, today: Date)
    requires ValidDate(today)
    ensures Stage1(d.texts, today).Some? ==> ExtractFromHtml(d, today) == Stage1(d.texts, today)
    ensures Stage1(d.texts, today).None? && Stage2(d.metas).Some? ==> ExtractFromHtml(d, today) == Stage2(d.metas)
    ensures Stage1(d.texts, today).None? && Stage2(d.metas).None? ==> ExtractFromHtml(d, today) == Stage3(d.html, today)
  {
  }

  /** In stage 1 the first text node, in document order, that yields a date decides. */
  lemma {:induction false} Stage1FirstWins(texts: seq<string>, i: nat, today: Date)
    requires ValidDate(today) && i < |texts|
    requires NodeDate(texts[i], today).Some?
    requires forall j :: 0 <= j < i ==> NodeDate(texts[j], today).None?
    ensures Stage1(texts, today) == NodeDate(texts[i], today)
    decreases i
  {
    if i > 0 {
      forall j | 0 <= j < i - 1 ensures NodeDate(texts[1..][j], today).None? {
        assert texts[1..][j] == texts[j + 1];
      }
      Stage1FirstWins(texts[1..], i - 1, today);
    }
  }

  /** Stage 1 yields nothing exactly when no text node does. */
  lemma {:induction false} Stage1None(texts: seq<string>, today: Date)
    requires ValidDate(today)
    ensures Stage1(texts, today).None? <==> forall j :: 0 <= j < |texts| ==> NodeDate(texts[j], today).None?
    decreases |texts|
  {
    if texts != [] {
      Stage1None(texts[1..], today);
      assert forall j :: 1 <= j < |texts| ==> texts[j] == texts[1..][j - 1];
    }
  }

  /** A match of any phrase pattern contains one of the selecting keywords. */
  lemma PhraseHasKeyword(p: Phrase, u: string, k: nat)
    requires PhraseAt(p, u, k).Some?
    ensures HasKeyword(u)
  {
    match p
    case UpdatedDate =>
      assert AfterWord(u, k, "updated").Some?;
      KeywordAt(u, k, "updated");
    case UpdatedAbout =>
      assert AfterWord(u, k, "updated").Some?;
      KeywordAt(u, k, "updated");
    case LastUpdated =>
      var a := AfterWord(u, k, "last").value;
      assert AfterWord(u, a, "updated").Some?;
      KeywordAt(u, a, "updated");
    case ModifiedDate =>
      assert AfterWord(u, k, "modified").Some?;
      KeywordAt(u, k, "modified");
  }

  lemma KeywordAt(u: string, i: nat, w: string)
    requires w == "updated" || w == "last updated" || w == "modified"
    requires LowerAt(u, i, w)
    ensures HasKeyword(u)
  {
    assert i <= |u|;
  }

  lemma PhraseDateHasKeyword(p: Phrase, u: string, today: Date)
    requires ValidDate(today)
    requires PhraseDate(p, u, today).Some?
    ensures HasKeyword(u)
  {
    var k :| 0 <= k <= |u| && PhraseAt(p, u, k).Some?;
    PhraseHasKeyword(p, u, k);
  }

  /** A keyword in the stripped text is a keyword in the text. */
  lemma KeywordInStrip(t: string)
    requires HasKeyword(Strip(t))
    ensures HasKeyword(t)
  {
    var u := Strip(t);
    var a := SpaceRun(t, 0);
    assert a < |t|;
    var b := |t| - TrailingSpaces(t);
    assert u == t[a .. b];
    var i :| 0 <= i <= |u| && (LowerAt(u, i, "updated") || LowerAt(u, i, "last updated") || LowerAt(u, i, "modified"));
    if LowerAt(u, i, "updated") {
      LowerAtInfix(t, a, b, i, "updated");
    } else if LowerAt(u, i, "last updated") {
      LowerAtInfix(t, a, b, i, "last updated");
    } else {
      LowerAtInfix(t, a, b, i, "modified");
    }
  }

  /** A word found in an infix is found in the whole text. */
  lemma LowerAtInfix(t: string, a: nat, b: nat, i: nat, w: string)
    requires a <= b <= |t| && LowerAt(t[a .. b], i, w)
    ensures LowerAt(t, a + i, w)
  {
    var v := t[a .. b];
    assert |v| == b - a && i + |w| <= |v|;
    var x, y := v[i .. i + |w|], t[a + i .. a + i + |w|];
    assert forall j :: 0 <= j < |w| ==> x[j] == y[j];
    assert x == y;
  }

  /** Selecting the text nodes by keyword changes nothing: a node without
      one yields no date from the phrase patterns either. */
  lemma KeywordFilterRedundant(t: string, today: Date)
    requires ValidDate(today)
    ensures NodeDate(t, today) == TextDate(Strip(t), today)
  {
    var u := Strip(t);
    if TextDate(u, today).Some? {
      if PhraseDate(UpdatedDate, u, today).Some? { PhraseDateHasKeyword(UpdatedDate, u, today); }
      else if PhraseDate(UpdatedAbout, u, today).Some? { PhraseDateHasKeyword(UpdatedAbout, u, today); }
      else if PhraseDate(LastUpdated, u, today).Some? { PhraseDateHasKeyword(LastUpdated, u, today); }
      else { PhraseDateHasKeyword(ModifiedDate, u, today); }
      KeywordInStrip(t);
    }
  }

  /** In the raw-text scan an ISO date anywhere wins, whatever other dates
      come before it: the leftmost one is returned verbatim. */
  lemma Stage3LeftmostIso(html: string, k: nat, today: Date)
    requires ValidDate(today)
    requires k + 10 <= |html| && IsIsoShape(html[k .. k + 10])
    requires forall j :: 0 <= j < k ==> IsoAt(html, j).None?
    ensures Stage3(html, today) == Some(html[k .. k + 10])
  {
    assert ShapeAt(IsoDate, html, k).Some?;
    assert forall j :: 0 <= j < k ==> ShapeAt(IsoDate, html, j).None?;
    var r := SearchFrom(IsoDate, html, 0);
    assert r == Some(k);
    var ms := FindAll(IsoDate, html, 0);
    assert ms[0] == html[k .. k + 10];
  }

  /** Among the matches of one pattern, the first that yields a date decides;
      those before it, ValueErrors included, are skipped. */
  lemma {:induction false} FirstCandidateWins(ms: seq<string>, i: nat, today: Date)
    requires ValidDate(today) && i < |ms|
    requires CandidateDate(ms[i], today).Some?
    requires forall j :: 0 <= j < i ==> CandidateDate(ms[j], today).None?
    ensures FirstCandidate(ms, today) == CandidateDate(ms[i], today)
    decreases i
  {
    if i > 0 {
      forall j | 0 <= j < i - 1 ensures CandidateDate(ms[1..][j], today).None? {
        assert ms[1..][j] == ms[j + 1];
      }
      assert ms[1..][i - 1] == ms[i];
      FirstCandidateWins(ms[1..], i - 1, today);
    }
  }

  /** A pattern's matches yield nothing exactly when none of them does. */
  lemma {:induction false} FirstCandidateNone(ms: seq<string>, today: Date)
    requires ValidDate(today)
    ensures FirstCandidate(ms, today).None? <==> forall j :: 0 <= j < |ms| ==> CandidateDate(ms[j], today).None?
    decreases |ms|
  {
    if ms != [] {
      FirstCandidateNone(ms[1..], today);
      assert forall j :: 1 <= j < |ms| ==> ms[j] == ms[1..][j - 1];
    }
  }

  /** Stage 2: the first `meta` content holding an ISO date gives its
      leftmost one, verbatim. */
  lemma {:induction false} Stage2FirstMeta(metas: seq<string>, i: nat, k: nat)
    requires i < |metas| && k + 10 <= |metas[i]| && IsIsoShape(metas[i][k .. k + 10])
    requires forall j :: 0 <= j < k ==> IsoAt(metas[i], j).None?
    requires forall j :: 0 <= j < i ==> SearchFrom(IsoDate, metas[j], 0).None?
    ensures Stage2(metas) == Some(metas[i][k .. k + 10])
    decreases i
  {
    if i == 0 {
      assert ShapeAt(IsoDate, metas[0], k).Some?;
      assert forall j :: 0 <= j < k ==> ShapeAt(IsoDate, metas[0], j).None?;
      assert SearchFrom(IsoDate, metas[0], 0) == Some(k);
    } else {
      assert metas[1..][i - 1] == metas[i];
      forall j | 0 <= j < i - 1 ensures SearchFrom(IsoDate, metas[1..][j], 0).None? {
        assert metas[1..][j] == metas[j + 1];
      }
      Stage2FirstMeta(metas[1..], i - 1, k);
    }
  }

  /** The relative phrase of a typical page: the lazy group stops before
      " ago", so the capture is "10 hours", which holds no "ago" and is no
      date. The pattern yields nothing and the search moves on. */
  lemma RelativePhraseFallsThrough(s: string, cap: string, today: Date)
    requires ValidDate(today)
    requires s == "Updated about 10 hours ago" && cap == "10 hours"
    ensures PhraseAt(UpdatedAbout, s, 0) == Some(cap)
    ensures CaptureDate(cap, today).None?
  {
    RelativePhraseHead(s);
    RelativePhraseLazy(s);
    AboutCapture(s);
    RelativeCaptureText(s, cap);
    RelativeCaptureNoDate(cap, today);
  }

  lemma RelativeCaptureText(s: string, cap: string)
    requires s == "Updated about 10 hours ago" && cap == "10 hours"
    ensures s[14 .. 22] == cap
  {
  }

  lemma AboutCapture(s: string)
    requires LowerAt(s, 0, "updated") && SpaceRun(s, 7) == 1
    requires LowerAt(s, 8, "about") && SpaceRun(s, 13) == 1
    requires LazyAgo(s, 14, 1) == Some(8)
    ensures PhraseAt(UpdatedAbout, s, 0) == Some(s[14 .. 22])
  {
    assert AfterWord(s, 0, "updated") == Some(8);
    assert AfterWord(s, 8, "about") == Some(14);
    assert AgoCapture(s, 14) == Some(s[14 .. 22]);
  }

  lemma RelativePhraseHead(s: string)
    requires s == "Updated about 10 hours ago"
    ensures LowerAt(s, 0, "updated") && SpaceRun(s, 7) == 1
    ensures LowerAt(s, 8, "about") && SpaceRun(s, 13) == 1
  {
    PhraseUpdatedWord(s);
    PhraseAboutWord(s);
  }

  lemma PhraseUpdatedWord(s: string)
    requires s == "Updated about 10 hours ago"
    ensures LowerAt(s, 0, "updated") && SpaceRun(s, 7) == 1
  {
    assert s[0 .. 7] == "Updated";
    LowerExample("Updated", "updated");
    assert s[7] == ' ' && s[8] == 'a';
    SingleSpace(s, 7);
  }

  lemma PhraseAboutWord(s: string)
    requires s == "Updated about 10 hours ago"
    ensures LowerAt(s, 8, "about") && SpaceRun(s, 13) == 1
  {
    assert s[8 .. 13] == "about";
    LowerExample("about", "about");
    assert s[13] == ' ' && s[14] == '1';
    SingleSpace(s, 13);
  }

  lemma LowerExample(t: string, u: string)
    requires (t == "Updated" && u == "updated") || (t == "about" && u == "about")
    ensures Lower(t) == u
  {
  }

  /** No `\s+ago` where a non-space stands. */
  lemma NoAgoAtNonSpace(s: string, j: nat)
    requires j < |s| && !IsSpace(s[j])
    ensures !AgoAt(s, j)
  {
  }

  /** No `\s+ago` where one space is followed by something other than `a`. */
  lemma NoAgoAfterSpace(s: string, j: nat)
    requires j + 1 < |s| && IsSpace(s[j]) && !IsSpace(s[j + 1]) && LowerChar(s[j + 1]) != 'a'
    ensures !AgoAt(s, j)
  {
    assert SpaceRun(s, j + 1) == 0;
  }

  lemma LazyAgoStep(s: string, c: nat, k: nat)
    requires 1 <= k && c + k <= |s| && s[c + k - 1] != '\n' && !AgoAt(s, c + k)
    requires forall j :: c <= j < c + k - 1 ==> s[j] != '\n'
    ensures LazyAgo(s, c, k) == LazyAgo(s, c, k + 1)
  {
  }

  lemma RelativePhraseLazy(s: string)
    requires s == "Updated about 10 hours ago"
    ensures LazyAgo(s, 14, 1) == Some(8)
  {
    var t := s[14 .. 23];
    assert t == "10 hours ";
    assert forall j :: 14 <= j < 23 ==> s[j] == t[j - 14];
    RelativeAgoAt(s);
    LazyAgoEightChars(s);
  }

  /** The lazy group over "10 hours ago" takes eight characters. */
  lemma LazyAgoEightChars(s: string)
    requires |s| >= 23 && forall j :: 14 <= j < 23 ==> s[j] != '\n'
    requires !IsSpace(s[15]) && IsSpace(s[16]) && !IsSpace(s[17]) && LowerChar(s[17]) != 'a'
    requires forall j :: 17 <= j < 22 ==> !IsSpace(s[j])
    requires AgoAt(s, 22)
    ensures LazyAgo(s, 14, 1) == Some(8)
  {
    NoAgoAtNonSpace(s, 15);
    LazyAgoStep(s, 14, 1);
    NoAgoAfterSpace(s, 16);
    LazyAgoStep(s, 14, 2);
    NoAgoAtNonSpace(s, 17);
    LazyAgoStep(s, 14, 3);
    NoAgoAtNonSpace(s, 18);
    LazyAgoStep(s, 14, 4);
    NoAgoAtNonSpace(s, 19);
    LazyAgoStep(s, 14, 5);
    NoAgoAtNonSpace(s, 20);
    LazyAgoStep(s, 14, 6);
    NoAgoAtNonSpace(s, 21);
    LazyAgoStep(s, 14, 7);
  }

  lemma RelativeAgoAt(s: string)
    requires s == "Updated about 10 hours ago"
    ensures AgoAt(s, 22)
  {
    SingleSpace(s, 22);
    assert s[23] == 'a' && s[24] == 'g' && s[25] == 'o';
  }

  /** `about` followed by three spaces and then `ago` at the end of the
      line: the longest run leaves no room for the group, two spaces leave
      a group with no `\s+ago` after it before the newline, so the engine
      gives back two spaces and captures the single space that remains
      ahead of ` ago`. */
  lemma AboutGivesBackSpace(s: string)
    requires |s| >= 21 && LowerAt(s, 0, "updated") && SpaceRun(s, 7) == 1 && LowerAt(s, 8, "about")
    requires s[13] == ' ' && s[14] == ' ' && s[15] == ' '
    requires s[16] == 'a' && s[17] == 'g' && s[18] == 'o' && s[19] == '\n'
    requires !IsSpace(s[20]) && LowerChar(s[20]) != 'a'
    ensures PhraseAt(UpdatedAbout, s, 0) == Some(" ")
  {
    assert AfterWord(s, 0, "updated") == Some(8);
    SpaceRunExact(s, 13, 3);
    NoGroupBeforeNewline(s);
    SingleSpace(s, 15);
    assert AgoAt(s, 15);
    assert LazyAgo(s, 14, 1) == Some(1);
    StartAtFourteen(s);
    AboutPhrase(s, 8, 14);
    assert AgoCapture(s, 14) == Some(s[14 .. 15]);
    assert s[14 .. 15] == [s[14]];
  }

  /** The group starts at the last position in the run from which it can. */
  lemma StartAtFourteen(s: string)
    requires |s| >= 16 && GroupAt(s, 14) && !GroupAt(s, 15) && !GroupAt(s, 16)
    ensures AboutStart(s, 13, 3) == Some(14)
  {
  }

  /** The `Updated about` pattern at 0 captures the lazy group at `c`. */
  lemma AboutPhrase(s: string, a: nat, c: nat)
    requires AfterWord(s, 0, "updated") == Some(a) && LowerAt(s, a, "about") && SpaceRun(s, a + 5) > 0
    requires AboutStart(s, a + 5, SpaceRun(s, a + 5)) == Some(c)
    ensures PhraseAt(UpdatedAbout, s, 0) == AgoCapture(s, c)
  {
  }

  /** Neither `ago` nor ` ago` alone before a newline is followed by `\s+ago`. */
  lemma NoGroupBeforeNewline(s: string)
    requires |s| >= 21 && s[15] == ' '
    requires s[16] == 'a' && s[17] == 'g' && s[18] == 'o' && s[19] == '\n'
    requires !IsSpace(s[20]) && LowerChar(s[20]) != 'a'
    ensures !GroupAt(s, 16) && !GroupAt(s, 15)
  {
    NoAgoAtNonSpace(s, 16);
    NoAgoAtNonSpace(s, 17);
    NoAgoAtNonSpace(s, 18);
    NoAgoAfterSpace(s, 19);
    LazyAgoStep(s, 16, 1);
    LazyAgoStep(s, 16, 2);
    LazyAgoStep(s, 16, 3);
    LazyAgoStep(s, 15, 1);
    LazyAgoStep(s, 15, 2);
    LazyAgoStep(s, 15, 3);
    LazyAgoStep(s, 15, 4);
  }

  /** The node `Updated about   ago` followed by a second line `Updated
      about Aug 6 ago`: `re.search` stops at the first line, whose group is
      one space and no date, so the later `Aug 6` is never seen. */
  lemma AboutFirstLineDecides(today: Date)
    requires ValidDate(today)
    ensures SearchPhrase(UpdatedAbout, "Updated about   ago\nUpdated about Aug 6 ago", 0) == Some(" ")
    ensures CaptureDate(" ", today).None?
  {
    var t := "Updated about   ago\nUpdated about Aug 6 ago";
    FirstLineHead(t);
    FirstLineShape(t);
    AboutGivesBackSpace(t);
    assert PhraseFrom(UpdatedAbout, t, 0) == Some(0);
    SpaceCaptureNoDate(today);
  }

  lemma FirstLineShape(t: string)
    requires |t| >= 21 && t[..21] == "Updated about   ago\nU"
    ensures |t| >= 21 && LowerAt(t, 0, "updated") && SpaceRun(t, 7) == 1 && LowerAt(t, 8, "about")
    ensures t[13] == ' ' && t[14] == ' ' && t[15] == ' '
    ensures t[16] == 'a' && t[17] == 'g' && t[18] == 'o' && t[19] == '\n'
    ensures !IsSpace(t[20]) && LowerChar(t[20]) != 'a'
  {
    var h := t[..21];
    HeadChars(h);
    FirstLineWords(h);
    assert t[0 .. 7] == h[0 .. 7] && t[8 .. 13] == h[8 .. 13];
    SingleSpace(t, 7);
  }

  lemma FirstLineHead(t: string)
    requires t == "Updated about   ago\nUpdated about Aug 6 ago"
    ensures |t| >= 21 && t[..21] == "Updated about   ago\nU"
  {
  }

  lemma HeadChars(h: string)
    requires h == "Updated about   ago\nU"
    ensures h[7] == ' ' && h[8] == 'a'
    ensures h[13] == ' ' && h[14] == ' ' && h[15] == ' '
    ensures h[16] == 'a' && h[17] == 'g' && h[18] == 'o' && h[19] == '\n' && h[20] == 'U'
  {
  }

  lemma FirstLineWords(h: string)
    requires h == "Updated about   ago\nU"
    ensures LowerAt(h, 0, "updated") && LowerAt(h, 8, "about")
  {
    assert h[0 .. 7] == "Updated";
    LowerExample("Updated", "updated");
    assert h[8 .. 13] == "about";
    LowerExample("about", "about");
  }

  /** A lone space is no date, and holds no `ago`. */
  lemma SpaceCaptureNoDate(today: Date)
    requires ValidDate(today)
    ensures CaptureDate(" ", today).None?
  {
    assert !IsMonDText(" ") && !IsMonDYText(" ");
    assert Lower(" ") == " ";
    assert !Contains(" ", "ago");
  }

  /** A text without an `a` does not contain a word starting with `a`. */
  lemma {:induction false} NoAContains(s: string, w: string)
    requires w != [] && w[0] == 'a'
    requires forall j :: 0 <= j < |s| ==> s[j] != 'a'
    ensures !Contains(s, w)
    decreases |s|
  {
    if |w| <= |s| {
      assert s[..|w|][0] == s[0];
      if s != [] { NoAContains(s[1..], w); }
    }
  }

  lemma RelativeCaptureNoDate(cap: string, today: Date)
    requires ValidDate(today)
    requires cap == "10 hours"
    ensures CaptureDate(cap, today).None?
  {
    assert MonDAt(cap, 0).None?;
    assert Lower(cap) == cap;
    NoAContains(cap, "ago");
  }

  /** A "Mon D, YYYY" candidate naming a day past the end of its month
      raises ValueError in strptime: it yields no date, and the scan goes
      on with the next match. */
  lemma ImpossibleDayRejected(m: string, today: Date)
    requires ValidDate(today)
    requires m == "Feb 30, 2024"
    ensures IsMonDYText(m)
    ensures CandidateDate(m, today).None?
  {
    Feb30Shape(m);
    Feb30Parse(m);
  }

  lemma Feb30Shape(m: string)
    requires m == "Feb 30, 2024"
    ensures IsMonDYText(m)
  {
    assert SpaceRun(m, 4) == 0 && SpaceRun(m, 3) == 1;
    assert DigitRun12(m, 4) == 2;
    assert MonDAt(m, 0) == Some(6);
    assert SpaceRun(m, 8) == 0 && SpaceRun(m, 7) == 1;
    assert m[8 .. 12] == "2024";
    assert YearTailAt(m, 6) == Some(6);
  }

  lemma Feb30Parse(m: string)
    requires m == "Feb 30, 2024"
    ensures Parse(m, AbbrevDayCommaYear).None?
  {
    var f2 := NoFields.(month := Some(2), day := Some(30));
    Feb30Front(m, f2);
    Feb30Back(m[6..], f2);
    NoFebruary30(2024);
    ParseInvalid(m, AbbrevDayCommaYear, 2024, 2, 30);
  }

  /** `%b %d` consume `Feb 30`. */
  lemma Feb30Front(m: string, f2: Fields)
    requires m == "Feb 30, 2024" && f2 == NoFields.(month := Some(2), day := Some(30))
    ensures Match(AbbrevDayCommaYear, m, NoFields) == Match(AbbrevDayCommaYear[3..], m[6..], f2)
  {
    Feb30Month(m);
    assert m[3] == ' ' && m[4] == '3' && m[5] == '0';
    MonthDay30Front(m, 2);
  }

  /** `%b %d` over a month abbreviation, one space and `30`. */
  lemma MonthDay30Front(m: string, mo: int)
    requires |m| >= 7 && m[3] == ' ' && m[4] == '3' && m[5] == '0'
    requires Step(MonthAbbrev, m, NoFields) == Some((NoFields.(month := Some(mo)), m[3..]))
    ensures Match(AbbrevDayCommaYear, m, NoFields)
         == Match(AbbrevDayCommaYear[3..], m[6..], NoFields.(month := Some(mo), day := Some(30)))
  {
    var fmt := AbbrevDayCommaYear;
    var f1 := NoFields.(month := Some(mo));
    MatchCons(fmt, m, NoFields);
    var t, u := m[3..], m[4..];
    assert t[1..] == u && u[2..] == m[6..];
    OneSpaceStep(t, f1);
    MatchCons(fmt[1..], t, f1);
    Day30Step(u, f1);
    MatchCons(fmt[1..][1..], u, f1);
    assert fmt[1..][1..][1..] == fmt[3..];
  }

  lemma Day30Step(u: string, f: Fields)
    requires |u| >= 3 && u[0] == '3' && u[1] == '0'
    ensures Step(Day, u, f) == Some((f.(day := Some(30)), u[2..]))
  {
  }

  /** `, %Y` consume `, 2024`. */
  lemma Feb30Back(s: string, f2: Fields)
    requires s == ", 2024"
    ensures Match(AbbrevDayCommaYear[3..], s, f2) == Some((f2.(year := Some(2024)), []))
  {
    var fmt := AbbrevDayCommaYear[3..];
    assert fmt == [Lit(','), Spaces, Year];
    assert Step(Lit(','), s, f2) == Some((f2, s[1..]));
    MatchCons(fmt, s, f2);
    var t := s[1..];
    OneSpaceStep(t, f2);
    MatchCons(fmt[1..], t, f2);
    var u := t[1..];
    assert u == "2024";
    Digits2024(u);
    var f3 := f2.(year := Some(2024));
    assert Step(Year, u, f2) == Some((f3, []));
    MatchCons(fmt[1..][1..], u, f2);
    assert fmt[1..][1..][1..] == [];
  }

  lemma Feb30Month(m: string)
    requires m == "Feb 30, 2024"
    ensures Step(MonthAbbrev, m, NoFields) == Some((NoFields.(month := Some(2)), m[3..]))
  {
    assert m[0 .. 3] == "Feb";
    assert Lower("Feb") == "feb";
    assert !LowerAt(m, 0, MonthAbbrevs[0]);
    assert LowerAt(m, 0, MonthAbbrevs[1]);
    assert MonthFrom(m, MonthAbbrevs, 0) == Some((2, 3));
  }

  lemma Digits2024(t: string)
    requires t == "2024"
    ensures AllDigits(t[..4]) && DigitsValue(t[..4]) == 2024
  {
    FourDigitsValue(t[..4]);
  }

  /** ISO dates from `meta` contents are not checked against the calendar:
      month 13 and day 45 are returned as they stand. */
  lemma MetaDateNotValidated(m: string)
    requires m == "2024-13-45"
    ensures IsIsoShape(m) && !ValidDate(DateOfIso(m))
    ensures Stage2([m]) == Some(m)
  {
    var y, mo, d := m[..4], m[5..7], m[8..];
    MetaDatePieces(m);
    Digits2024(y);
    TwoDigitsValue(mo);
    assert IsoAt(m, 0) == Some(10);
    assert m[0 .. 10] == m;
    assert SearchFrom(IsoDate, m, 0) == Some(0);
  }

  lemma MetaDatePieces(m: string)
    requires m == "2024-13-45"
    ensures m[..4] == "2024" && m[5..7] == "13" && m[8..] == "45"
  {
    var y, mo, d := m[..4], m[5..7], m[8..];
    assert y == "2024" by { assert |y| == 4 && y[0] == '2' && y[1] == '0' && y[2] == '2' && y[3] == '4'; }
    assert mo == "13" by { assert |mo| == 2 && mo[0] == '1' && mo[1] == '3'; }
    assert d == "45" by { assert |d| == 2 && d[0] == '4' && d[1] == '5'; }
  }
}
