/** The model records of the timeline: one per CSV row that names a model,
    built from the row's stripped fields, and their order in the output,
    newest standardised update time first. */
module Timeline {
  import opened Wrappers
  import opened Text
  import opened Calendar
  import opened Convert

  /** A CSV row as `str(row[column])` shows each column; a cell pandas reads
      as NaN shows as `nan`. */
  datatype CsvRow = CsvRow(name: string, size: string, modelType: string, updateTime: string, downloads: string)

  /** The JSON object written for one model. */
  datatype ModelRecord = ModelRecord(
    name: string,
    size: Option<real>,
    modelType: string,
    updateTime: string,
    updateTimeStandardized: string,
    downloads: string,
    downloadsNumber: int,
    huggingfaceUrl: string)

  const HubPrefix := "https://huggingface.co/"

  /** A row whose stripped name is empty or `nan` is skipped. */
  predicate NamesModel(row: CsvRow) {
    var name := Strip(row.name);
    name != [] && name != "nan"
  }

  /** The record of a row: every field stripped, the time, size and downloads
      parsed from their stripped text. The text fields carry no edge
      whitespace, the sort key is already standardised, and the link is the
      hub's page of the stripped name. */
  function RecordOf(row: CsvRow): (m: ModelRecord)
    ensures Strip(m.name) == m.name && Strip(m.modelType) == m.modelType
    ensures Strip(m.updateTime) == m.updateTime && Strip(m.downloads) == m.downloads
    ensures m.updateTimeStandardized == StandardizeTime(m.updateTime)
    ensures StandardizeTime(m.updateTimeStandardized) == m.updateTimeStandardized
    ensures m.size == ParseModelSize(Strip(row.size))
    ensures m.downloadsNumber == ParseDownloadNumber(m.downloads)
    ensures m.huggingfaceUrl == HubPrefix + m.name
    ensures NamesModel(row) <==> m.name != [] && m.name != "nan"
  {
    var name := Strip(row.name);
    var time := Strip(row.updateTime);
    var downloads := Strip(row.downloads);
    StripIdempotent(row.name);
    StripIdempotent(row.modelType);
    StripIdempotent(row.updateTime);
    StripIdempotent(row.downloads);
    StandardizeTimeIdempotent(time);
    ModelRecord(name, ParseModelSize(Strip(row.size)), Strip(row.modelType), time, StandardizeTime(time),
                downloads, ParseDownloadNumber(downloads), HubPrefix + name)
  }

  /** `[f(x) for x in xs if keep(x)]`, in order. */
  function FilterMap<T, U>(xs: seq<T>, keep: T -> bool, f: T -> U): (r: seq<U>)
    ensures |r| <= |xs|
    decreases |xs|
  {
    if xs == [] then []
    else
      var last := xs[|xs| - 1];
      FilterMap(xs[..|xs| - 1], keep, f) + (if keep(last) then [f(last)] else [])
  }

  /** Where the image of a kept element stands in the result. */
  lemma {:induction false} FilterMapPosition<T, U>(xs: seq<T>, keep: T -> bool, f: T -> U, i: nat) returns (k: nat)
    requires i < |xs| && keep(xs[i])
    ensures k < |FilterMap(xs, keep, f)| && FilterMap(xs, keep, f)[k] == f(xs[i])
    decreases |xs|
  {
    var n := |xs| - 1;
    var front := FilterMap(xs[..n], keep, f);
    var here := if keep(xs[n]) then [f(xs[n])] else [];
    assert FilterMap(xs, keep, f) == front + here;
    if i < n {
      assert xs[..n][i] == xs[i];
      k := FilterMapPosition(xs[..n], keep, f, i);
      assert (front + here)[k] == front[k];
    } else {
      k := |front|;
      assert (front + here)[k] == here[0];
    }
  }

  /** Every element of the result is the image of a kept element. */
  lemma {:induction false} FilterMapHas<T, U>(xs: seq<T>, keep: T -> bool, f: T -> U, y: U)
    requires y in FilterMap(xs, keep, f)
    ensures exists i :: 0 <= i < |xs| && keep(xs[i]) && y == f(xs[i])
    decreases |xs|
  {
    var n := |xs| - 1;
    if y in FilterMap(xs[..n], keep, f) {
      FilterMapHas(xs[..n], keep, f, y);
      var i :| 0 <= i < n && keep(xs[..n][i]) && y == f(xs[..n][i]);
      assert xs[i] == xs[..n][i];
    } else {
      assert keep(xs[n]) && y == f(xs[n]);
    }
  }

  /** Every kept element has its image in the result. */
  lemma FilterMapKeeps<T, U>(xs: seq<T>, keep: T -> bool, f: T -> U)
    ensures forall i :: 0 <= i < |xs| && keep(xs[i]) ==> f(xs[i]) in FilterMap(xs, keep, f)
  {
    forall i | 0 <= i < |xs| && keep(xs[i]) ensures f(xs[i]) in FilterMap(xs, keep, f) {
      var k := FilterMapPosition(xs, keep, f, i);
    }
  }

  /** Every element of the result is the image of some kept element. */
  lemma FilterMapImages<T, U>(xs: seq<T>, keep: T -> bool, f: T -> U)
    ensures forall y :: y in FilterMap(xs, keep, f) ==> exists i :: 0 <= i < |xs| && keep(xs[i]) && y == f(xs[i])
  {
    forall y | y in FilterMap(xs, keep, f) ensures exists i :: 0 <= i < |xs| && keep(xs[i]) && y == f(xs[i]) {
      FilterMapHas(xs, keep, f, y);
    }
  }

  /** The records of the rows that name a model, in row order: every such
      row has its record kept, and every kept record is such a row's. */
  function Kept(rows: seq<CsvRow>): (models: seq<ModelRecord>)
    ensures |models| <= |rows|
    ensures forall i :: 0 <= i < |rows| && NamesModel(rows[i]) ==> RecordOf(rows[i]) in models
    ensures forall m :: m in models ==> exists i :: 0 <= i < |rows| && NamesModel(rows[i]) && m == RecordOf(rows[i])
  {
    FilterMapKeeps(rows, NamesModel, RecordOf);
    FilterMapImages(rows, NamesModel, RecordOf);
    FilterMap(rows, NamesModel, RecordOf)
  }

  /** The kept records of all rows: those of all rows but the last, then the
      last row's record when it names a model. */
  lemma KeptLast(rows: seq<CsvRow>)
    requires rows != []
    ensures Kept(rows) == Kept(rows[..|rows| - 1]) + (if NamesModel(rows[|rows| - 1]) then [RecordOf(rows[|rows| - 1])] else [])
  {
  }

  /** The loop of `convert_csv_to_json` that appends one record per kept row. */
  method CollectModels(rows: seq<CsvRow>) returns (models: seq<ModelRecord>)
    ensures models == Kept(rows)
  {
    models := [];
    for i := 0 to |rows|
      invariant models == Kept(rows[..i])
    {
      assert rows[..i + 1][..i] == rows[..i];
      KeptLast(rows[..i + 1]);
      var row := rows[i];
      var name := Strip(row.name);
      if name == [] || name == "nan" {
        continue;
      }
      models := models + [RecordOf(row)];
    }
    assert rows[..|rows|] == rows;
  }

  /** Every record names a model, and its key is already standardised:
      standardising it again changes nothing. */
  lemma KeptRecordsAreClean(rows: seq<CsvRow>, k: nat)
    requires k < |Kept(rows)|
    ensures var m := Kept(rows)[k];
      m.name != [] && m.name != "nan" && StandardizeTime(m.updateTimeStandardized) == m.updateTimeStandardized
  {
    var m := Kept(rows)[k];
    assert m in Kept(rows);
    var i :| 0 <= i < |rows| && NamesModel(rows[i]) && m == RecordOf(rows[i]);
  }

  // ---------------------------------------------------------------------
  // sorted(models, key=update_time_standardized, reverse=True)

  function Key(m: ModelRecord): string {
    m.updateTimeStandardized
  }

  /** Non-increasing in Python's string order. */
  predicate SortedDesc(r: seq<ModelRecord>) {
    forall i, j :: 0 <= i < j < |r| ==> LexLe(Key(r[j]), Key(r[i]))
  }

  /** `x` placed after every record whose key is at least its own. */
  function InsertDesc(x: ModelRecord, t: seq<ModelRecord>): (r: seq<ModelRecord>)
    ensures |r| == |t| + 1
    decreases |t|
  {
    if t == [] then [x]
    else if !LexLe(Key(x), Key(t[0])) then [x] + t
    else [t[0]] + InsertDesc(x, t[1..])
  }

  /** Python's stable sort that `reverse=True` keeps stable: each record in
      turn placed after the earlier ones whose key is at least its own. */
  function SortByTimeDesc(s: seq<ModelRecord>): (r: seq<ModelRecord>)
    ensures |r| == |s|
    decreases |s|
  {
    if s == [] then [] else InsertDesc(s[|s| - 1], SortByTimeDesc(s[..|s| - 1]))
  }

  /** The records with key `k`, in order. */
  function WithKey(s: seq<ModelRecord>, k: string): (r: seq<ModelRecord>)
    ensures |r| <= |s|
    decreases |s|
  {
    if s == [] then [] else (if Key(s[0]) == k then [s[0]] else []) + WithKey(s[1..], k)
  }

  lemma {:induction false} WithKeyAppend(a: seq<ModelRecord>, b: seq<ModelRecord>, k: string)
    ensures WithKey(a + b, k) == WithKey(a, k) + WithKey(b, k)
    decreases |a|
  {
    if a != [] {
      var h := if Key(a[0]) == k then [a[0]] else [];
      assert (a + b)[0] == a[0] && (a + b)[1..] == a[1..] + b;
      assert WithKey(a + b, k) == h + WithKey(a[1..] + b, k);
      WithKeyAppend(a[1..], b, k);
      assert h + (WithKey(a[1..], k) + WithKey(b, k)) == (h + WithKey(a[1..], k)) + WithKey(b, k);
    } else {
      assert a + b == b;
    }
  }

  lemma {:induction false} InsertDescPermutes(x: ModelRecord, t: seq<ModelRecord>)
    ensures multiset(InsertDesc(x, t)) == multiset(t) + multiset{x}
    decreases |t|
  {
    if t != [] && LexLe(Key(x), Key(t[0])) {
      InsertDescPermutes(x, t[1..]);
      assert t == [t[0]] + t[1..];
    }
  }

  lemma {:induction false} InsertDescSorted(x: ModelRecord, t: seq<ModelRecord>)
    requires SortedDesc(t)
    ensures SortedDesc(InsertDesc(x, t))
    decreases |t|
  {
    if t == [] {
    } else if !LexLe(Key(x), Key(t[0])) {
      LexLeTotal(Key(x), Key(t[0]));
      forall j | 0 <= j < |t| ensures LexLe(Key(t[j]), Key(x)) {
        if j > 0 { LexLeTrans(Key(t[j]), Key(t[0]), Key(x)); }
      }
      SortedCons(x, t);
    } else {
      var u := InsertDesc(x, t[1..]);
      InsertDescSorted(x, t[1..]);
      InsertDescBound(x, t[1..], Key(t[0]));
      SortedCons(t[0], u);
    }
  }

  /** A record above all of sorted records, put in front, keeps them sorted. */
  lemma SortedCons(h: ModelRecord, u: seq<ModelRecord>)
    requires SortedDesc(u) && forall j :: 0 <= j < |u| ==> LexLe(Key(u[j]), Key(h))
    ensures SortedDesc([h] + u)
  {
    var r := [h] + u;
    forall i, j | 0 <= i < j < |r| ensures LexLe(Key(r[j]), Key(r[i])) {
      assert r[j] == u[j - 1];
      if i > 0 { assert r[i] == u[i - 1]; }
    }
  }

  /** Inserting keeps every key below a bound that `x` and `t` are below. */
  lemma {:induction false} InsertDescBound(x: ModelRecord, t: seq<ModelRecord>, b: string)
    requires LexLe(Key(x), b) && forall j :: 0 <= j < |t| ==> LexLe(Key(t[j]), b)
    ensures forall j :: 0 <= j < |InsertDesc(x, t)| ==> LexLe(Key(InsertDesc(x, t)[j]), b)
    decreases |t|
  {
    if t != [] && LexLe(Key(x), Key(t[0])) {
      InsertDescBound(x, t[1..], b);
      var r := InsertDesc(x, t);
      assert r == [t[0]] + InsertDesc(x, t[1..]);
      forall j | 0 <= j < |r| ensures LexLe(Key(r[j]), b) {
        if j > 0 { assert r[j] == InsertDesc(x, t[1..])[j - 1]; }
      }
    } else if t != [] {
      var r := [x] + t;
      forall j | 0 <= j < |r| ensures LexLe(Key(r[j]), b) {
        if j > 0 { assert r[j] == t[j - 1]; }
      }
    }
  }

  /** Inserting into sorted records puts `x` after the records with its key. */
  lemma {:induction false} InsertDescStable(x: ModelRecord, t: seq<ModelRecord>, k: string)
    requires SortedDesc(t)
    ensures WithKey(InsertDesc(x, t), k) == WithKey(t, k) + (if Key(x) == k then [x] else [])
    decreases |t|
  {
    if t == [] {
      WithKeyCons(x, [], k);
    } else if !LexLe(Key(x), Key(t[0])) {
      WithKeyCons(x, t, k);
      if Key(x) == k { NoneWithKeyAbove(t, k); }
    } else {
      var u := InsertDesc(x, t[1..]);
      assert InsertDesc(x, t) == [t[0]] + u;
      WithKeyCons(t[0], u, k);
      InsertDescStable(x, t[1..], k);
      assert t == [t[0]] + t[1..];
      WithKeyCons(t[0], t[1..], k);
    }
  }

  lemma WithKeyCons(h: ModelRecord, t: seq<ModelRecord>, k: string)
    ensures WithKey([h] + t, k) == (if Key(h) == k then [h] else []) + WithKey(t, k)
  {
    assert ([h] + t)[1..] == t;
  }

  /** Sorted records that start below `k` hold none with key `k`. */
  lemma NoneWithKeyAbove(t: seq<ModelRecord>, k: string)
    requires SortedDesc(t) && t != [] && !LexLe(k, Key(t[0]))
    ensures WithKey(t, k) == []
  {
    forall j | 0 <= j < |t| ensures Key(t[j]) != k {
      if j > 0 { assert LexLe(Key(t[j]), Key(t[0])); } else { LexLeRefl(k); }
    }
    WithKeyNone(t, k);
  }

  lemma {:induction false} WithKeyNone(t: seq<ModelRecord>, k: string)
    requires forall j :: 0 <= j < |t| ==> Key(t[j]) != k
    ensures WithKey(t, k) == []
    decreases |t|
  {
    if t != [] { WithKeyNone(t[1..], k); }
  }

  /** The output holds the same records as the input. */
  lemma {:induction false} SortPermutes(s: seq<ModelRecord>)
    ensures multiset(SortByTimeDesc(s)) == multiset(s)
    decreases |s|
  {
    if s != [] {
      var n := |s| - 1;
      var front, sorted := s[..n], SortByTimeDesc(s[..n]);
      assert SortByTimeDesc(s) == InsertDesc(s[n], sorted);
      SortPermutes(front);
      InsertDescPermutes(s[n], sorted);
      MultisetSnoc(s);
    }
  }

  lemma MultisetSnoc<T>(s: seq<T>)
    requires s != []
    ensures multiset(s) == multiset(s[..|s| - 1]) + multiset{s[|s| - 1]}
  {
    assert s == s[..|s| - 1] + [s[|s| - 1]];
  }

  /** The output is newest first: keys never increase. */
  lemma {:induction false} SortIsSorted(s: seq<ModelRecord>)
    ensures SortedDesc(SortByTimeDesc(s))
    decreases |s|
  {
    if s != [] {
      SortIsSorted(s[..|s| - 1]);
      InsertDescSorted(s[|s| - 1], SortByTimeDesc(s[..|s| - 1]));
    }
  }

  /** The sort is stable: records with one key keep their input order. */
  lemma {:induction false} SortIsStable(s: seq<ModelRecord>, k: string)
    ensures WithKey(SortByTimeDesc(s), k) == WithKey(s, k)
    decreases |s|
  {
    if s != [] {
      var n := |s| - 1;
      SortIsStable(s[..n], k);
      SortIsSorted(s[..n]);
      InsertDescStable(s[n], SortByTimeDesc(s[..n]), k);
      assert s == s[..n] + [s[n]];
      WithKeyAppend(s[..n], [s[n]], k);
      assert WithKey([s[n]], k) == (if Key(s[n]) == k then [s[n]] else []) + WithKey([], k);
    }
  }

  /** `a` comes before `b` once they agree up to a first difference where
      `a` is smaller. */
  lemma {:induction false} LexLeAtDifference(a: string, b: string, k: nat)
    requires k < |a| && k < |b| && a[..k] == b[..k] && a[k] < b[k]
    ensures LexLe(a, b) && a != b
    decreases k
  {
    if k > 0 {
      assert a[0] == a[..k][0] && b[0] == b[..k][0];
      assert a[1..][..k - 1] == a[..k][1..] && b[1..][..k - 1] == b[..k][1..];
      LexLeAtDifference(a[1..], b[1..], k - 1);
    }
  }

  /** A real date key, whose month starts with 0 or 1, sorts below the
      missing key in Python's string order. */
  lemma DateKeyBelowMissing(t: string, m: string)
    requires m == MissingTime && IsIsoShape(t) && t[5] <= '1'
    ensures LexLe(t, m) && t != m
  {
    assert forall q :: 0 <= q < 4 ==> IsDigit(t[q]) by {
      forall q | 0 <= q < 4 ensures IsDigit(t[q]) { assert t[..4][q] == t[q]; }
    }
    if t[0] != '9' {
      LexLeAtDifference(t, m, 0);
    } else if t[1] != '9' {
      LexLeAtDifference(t, m, 1);
    } else if t[2] != '9' {
      LexLeAtDifference(t, m, 2);
    } else if t[3] != '9' {
      LexLeAtDifference(t, m, 3);
    } else {
      assert t[..5] == m[..5];
      LexLeAtDifference(t, m, 5);
    }
  }

  /** Models without a known update time come first in the output, before
      every model whose key is a real date. */
  lemma MissingTimesFirst(s: seq<ModelRecord>, i: nat, j: nat)
    requires i < |s| && j < |s|
    requires Key(SortByTimeDesc(s)[i]) == MissingTime
    requires IsIsoShape(Key(SortByTimeDesc(s)[j])) && Key(SortByTimeDesc(s)[j])[5] <= '1'
    ensures i < j
  {
    SortIsSorted(s);
    MissingKeyFirst(SortByTimeDesc(s), i, j);
  }

  lemma MissingKeyFirst(r: seq<ModelRecord>, i: nat, j: nat)
    requires SortedDesc(r) && i < |r| && j < |r|
    requires Key(r[i]) == MissingTime && IsIsoShape(Key(r[j])) && Key(r[j])[5] <= '1'
    ensures i < j
  {
    DateKeyBelowMissing(Key(r[j]), Key(r[i]));
    if j < i {
      assert LexLe(Key(r[i]), Key(r[j]));
      LexLeAntisym(Key(r[j]), Key(r[i]));
      assert false;
    }
  }
}
