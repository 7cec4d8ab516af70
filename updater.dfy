/** `HuggingFaceModelUpdater`: the per-model resolver with its two counters,
    and `update_csv_file`'s selection of the rows to update and its in-place
    merge of the results. The network is an input: for each row, what the
    model API answers and what fetching the model page gives. The thread
    pool is modelled by its only visible effect, the order in which results
    arrive, which is a parameter; the lock, the pacing delay and the console
    output are not modelled. */
module Updater {
  import opened Wrappers
  import opened Text
  import opened Calendar
  import opened ApiExtract
  import opened HtmlExtract

  /** Fetching the model page: the parsed page, a `requests.RequestException`
      (which `raise_for_status` raises for an error status too), or any
      other exception, which `fetch_model_update_time` does not catch. */
  datatype PageOutcome = Page(doc: Document) | RequestError | OtherFailure

  /** What a call of `fetch_model_update_time` ends with: a returned value,
      or an exception propagating to the caller. */
  datatype Outcome = Returned(value: Option<string>) | Raised

  /** Python's truth value of an optional string: present and non-empty. */
  predicate Truthy(o: Option<string>) {
    o.Some? && o.value != []
  }

  /** The value `fetch_model_update_time` ends with: the API date when it is
      truthy, otherwise whatever the page yields (None when the request
      failed). */
  function Resolve(api: ApiResponse, page: PageOutcome, today: Date): (r: Outcome)
    requires ValidDate(today)
    ensures r.Raised? <==> !Truthy(ExtractFromApi(api)) && page.OtherFailure?
    ensures Truthy(ExtractFromApi(api)) ==> r == Returned(ExtractFromApi(api))
    ensures r.Returned? && r.value.Some? ==>
      IsIsoShape(r.value.value)
      && (r.value == ExtractFromApi(api) || (page.Page? && r.value == ExtractFromHtml(page.doc, today)))
    ensures r == Returned(None) <==>
      !Truthy(ExtractFromApi(api)) && (page.RequestError? || (page.Page? && ExtractFromHtml(page.doc, today).None?))
  {
    var apiTime := ExtractFromApi(api);
    if Truthy(apiTime) then Returned(apiTime)
    else
      match page
      case Page(doc) => Returned(ExtractFromHtml(doc, today))
      case RequestError => Returned(None)
      case OtherFailure => Raised
  }

  /** Whether the call goes on to request the model page. */
  predicate PageRequested(api: ApiResponse) {
    !Truthy(ExtractFromApi(api))
  }

  /** How much the call adds to `updated_count` and to `failed_count`. */
  function UpdatedBump(api: ApiResponse, page: PageOutcome, today: Date): nat
    requires ValidDate(today)
  {
    if Truthy(ExtractFromApi(api)) then 1
    else if page.Page? && Truthy(ExtractFromHtml(page.doc, today)) then 1
    else 0
  }

  function FailedBump(api: ApiResponse, page: PageOutcome, today: Date): nat
    requires ValidDate(today)
  {
    if Truthy(ExtractFromApi(api)) then 0
    else if page.RequestError? || (page.Page? && !Truthy(ExtractFromHtml(page.doc, today))) then 1
    else 0
  }

  /** A truthy API date is the answer: it counts as updated and the page is
      never requested. */
  lemma ApiSuccessSkipsPage(api: ApiResponse, page: PageOutcome, today: Date)
    requires ValidDate(today)
    requires Truthy(ExtractFromApi(api))
    ensures !PageRequested(api)
    ensures Resolve(api, page, today) == Returned(ExtractFromApi(api))
    ensures UpdatedBump(api, page, today) == 1 && FailedBump(api, page, today) == 0
  {
  }

  /** Every call that returns bumps exactly one of the two counters; a call
      that raises bumps neither. */
  lemma ExactlyOneCounter(api: ApiResponse, page: PageOutcome, today: Date)
    requires ValidDate(today)
    ensures Resolve(api, page, today).Returned? <==>
      UpdatedBump(api, page, today) + FailedBump(api, page, today) == 1
    ensures Resolve(api, page, today).Raised? ==>
      UpdatedBump(api, page, today) == 0 && FailedBump(api, page, today) == 0
  {
  }

  /** The call returns a date exactly when it counts the model as updated;
      that date is always a `YYYY-MM-DD` text. */
  lemma ResultIffUpdated(api: ApiResponse, page: PageOutcome, today: Date)
    requires ValidDate(today)
    ensures (Resolve(api, page, today).Returned? && Resolve(api, page, today).value.Some?)
      <==> UpdatedBump(api, page, today) == 1
    ensures Resolve(api, page, today).Returned? && Resolve(api, page, today).value.Some? ==>
      IsIsoShape(Resolve(api, page, today).value.value)
  {
    var o := ExtractFromHtml(if page.Page? then page.doc else Document([], [], []), today);
    assert o.Some? ==> |o.value| == 10;
    assert ExtractFromApi(api).Some? ==> |ExtractFromApi(api).value| == 10;
  }

  /** A CSV row as `csv.DictReader` gives it: column name to text. */
  type Row = map<string, string>

  /** The two columns the merge reads; a row without them raises KeyError. */
  predicate HasColumns(row: Row) {
    "update_time" in row && "name" in row
  }

  predicate AllHaveColumns(rows: seq<Row>) {
    forall i :: 0 <= i < |rows| ==> HasColumns(rows[i])
  }

  /** A row whose `update_time` is `-` or empty is to be updated. */
  predicate NeedsUpdate(row: Row)
    requires HasColumns(row)
  {
    row["update_time"] == "-" || row["update_time"] == ""
  }

  /** `models_to_update`: the (index, name) of every row to update, in row
      order, and of no other row. */
  function Selection(rows: seq<Row>): (sel: seq<(nat, string)>)
    requires AllHaveColumns(rows)
    ensures forall k :: 0 <= k < |sel| ==>
      sel[k].0 < |rows| && NeedsUpdate(rows[sel[k].0]) && sel[k].1 == rows[sel[k].0]["name"]
    ensures forall k, l :: 0 <= k < l < |sel| ==> sel[k].0 < sel[l].0
    decreases |rows|
  {
    if rows == [] then []
    else
      var n := |rows| - 1;
      var front := rows[..n];
      assert forall i :: 0 <= i < n ==> front[i] == rows[i];
      Selection(front) + (if NeedsUpdate(rows[n]) then [(n, rows[n]["name"])] else [])
  }

  /** The selection grows by the last row when that row is to be updated. */
  lemma SelectionLast(rows: seq<Row>)
    requires AllHaveColumns(rows) && rows != []
    ensures AllHaveColumns(rows[..|rows| - 1])
    ensures var n := |rows| - 1;
      Selection(rows) == Selection(rows[..n]) + (if NeedsUpdate(rows[n]) then [(n, rows[n]["name"])] else [])
  {
  }

  /** The indices of the rows to update. */
  function PendingSet(rows: seq<Row>): set<nat>
    requires AllHaveColumns(rows)
  {
    set i: nat | i < |rows| && NeedsUpdate(rows[i])
  }

  /** Every row to update is selected: `k` is its place in the selection. */
  lemma {:induction false} SelectionCovers(rows: seq<Row>, i: nat) returns (k: nat)
    requires AllHaveColumns(rows)
    requires i < |rows| && NeedsUpdate(rows[i])
    ensures k < |Selection(rows)| && Selection(rows)[k].0 == i
    decreases |rows|
  {
    var n := |rows| - 1;
    var front := rows[..n];
    var a := Selection(front);
    var b: seq<(nat, string)> := if NeedsUpdate(rows[n]) then [(n, rows[n]["name"])] else [];
    assert Selection(rows) == a + b;
    if i < n {
      assert front[i] == rows[i];
      k := SelectionCovers(front, i);
      assert (a + b)[k] == a[k];
    } else {
      k := |a|;
      assert (a + b)[k] == b[0];
    }
  }

  /** The selection names each row to update once and nothing else. */
  lemma SelectionIsPending(rows: seq<Row>)
    requires AllHaveColumns(rows)
    ensures (set k | 0 <= k < |Selection(rows)| :: Selection(rows)[k].0) == PendingSet(rows)
  {
    var sel := Selection(rows);
    forall i | i in PendingSet(rows) ensures i in (set k | 0 <= k < |sel| :: sel[k].0) {
      var k := SelectionCovers(rows, i);
    }
  }

  /** The row after the merge: a selected row takes the resolved date when
      it is truthy; a row not selected, or whose call returned nothing
      truthy or raised, stays as it was. */
  function MergedRow(row: Row, api: ApiResponse, page: PageOutcome, today: Date): (r: Row)
    requires HasColumns(row) && ValidDate(today)
    ensures r.Keys == row.Keys
    ensures forall c :: c in row && c != "update_time" ==> r[c] == row[c]
    ensures !NeedsUpdate(row) ==> r == row
  {
    if NeedsUpdate(row) then
      match Resolve(api, page, today)
      case Returned(v) => if Truthy(v) then row["update_time" := v.value] else row
      case Raised => row
    else row
  }

  /** The rows written back: each row merged with its own model's outcome. */
  function MergedRows(rows: seq<Row>, net: seq<(ApiResponse, PageOutcome)>, today: Date): (r: seq<Row>)
    requires AllHaveColumns(rows) && |net| == |rows| && ValidDate(today)
    ensures |r| == |rows|
  {
    seq(|rows|, i requires 0 <= i < |rows| => MergedRow(rows[i], net[i].0, net[i].1, today))
  }

  /** A row's `update_time` changes exactly when the row was selected and
      the call counted the model as updated; the new value is the resolved
      `YYYY-MM-DD` date. */
  lemma MergeChangesIffUpdated(row: Row, api: ApiResponse, page: PageOutcome, today: Date)
    requires HasColumns(row) && ValidDate(today)
    ensures MergedRow(row, api, page, today) != row <==>
      NeedsUpdate(row) && UpdatedBump(api, page, today) == 1
    ensures MergedRow(row, api, page, today) != row ==>
      Resolve(api, page, today) == Returned(Some(MergedRow(row, api, page, today)["update_time"]))
      && IsIsoShape(MergedRow(row, api, page, today)["update_time"])
  {
    ResultIffUpdated(api, page, today);
    var r := MergedRow(row, api, page, today);
    if NeedsUpdate(row) && UpdatedBump(api, page, today) == 1 {
      assert |r["update_time"]| == 10;
    }
  }

  /** The selected rows whose call counted as updated, and as failed. */
  function UpdatedIn(done: set<nat>, net: seq<(ApiResponse, PageOutcome)>, today: Date): set<nat>
    requires ValidDate(today)
  {
    set i | i in done && i < |net| && UpdatedBump(net[i].0, net[i].1, today) == 1
  }

  function FailedIn(done: set<nat>, net: seq<(ApiResponse, PageOutcome)>, today: Date): set<nat>
    requires ValidDate(today)
  {
    set i | i in done && i < |net| && FailedBump(net[i].0, net[i].1, today) == 1
  }

  /** The models counted as updated are exactly the rows the merge changes. */
  lemma UpdatedAreChangedRows(rows: seq<Row>, net: seq<(ApiResponse, PageOutcome)>, today: Date)
    requires AllHaveColumns(rows) && |net| == |rows| && ValidDate(today)
    ensures UpdatedIn(PendingSet(rows), net, today) ==
      set i: nat | i < |rows| && MergedRows(rows, net, today)[i] != rows[i]
  {
    forall i: nat | i < |rows|
      ensures (i in UpdatedIn(PendingSet(rows), net, today)) <==> MergedRows(rows, net, today)[i] != rows[i]
    {
      MergeChangesIffUpdated(rows[i], net[i].0, net[i].1, today);
    }
  }

  /** No model is counted twice: the two counters together grow by at most
      the number of selected rows, and by exactly that when no task raised. */
  lemma CountersPartitionSelection(rows: seq<Row>, net: seq<(ApiResponse, PageOutcome)>, today: Date)
    requires AllHaveColumns(rows) && |net| == |rows| && ValidDate(today)
    ensures UpdatedIn(PendingSet(rows), net, today) !! FailedIn(PendingSet(rows), net, today)
    ensures |UpdatedIn(PendingSet(rows), net, today)| + |FailedIn(PendingSet(rows), net, today)| <= |PendingSet(rows)|
    ensures (forall i :: i in PendingSet(rows) ==> Resolve(net[i].0, net[i].1, today).Returned?) ==>
      |UpdatedIn(PendingSet(rows), net, today)| + |FailedIn(PendingSet(rows), net, today)| == |PendingSet(rows)|
  {
    var p := PendingSet(rows);
    var u, f := UpdatedIn(p, net, today), FailedIn(p, net, today);
    forall i | i in p ensures UpdatedBump(net[i].0, net[i].1, today) + FailedBump(net[i].0, net[i].1, today) <= 1 {
      ExactlyOneCounter(net[i].0, net[i].1, today);
    }
    assert u !! f;
    assert u + f <= p;
    assert |u + f| == |u| + |f|;
    SubsetCard(u + f, p);
    if forall i :: i in p ==> Resolve(net[i].0, net[i].1, today).Returned? {
      forall i | i in p ensures i in u + f {
        ExactlyOneCounter(net[i].0, net[i].1, today);
      }
      assert u + f == p;
    }
  }

  lemma SubsetCard(a: set<nat>, b: set<nat>)
    requires a <= b
    ensures |a| <= |b|
  {
    assert b == a + (b - a);
  }

  /** The completion order of the submitted tasks: each of the `n` tasks once. */
  predicate IsOrdering(order: seq<nat>, n: nat) {
    |order| == n
    && (forall m :: 0 <= m < |order| ==> order[m] < n)
    && (forall m, m' :: 0 <= m < m' < |order| ==> order[m] != order[m'])
    && (forall p :: 0 <= p < n ==> p in order)
  }

  /** Building `models_to_update`. */
  method SelectRows(rows: array<Row>) returns (todo: seq<(nat, string)>)
    requires AllHaveColumns(rows[..])
    ensures todo == Selection(rows[..])
  {
    todo := [];
    var i := 0;
    while i < rows.Length
      invariant 0 <= i <= rows.Length
      invariant AllHaveColumns(rows[..i])
      invariant todo == Selection(rows[..i])
    {
      assert rows[..i + 1][..i] == rows[..i];
      assert rows[..i + 1][i] == rows[i];
      SelectionLast(rows[..i + 1]);
      if rows[i]["update_time"] == "-" || rows[i]["update_time"] == "" {
        todo := todo + [(i, rows[i]["name"])];
      }
      i := i + 1;
    }
    assert rows[..rows.Length] == rows[..];
  }

  /** Adding one more finished model to the set of finished ones. */
  lemma AddOne(done: set<nat>, index: nat, net: seq<(ApiResponse, PageOutcome)>, today: Date)
    requires ValidDate(today) && index !in done && index < |net|
    ensures |UpdatedIn(done + {index}, net, today)| ==
      |UpdatedIn(done, net, today)| + UpdatedBump(net[index].0, net[index].1, today)
    ensures |FailedIn(done + {index}, net, today)| ==
      |FailedIn(done, net, today)| + FailedBump(net[index].0, net[index].1, today)
  {
    AddOneUpdated(done, index, net, today);
    AddOneFailed(done, index, net, today);
  }

  lemma AddOneUpdated(done: set<nat>, index: nat, net: seq<(ApiResponse, PageOutcome)>, today: Date)
    requires ValidDate(today) && index !in done && index < |net|
    ensures |UpdatedIn(done + {index}, net, today)| ==
      |UpdatedIn(done, net, today)| + UpdatedBump(net[index].0, net[index].1, today)
  {
    if UpdatedBump(net[index].0, net[index].1, today) == 1 {
      assert UpdatedIn(done + {index}, net, today) == UpdatedIn(done, net, today) + {index};
    } else {
      assert UpdatedIn(done + {index}, net, today) == UpdatedIn(done, net, today);
    }
  }

  lemma AddOneFailed(done: set<nat>, index: nat, net: seq<(ApiResponse, PageOutcome)>, today: Date)
    requires ValidDate(today) && index !in done && index < |net|
    ensures |FailedIn(done + {index}, net, today)| ==
      |FailedIn(done, net, today)| + FailedBump(net[index].0, net[index].1, today)
  {
    if FailedBump(net[index].0, net[index].1, today) == 1 {
      assert FailedIn(done + {index}, net, today) == FailedIn(done, net, today) + {index};
    } else {
      assert FailedIn(done + {index}, net, today) == FailedIn(done, net, today);
    }
  }

  /** The rows of the models whose results have arrived, after `k` of them. */
  function Finished(todo: seq<(nat, string)>, order: seq<nat>, k: nat): set<nat>
    requires k <= |order| && forall m :: 0 <= m < |order| ==> order[m] < |todo|
  {
    set m | 0 <= m < k :: todo[order[m]].0
  }

  /** A result arriving for a row not merged before. */
  lemma NotYetFinished(rows: seq<Row>, todo: seq<(nat, string)>, order: seq<nat>, k: nat)
    requires AllHaveColumns(rows) && todo == Selection(rows)
    requires IsOrdering(order, |todo|) && k < |order|
    ensures todo[order[k]].0 !in Finished(todo, order, k)
    ensures Finished(todo, order, k + 1) == Finished(todo, order, k) + {todo[order[k]].0}
    ensures todo[order[k]].0 < |rows| && NeedsUpdate(rows[todo[order[k]].0])
  {
    FinishedStep(todo, order, k);
  }

  /** With distinct row indices, the `k`-th arrival adds a row not seen before. */
  lemma FinishedStep(todo: seq<(nat, string)>, order: seq<nat>, k: nat)
    requires IsOrdering(order, |todo|) && k < |order|
    requires forall a, b :: 0 <= a < b < |todo| ==> todo[a].0 < todo[b].0
    ensures todo[order[k]].0 !in Finished(todo, order, k)
    ensures Finished(todo, order, k + 1) == Finished(todo, order, k) + {todo[order[k]].0}
  {
    forall m | 0 <= m < k ensures todo[order[m]].0 != todo[order[k]].0 {
      assert order[m] != order[k];
    }
  }

  /** Once every result has arrived, every selected row has been merged. */
  lemma OrderCoversSelection(rows: seq<Row>, todo: seq<(nat, string)>, order: seq<nat>)
    requires AllHaveColumns(rows) && todo == Selection(rows)
    requires IsOrdering(order, |todo|)
    ensures Finished(todo, order, |order|) == PendingSet(rows)
  {
    SelectionIsPending(rows);
    forall p | 0 <= p < |todo| ensures todo[p].0 in Finished(todo, order, |order|) {
      assert p in order;
      var m :| 0 <= m < |order| && order[m] == p;
      assert todo[order[m]].0 == todo[p].0;
    }
  }

  /** The in-place overwrite of one selected row is its merge. */
  lemma MergeStep(row: Row, api: ApiResponse, page: PageOutcome, today: Date, r: Outcome, after: Row)
    requires HasColumns(row) && NeedsUpdate(row) && ValidDate(today)
    requires r == Resolve(api, page, today)
    requires after == if r.Returned? && Truthy(r.value) then row["update_time" := r.value.value] else row
    ensures after == MergedRow(row, api, page, today)
  {
  }

  /** Rows merged exactly where selected are the merged table. */
  lemma AllMerged(now: seq<Row>, rows: seq<Row>, net: seq<(ApiResponse, PageOutcome)>, done: set<nat>, today: Date)
    requires AllHaveColumns(rows) && |net| == |rows| && ValidDate(today)
    requires done == PendingSet(rows)
    requires now == Overlay(rows, MergedRows(rows, net, today), done)
    ensures now == MergedRows(rows, net, today)
  {
    var m := MergedRows(rows, net, today);
    forall i | 0 <= i < |now| ensures now[i] == m[i] {
      if i !in done {
        assert !NeedsUpdate(rows[i]);
      }
    }
  }

  /** `a` with the positions in `d` taken from `b`. */
  function Overlay<T>(a: seq<T>, b: seq<T>, d: set<nat>): (r: seq<T>)
    requires |a| == |b|
    ensures |r| == |a| && forall i :: 0 <= i < |a| ==> r[i] == if i in d then b[i] else a[i]
  {
    seq(|a|, i requires 0 <= i < |a| => if i in d then b[i] else a[i])
  }

  /** Taking one more position from `b`. */
  lemma OverlayAdd<T>(a: seq<T>, b: seq<T>, d: set<nat>, i: nat)
    requires |a| == |b| && i < |a|
    ensures Overlay(a, b, d + {i}) == Overlay(a, b, d)[i := b[i]]
  {
  }

  class ModelUpdater {
    var updatedCount: nat
    var failedCount: nat

    constructor()
      ensures updatedCount == 0 && failedCount == 0
    {
      updatedCount := 0;
      failedCount := 0;
    }

    /** `fetch_model_update_time`: the API first, then the page. */
    method FetchModelUpdateTime(api: ApiResponse, page: PageOutcome, today: Date)
      returns (r: Outcome, pageFetched: bool)
      requires ValidDate(today)
      modifies this
      ensures r == Resolve(api, page, today)
      ensures pageFetched == PageRequested(api)
      ensures updatedCount == old(updatedCount) + UpdatedBump(api, page, today)
      ensures failedCount == old(failedCount) + FailedBump(api, page, today)
    {
      var apiTime := ExtractFromApi(api);
      if Truthy(apiTime) {
        updatedCount := updatedCount + 1;
        return Returned(apiTime), false;
      }
      pageFetched := true;
      match page {
        case Page(doc) =>
          var updateTime := ExtractFromHtml(doc, today);
          if Truthy(updateTime) {
            updatedCount := updatedCount + 1;
          } else {
            failedCount := failedCount + 1;
          }
          r := Returned(updateTime);
        case RequestError =>
          failedCount := failedCount + 1;
          r := Returned(None);
        case OtherFailure =>
          r := Raised;
      }
    }

    /** One completed task: the selected row `index` takes the result of
        `fetch_model_update_time` when it is truthy; a task that raised
        leaves the row alone. */
    method MergeOne(rows: array<Row>, index: nat, api: ApiResponse, page: PageOutcome, today: Date)
      requires ValidDate(today) && index < rows.Length
      requires HasColumns(rows[index]) && NeedsUpdate(rows[index])
      modifies this, rows
      ensures rows[..] == old(rows[..])[index := MergedRow(old(rows[index]), api, page, today)]
      ensures updatedCount == old(updatedCount) + UpdatedBump(api, page, today)
      ensures failedCount == old(failedCount) + FailedBump(api, page, today)
    {
      ghost var before := rows[index];
      var r, _ := FetchModelUpdateTime(api, page, today);
      if r.Returned? && Truthy(r.value) {
        rows[index] := rows[index]["update_time" := r.value.value];
      }
      MergeStep(before, api, page, today, r, rows[index]);
    }

    /** `update_csv_file` between reading and writing the CSV: select the
        rows, resolve each selected model (results arriving in `order`), and
        overwrite a row's `update_time` in place when its result is truthy.
        Whatever the completion order, the rows end as `MergedRows`, and the
        counters grow by the number of selected models counted as updated
        and as failed. */
    method UpdateRows(rows: array<Row>, net: seq<(ApiResponse, PageOutcome)>, order: seq<nat>, today: Date)
      requires ValidDate(today)
      requires AllHaveColumns(rows[..]) && |net| == rows.Length
      requires IsOrdering(order, |Selection(rows[..])|)
      modifies this, rows
      ensures rows[..] == MergedRows(old(rows[..]), net, today)
      ensures updatedCount == old(updatedCount) + |UpdatedIn(PendingSet(old(rows[..])), net, today)|
      ensures failedCount == old(failedCount) + |FailedIn(PendingSet(old(rows[..])), net, today)|
    {
      ghost var initial := rows[..];
      ghost var merged := MergedRows(initial, net, today);
      var todo := SelectRows(rows);
      ghost var done: set<nat> := {};
      var k := 0;
      while k < |order|
        invariant 0 <= k <= |order|
        invariant done == Finished(todo, order, k)
        invariant rows[..] == Overlay(initial, merged, done)
        invariant updatedCount == old(updatedCount) + |UpdatedIn(done, net, today)|
        invariant failedCount == old(failedCount) + |FailedIn(done, net, today)|
      {
        var index := todo[order[k]].0;
        NotYetFinished(initial, todo, order, k);
        assert rows[index] == initial[index];
        assert merged[index] == MergedRow(initial[index], net[index].0, net[index].1, today);
        MergeOne(rows, index, net[index].0, net[index].1, today);
        OverlayAdd(initial, merged, done, index);
        AddOne(done, index, net, today);
        done := done + {index};
        k := k + 1;
      }
      OrderCoversSelection(initial, todo, order);
      AllMerged(rows[..], initial, net, done, today);
    }
  }
}
