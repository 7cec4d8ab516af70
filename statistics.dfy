/** `generate_statistics`: the span of the standardised update times, how
    many models there are of each type and of each size, and the download and
    coverage totals. A dict built by counting is an association list here,
    its keys in the order they were first seen, as the JSON output lists
    them. */
module Statistics {
  import opened Wrappers
  import opened Text
  import opened Convert
  import opened Timeline

  // ---------------------------------------------------------------------
  // counting dicts

  predicate HasKey<K(==)>(t: seq<(K, nat)>, k: K) {
    exists i :: 0 <= i < |t| && t[i].0 == k
  }

  predicate DistinctKeys<K(==)>(t: seq<(K, nat)>) {
    forall i, j :: 0 <= i < j < |t| ==> t[i].0 != t[j].0
  }

  /** `d.get(k, 0)`. */
  function Lookup<K(==)>(t: seq<(K, nat)>, k: K): nat
    decreases |t|
  {
    if t == [] then 0 else if t[0].0 == k then t[0].1 else Lookup(t[1..], k)
  }

  /** The sum of the counts. */
  function Total<K>(t: seq<(K, nat)>): nat
    decreases |t|
  {
    if t == [] then 0 else t[0].1 + Total(t[1..])
  }

  /** `d[k] = d.get(k, 0) + 1`: a key already present keeps its place, a new
      one goes last. */
  function Bump<K(==)>(t: seq<(K, nat)>, k: K): (r: seq<(K, nat)>)
    ensures HasKey(t, k) ==> |r| == |t| && forall i :: 0 <= i < |t| ==> r[i].0 == t[i].0
    ensures !HasKey(t, k) ==> r == t + [(k, 1)]
    decreases |t|
  {
    if t == [] then [(k, 1)]
    else if t[0].0 == k then [(k, t[0].1 + 1)] + t[1..]
    else
      var rest := Bump(t[1..], k);
      assert HasKey(t[1..], k) <==> HasKey(t, k) by {
        if HasKey(t, k) {
          var i :| 0 <= i < |t| && t[i].0 == k;
          assert t[1..][i - 1] == t[i];
        }
        if HasKey(t[1..], k) {
          var i :| 0 <= i < |t[1..]| && t[1..][i].0 == k;
          assert t[i + 1] == t[1..][i];
        }
      }
      [t[0]] + rest
  }

  /** Bumping `k` adds one to the count of `k` and to no other. */
  lemma {:induction false} BumpLookup<K>(t: seq<(K, nat)>, k: K, j: K)
    ensures Lookup(Bump(t, k), j) == Lookup(t, j) + (if j == k then 1 else 0)
    decreases |t|
  {
    if t != [] && t[0].0 != k {
      BumpLookup(t[1..], k, j);
      assert ([t[0]] + Bump(t[1..], k))[1..] == Bump(t[1..], k);
    } else if t != [] {
      assert ([(k, t[0].1 + 1)] + t[1..])[1..] == t[1..];
    }
  }

  lemma {:induction false} BumpTotal<K>(t: seq<(K, nat)>, k: K)
    ensures Total(Bump(t, k)) == Total(t) + 1
    decreases |t|
  {
    if t != [] && t[0].0 != k {
      BumpTotal(t[1..], k);
      assert ([t[0]] + Bump(t[1..], k))[1..] == Bump(t[1..], k);
    } else if t != [] {
      assert ([(k, t[0].1 + 1)] + t[1..])[1..] == t[1..];
    } else {
      assert [(k, 1)][1..] == [];
    }
  }

  lemma BumpDistinct<K>(t: seq<(K, nat)>, k: K)
    requires DistinctKeys(t)
    ensures DistinctKeys(Bump(t, k))
    ensures forall j :: HasKey(Bump(t, k), j) <==> HasKey(t, j) || j == k
  {
    var r := Bump(t, k);
    if HasKey(t, k) {
      var q :| 0 <= q < |t| && t[q].0 == k;
      forall j | HasKey(r, j) ensures HasKey(t, j) {
        var i :| 0 <= i < |r| && r[i].0 == j;
        assert t[i].0 == j;
      }
      forall j | HasKey(t, j) ensures HasKey(r, j) {
        var i :| 0 <= i < |t| && t[i].0 == j;
        assert r[i].0 == j;
      }
      assert r[q].0 == k;
    } else {
      assert r[|t|].0 == k;
      forall j | HasKey(r, j) ensures HasKey(t, j) || j == k {
        var i :| 0 <= i < |r| && r[i].0 == j;
        if i < |t| { assert t[i].0 == j; }
      }
      forall j | HasKey(t, j) ensures HasKey(r, j) {
        var i :| 0 <= i < |t| && t[i].0 == j;
        assert r[i].0 == j;
      }
    }
  }

  /** How often `k` occurs in `ks`. */
  function Count<K(==)>(ks: seq<K>, k: K): (n: nat)
    ensures n <= |ks|
    decreases |ks|
  {
    if ks == [] then 0 else Count(ks[..|ks| - 1], k) + (if ks[|ks| - 1] == k then 1 else 0)
  }

  /** Bumping a tally of `p` with `x` gives a tally of `p + [x]`. */
  lemma TallyStep<K(!new)>(t: seq<(K, nat)>, p: seq<K>, x: K, ks: seq<K>)
    requires DistinctKeys(t) && Total(t) == |p| && ks == p + [x]
    requires forall k :: HasKey(t, k) <==> k in p
    ensures DistinctKeys(Bump(t, x))
    ensures forall k :: HasKey(Bump(t, x), k) <==> k in ks
    ensures Total(Bump(t, x)) == |ks|
  {
    BumpTotal(t, x);
    BumpDistinct(t, x);
    forall k ensures k in ks <==> k in p || k == x { }
  }

  /** The dict a counting loop over `ks` builds: each item is a key, once,
      nothing else is, and the counts sum to the number of items. */
  function TallyOf<K(==,!new)>(ks: seq<K>): (r: seq<(K, nat)>)
    ensures DistinctKeys(r)
    ensures forall k :: HasKey(r, k) <==> k in ks
    ensures Total(r) == |ks|
    decreases |ks|
  {
    if ks == [] then []
    else
      var n := |ks| - 1;
      var p := ks[..n];
      var t := TallyOf(p);
      TallyStep(t, p, ks[n], ks);
      Bump(t, ks[n])
  }

  /** Counting one more item bumps its key. */
  lemma TallySnoc<K(!new)>(ks: seq<K>, k: K)
    ensures TallyOf(ks + [k]) == Bump(TallyOf(ks), k)
  {
    var ys := ks + [k];
    assert ys[..|ys| - 1] == ks && ys[|ys| - 1] == k;
  }

  /** The count of each key is how often it occurs. */
  lemma {:induction false} TallyLookup<K(!new)>(ks: seq<K>, k: K)
    ensures Lookup(TallyOf(ks), k) == Count(ks, k)
    decreases |ks|
  {
    if ks != [] {
      var n := |ks| - 1;
      TallyLookup(ks[..n], k);
      BumpLookup(TallyOf(ks[..n]), ks[n], k);
    }
  }

  // ---------------------------------------------------------------------
  // the statistics

  /** The keys that count for the time range: exactly those of the models
      whose key is neither missing nor starts with `0`. */
  function TimesOf(models: seq<ModelRecord>): (ts: seq<string>)
    ensures |ts| <= |models|
    ensures forall t :: t in ts ==> t != MissingTime && !StartsWith(t, "0")
    ensures forall t :: t in ts ==> exists i :: 0 <= i < |models| && Key(models[i]) == t
    ensures forall i :: 0 <= i < |models| && Key(models[i]) != MissingTime && !StartsWith(Key(models[i]), "0") ==>
      Key(models[i]) in ts
    decreases |models|
  {
    if models == [] then []
    else
      var rest := TimesOf(models[1..]);
      assert forall i :: 1 <= i < |models| ==> models[i] == models[1..][i - 1];
      var t := Key(models[0]);
      if t != MissingTime && !StartsWith(t, "0") then [t] + rest else rest
  }

  /** `min` in Python's string order. */
  function MinLex(ts: seq<string>): (r: string)
    requires ts != []
    ensures r in ts && forall t :: t in ts ==> LexLe(r, t)
    decreases |ts|
  {
    if |ts| == 1 then LexLeRefl(ts[0]); ts[0]
    else
      var m := MinLex(ts[1..]);
      LexLeTotal(ts[0], m);
      forall t | t in ts ensures LexLe(if LexLe(ts[0], m) then ts[0] else m, t) {
        if t == ts[0] { LexLeRefl(t); } else { assert t in ts[1..]; }
        if LexLe(ts[0], m) && t in ts[1..] { LexLeTrans(ts[0], m, t); }
      }
      if LexLe(ts[0], m) then ts[0] else m
  }

  /** `max` in Python's string order. */
  function MaxLex(ts: seq<string>): (r: string)
    requires ts != []
    ensures r in ts && forall t :: t in ts ==> LexLe(t, r)
    decreases |ts|
  {
    if |ts| == 1 then LexLeRefl(ts[0]); ts[0]
    else
      var m := MaxLex(ts[1..]);
      LexLeTotal(ts[0], m);
      forall t | t in ts ensures LexLe(t, if LexLe(m, ts[0]) then ts[0] else m) {
        if t == ts[0] { LexLeRefl(t); } else { assert t in ts[1..]; }
        if LexLe(m, ts[0]) && t in ts[1..] { LexLeTrans(t, m, ts[0]); }
      }
      if LexLe(m, ts[0]) then ts[0] else m
  }

  /** The model types, one per model. */
  function TypesOf(models: seq<ModelRecord>): (r: seq<string>)
    ensures |r| == |models| && forall i :: 0 <= i < |models| ==> r[i] == models[i].modelType
  {
    seq(|models|, i requires 0 <= i < |models| => models[i].modelType)
  }

  /** The sizes `if size:` lets through: exactly those present and not
      zero. */
  function SizesOf(models: seq<ModelRecord>): (r: seq<real>)
    ensures |r| <= |models|
    ensures forall x :: x in r ==> x != 0.0
    ensures forall x :: x in r ==> exists i :: 0 <= i < |models| && models[i].size == Some(x)
    ensures forall i :: 0 <= i < |models| && models[i].size.Some? && models[i].size.value != 0.0 ==>
      models[i].size.value in r
    decreases |models|
  {
    if models == [] then []
    else
      var n := |models| - 1;
      assert forall i :: 0 <= i < n ==> models[i] == models[..n][i];
      var s := models[n].size;
      SizesOf(models[..n]) + (if s.Some? && s.value != 0.0 then [s.value] else [])
  }

  /** The model sizes, one per model, absent ones included. */
  function SizeSlots(models: seq<ModelRecord>): (r: seq<Option<real>>)
    ensures |r| == |models| && forall i :: 0 <= i < |models| ==> r[i] == models[i].size
  {
    seq(|models|, i requires 0 <= i < |models| => models[i].size)
  }

  /** Each non-zero size is counted once per model of that size. */
  lemma {:induction false} SizesOfCount(models: seq<ModelRecord>, x: real)
    requires x != 0.0
    ensures Count(SizesOf(models), x) == Count(SizeSlots(models), Some(x))
    decreases |models|
  {
    if models != [] {
      var n := |models| - 1;
      SizesOfCount(models[..n], x);
      var p := SizesOf(models[..n]);
      var s := models[n].size;
      var slots := SizeSlots(models);
      assert slots[..n] == SizeSlots(models[..n]);
      assert Count(slots, Some(x)) == Count(SizeSlots(models[..n]), Some(x)) + (if s == Some(x) then 1 else 0);
      if s.Some? && s.value != 0.0 {
        assert SizesOf(models) == p + [s.value];
        CountSnoc(p, s.value, x);
      } else {
        assert SizesOf(models) == p + [] == p;
        assert s != Some(x);
      }
    }
  }

  /** Counting over one more item. */
  lemma CountSnoc<K>(ks: seq<K>, y: K, k: K)
    ensures Count(ks + [y], k) == Count(ks, k) + (if y == k then 1 else 0)
  {
    assert (ks + [y])[..|ks|] == ks;
  }

  /** `sizes[x]` is the number of models whose size is `x`, for every size
      `if size:` lets through. */
  lemma SizeCounts(models: seq<ModelRecord>, x: real)
    requires x != 0.0
    ensures Lookup(TallyOf(SizesOf(models)), x) == Count(SizeSlots(models), Some(x))
  {
    TallyLookup(SizesOf(models), x);
    SizesOfCount(models, x);
  }

  function TotalDownloads(models: seq<ModelRecord>): int
    decreases |models|
  {
    if models == [] then 0 else models[0].downloadsNumber + TotalDownloads(models[1..])
  }

  function ModelsWithTime(models: seq<ModelRecord>): (n: nat)
    ensures n <= |models|
    decreases |models|
  {
    if models == [] then 0 else (if Key(models[0]) != MissingTime then 1 else 0) + ModelsWithTime(models[1..])
  }

  function ModelsWithSize(models: seq<ModelRecord>): (n: nat)
    ensures n <= |models|
    decreases |models|
  {
    if models == [] then 0 else (if models[0].size.Some? then 1 else 0) + ModelsWithSize(models[1..])
  }

  datatype Stats = Stats(
    start: Option<string>,
    end: Option<string>,
    types: seq<(string, nat)>,
    sizes: seq<(real, nat)>,
    totalDownloads: int,
    avgDownloads: real,
    modelsWithTime: nat,
    modelsWithSize: nat)

  /** One more model bumps the count of its type. */
  lemma TypesStep(models: seq<ModelRecord>, i: nat)
    requires i < |models|
    ensures TallyOf(TypesOf(models[..i + 1])) == Bump(TallyOf(TypesOf(models[..i])), models[i].modelType)
  {
    assert TypesOf(models[..i + 1]) == TypesOf(models[..i]) + [models[i].modelType];
    TallySnoc(TypesOf(models[..i]), models[i].modelType);
  }

  /** One more model bumps the count of its size, when it has a truthy one. */
  lemma SizesStep(models: seq<ModelRecord>, i: nat)
    requires i < |models|
    ensures var size := models[i].size;
      TallyOf(SizesOf(models[..i + 1])) ==
        if size.Some? && size.value != 0.0 then Bump(TallyOf(SizesOf(models[..i])), size.value)
        else TallyOf(SizesOf(models[..i]))
  {
    assert models[..i + 1][..i] == models[..i];
    var size := models[i].size;
    var xs := SizesOf(models[..i]);
    if size.Some? && size.value != 0.0 {
      assert SizesOf(models[..i + 1]) == xs + [size.value];
      TallySnoc(xs, size.value);
    } else {
      assert SizesOf(models[..i + 1]) == xs + [] == xs;
    }
  }

  /** The loop counting the models of each type. */
  method CountTypes(models: seq<ModelRecord>) returns (types: seq<(string, nat)>)
    ensures types == TallyOf(TypesOf(models))
  {
    types := [];
    for i := 0 to |models|
      invariant types == TallyOf(TypesOf(models[..i]))
    {
      TypesStep(models, i);
      types := Bump(types, models[i].modelType);
    }
    assert models[..|models|] == models;
  }

  /** The loop counting the models of each size, skipping an absent or zero one. */
  method CountSizes(models: seq<ModelRecord>) returns (sizes: seq<(real, nat)>)
    ensures sizes == TallyOf(SizesOf(models))
  {
    sizes := [];
    for i := 0 to |models|
      invariant sizes == TallyOf(SizesOf(models[..i]))
    {
      SizesStep(models, i);
      var size := models[i].size;
      if size.Some? && size.value != 0.0 {
        sizes := Bump(sizes, size.value);
      }
    }
    assert models[..|models|] == models;
  }

  /** `generate_statistics`; the average is exact rather than a double. */
  method GenerateStatistics(models: seq<ModelRecord>) returns (st: Stats)
    ensures var ts := TimesOf(models);
      st.start == (if ts == [] then None else Some(MinLex(ts)))
      && st.end == (if ts == [] then None else Some(MaxLex(ts)))
    ensures st.types == TallyOf(TypesOf(models)) && st.sizes == TallyOf(SizesOf(models))
    ensures st.totalDownloads == TotalDownloads(models)
    ensures st.avgDownloads == if models == [] then 0.0 else TotalDownloads(models) as real / |models| as real
    ensures st.modelsWithTime == ModelsWithTime(models) && st.modelsWithSize == ModelsWithSize(models)
  {
    var times := TimesOf(models);
    var start := if times == [] then None else Some(MinLex(times));
    var end := if times == [] then None else Some(MaxLex(times));
    var types := CountTypes(models);
    var sizes := CountSizes(models);
    var total := TotalDownloads(models);
    var avg := if models == [] then 0.0 else total as real / |models| as real;
    st := Stats(start, end, types, sizes, total, avg, ModelsWithTime(models), ModelsWithSize(models));
  }

  /** The time range spans the counted times: both ends are among them, the
      start is at most the end, both are some model's key, and every model
      whose key counts has its key between them (so the range is present
      whenever such a model exists). */
  lemma TimeRangeBounds(models: seq<ModelRecord>)
    ensures var ts := TimesOf(models);
      ts != [] ==>
        (MinLex(ts) in ts && MaxLex(ts) in ts && LexLe(MinLex(ts), MaxLex(ts))
         && forall t :: t in ts ==> LexLe(MinLex(ts), t) && LexLe(t, MaxLex(ts)))
    ensures TimesOf(models) != [] ==>
      (exists i :: 0 <= i < |models| && Key(models[i]) == MinLex(TimesOf(models)))
      && (exists i :: 0 <= i < |models| && Key(models[i]) == MaxLex(TimesOf(models)))
    ensures forall i :: 0 <= i < |models| && Key(models[i]) != MissingTime && !StartsWith(Key(models[i]), "0") ==>
      TimesOf(models) != [] && LexLe(MinLex(TimesOf(models)), Key(models[i])) && LexLe(Key(models[i]), MaxLex(TimesOf(models)))
  {
    var ts := TimesOf(models);
    if ts != [] {
      LexLeTrans(MinLex(ts), ts[0], MaxLex(ts));
    }
  }

  /** The counted times are those of models with a time, less the ones that
      start with `0`. */
  lemma {:induction false} TimesWithinModelsWithTime(models: seq<ModelRecord>)
    ensures |TimesOf(models)| <= ModelsWithTime(models) <= |models|
    decreases |models|
  {
    if models != [] { TimesWithinModelsWithTime(models[1..]); }
  }

  /** A model whose key is a date with a leading `0` counts as having a time
      but is left out of the time range, so there can be more models with a
      time than counted times. */
  lemma {:induction false} LeadingZeroTimeNotInRange(models: seq<ModelRecord>, i: nat)
    requires i < |models| && StartsWith(Key(models[i]), "0")
    ensures |TimesOf(models)| < ModelsWithTime(models)
    decreases |models|
  {
    if i == 0 {
      TimesWithinModelsWithTime(models[1..]);
      assert Key(models[0]) != MissingTime by { assert MissingTime[0] == '9'; }
    } else {
      LeadingZeroTimeNotInRange(models[1..], i - 1);
    }
  }

  /** The type counts add up to the number of models, and each is the number
      of models of that type. */
  lemma TypeCounts(models: seq<ModelRecord>, ty: string)
    ensures Total(TallyOf(TypesOf(models))) == |models|
    ensures Lookup(TallyOf(TypesOf(models)), ty) == Count(TypesOf(models), ty)
    ensures HasKey(TallyOf(TypesOf(models)), ty) <==> exists i :: 0 <= i < |models| && models[i].modelType == ty
  {
    TallyLookup(TypesOf(models), ty);
    var ts := TypesOf(models);
    if ty in ts {
      var i :| 0 <= i < |ts| && ts[i] == ty;
      assert models[i].modelType == ty;
    }
    if exists i :: 0 <= i < |models| && models[i].modelType == ty {
      var i :| 0 <= i < |models| && models[i].modelType == ty;
      assert ts[i] == ty;
    }
  }

  /** The size counts cover only models with a size, so they add up to at
      most the number of models with a size: a size of 0 is a size but is
      not counted. */
  lemma {:induction false} SizeCountsWithinModelsWithSize(models: seq<ModelRecord>)
    ensures Total(TallyOf(SizesOf(models))) == |SizesOf(models)|
    ensures |SizesOf(models)| <= ModelsWithSize(models)
    decreases |models|
  {
    if models != [] {
      var n := |models| - 1;
      SizeCountsWithinModelsWithSize(models[..n]);
      ModelsWithSizeLast(models);
    }
  }

  lemma {:induction false} ModelsWithSizeLast(models: seq<ModelRecord>)
    requires models != []
    ensures ModelsWithSize(models) == ModelsWithSize(models[..|models| - 1]) + (if models[|models| - 1].size.Some? then 1 else 0)
    decreases |models|
  {
    if |models| > 1 {
      var n := |models| - 1;
      ModelsWithSizeLast(models[1..]);
      assert models[1..][..n - 1] == models[..n][1..];
    }
  }
}
