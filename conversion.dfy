/** `convert_csv_to_json`: the rows of the cleaned CSV become the timeline
    document, its models newest first and its statistics taken over the
    models in row order. Whether the CSV exists and the clock reading are
    given; reading the CSV and writing the JSON are not modelled. */
module Conversion {
  import opened Wrappers
  import opened Text
  import opened Convert
  import opened Timeline
  import opened Statistics

  const SourceFile := "qwen_models_cleaned.csv"

  datatype Metadata = Metadata(
    totalModels: nat,
    generatedDate: string,
    sourceFile: string,
    start: Option<string>,
    end: Option<string>,
    types: seq<(string, nat)>,
    sizes: seq<(real, nat)>)

  datatype TimelineDoc = TimelineDoc(metadata: Metadata, statistics: Stats, models: seq<ModelRecord>)

  /** The whole conversion; None when the CSV file does not exist. */
  method ConvertCsvToJson(csvExists: bool, rows: seq<CsvRow>, now: string) returns (r: Option<TimelineDoc>)
    ensures r.None? <==> !csvExists
    ensures r.Some? ==>
      var kept := Kept(rows);
      var doc := r.value;
      doc.models == SortByTimeDesc(kept)
      && doc.metadata.totalModels == |kept|
      && doc.metadata.generatedDate == now && doc.metadata.sourceFile == SourceFile
      && doc.statistics.types == TallyOf(TypesOf(kept)) && doc.statistics.sizes == TallyOf(SizesOf(kept))
      && doc.statistics.totalDownloads == TotalDownloads(kept)
      && doc.statistics.avgDownloads == (if kept == [] then 0.0 else TotalDownloads(kept) as real / |kept| as real)
      && doc.statistics.modelsWithTime == ModelsWithTime(kept)
      && doc.statistics.modelsWithSize == ModelsWithSize(kept)
      && (var ts := TimesOf(kept);
          doc.statistics.start == (if ts == [] then None else Some(MinLex(ts)))
          && doc.statistics.end == (if ts == [] then None else Some(MaxLex(ts))))
      && doc.metadata.start == doc.statistics.start && doc.metadata.end == doc.statistics.end
      && doc.metadata.types == doc.statistics.types && doc.metadata.sizes == doc.statistics.sizes
  {
    if !csvExists {
      return None;
    }
    var models := CollectModels(rows);
    var sorted := SortByTimeDesc(models);
    var stats := GenerateStatistics(models);
    var meta := Metadata(|models|, now, SourceFile, stats.start, stats.end, stats.types, stats.sizes);
    r := Some(TimelineDoc(meta, stats, sorted));
  }

  /** The timeline lists every kept record once, newest first, records with
      the same key in row order, and the type counts cover every model. */
  lemma TimelineModels(rows: seq<CsvRow>, k: string)
    ensures var kept := Kept(rows); var out := SortByTimeDesc(kept);
      multiset(out) == multiset(kept) && SortedDesc(out) && WithKey(out, k) == WithKey(kept, k)
      && Total(TallyOf(TypesOf(kept))) == |out|
  {
    var kept := Kept(rows);
    SortPermutes(kept);
    SortIsSorted(kept);
    SortIsStable(kept, k);
    TypeCounts(kept, k);
  }
}
