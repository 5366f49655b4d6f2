/** The one piece of logic in the loader: national and total rows of the
    population file are dropped before anything else sees them. */
module Loading {
  import opened Options
  import opened Text
  import opened Tables

  /** `Região` matches `'Brasil|Total'` case-insensitively anywhere in the
      label (`str.contains(..., case=False)`). */
  predicate IsAggregateLabel(region: string) {
    ContainsFolded(region, "brasil") || ContainsFolded(region, "total")
  }

  /** The population rows kept by the loader (data_processing.py, line 42):
      exactly the rows whose label is not an aggregate, each as often as in
      the file, in file order. */
  function DropAggregateRows(rows: seq<RawPopulation>): (r: seq<RawPopulation>)
    ensures forall i | 0 <= i < |r| :: !IsAggregateLabel(r[i].region)
    ensures forall x :: multiset(r)[x] == if IsAggregateLabel(x.region) then 0 else multiset(rows)[x]
  {
    Filter(rows, (row: RawPopulation) => !IsAggregateLabel(row.region))
  }

  /** `load_raw_data`: `None` when a file cannot be read (the I/O itself is
      outside the model), otherwise the tables with the population filter
      applied: every non-aggregate population row kept, in file order, and
      the other two tables untouched. */
  function LoadRawData(files: Option<RawTables>): (r: Option<RawTables>)
    ensures r.Some? <==> files.Some?
    ensures r.Some? ==> r.value.consumption == files.value.consumption && r.value.climate == files.value.climate
    ensures r.Some? ==> forall i | 0 <= i < |r.value.population| :: !IsAggregateLabel(r.value.population[i].region)
    ensures r.Some? ==> r.value.population == DropAggregateRows(files.value.population)
  {
    match files
    case None => None
    case Some(t) => Some(t.(population := DropAggregateRows(t.population)))
  }

  lemma NoMatchAt(s: string, pat: string, i: int)
    requires 0 <= i <= |s| - |pat| && |pat| > 0 && FoldCase(s[i]) != pat[0]
    ensures !MatchesAt(s, pat, i)
  {
    assert s[i + 0] == s[i];
  }

  /** Examples of the filter: national and total labels in any letter case
      are aggregates. */
  lemma AggregateLabelExamples()
    ensures IsAggregateLabel("Brasil") && IsAggregateLabel("TOTAL") && IsAggregateLabel("Total Geral")
  {
    assert MatchesAt("Brasil", "brasil", 0);
    assert MatchesAt("TOTAL", "total", 0);
    assert MatchesAt("Total Geral", "total", 0);
  }

  /** Examples of the filter: region names are kept. */
  lemma RegionLabelExamples()
    ensures !IsAggregateLabel("Sudeste") && !IsAggregateLabel("Norte")
  {
    SudesteKept();
    NorteKept();
  }

  lemma SudesteKept()
    ensures !IsAggregateLabel("Sudeste")
  {
    var se := "Sudeste";
    assert FoldCase(se[0]) == 's' && FoldCase(se[1]) == 'u' && FoldCase(se[2]) == 'd';
    SevenLetterKept(se);
  }

  /** A seven-letter label starting with "sud" in any letter case is no
      aggregate: no window of it starts with a "b" or a "t". */
  lemma SevenLetterKept(s: string)
    requires |s| == 7 && FoldCase(s[0]) == 's' && FoldCase(s[1]) == 'u' && FoldCase(s[2]) == 'd'
    ensures !IsAggregateLabel(s)
  {
    FirstLetterAbsent(s, "brasil");
    FirstLetterAbsent(s, "total");
  }

  /** A label none of whose possible window starts folds onto the pattern's
      first letter does not contain the pattern. */
  lemma FirstLetterAbsent(s: string, pat: string)
    requires |pat| > 0 && forall i | 0 <= i <= |s| - |pat| :: FoldCase(s[i]) != pat[0]
    ensures !ContainsFolded(s, pat)
  {
    forall i | 0 <= i <= |s| - |pat| ensures !MatchesAt(s, pat, i) {
      NoMatchAt(s, pat, i);
    }
  }

  lemma NorteKept()
    ensures !IsAggregateLabel("Norte")
  {
    assert !ContainsFolded("Norte", "total") by {
      NoMatchAt("Norte", "total", 0);
    }
  }
}
