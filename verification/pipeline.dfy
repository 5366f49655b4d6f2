/** The driver (`main`): load, clean, harmonize and join, stopping at the
    first stage that reports failure, otherwise handing the master table to
    the writer. */
module Pipeline {
  import opened Options
  import opened Text
  import opened Calendar
  import opened Ordering
  import opened Tables
  import opened Loading
  import opened Cleaning
  import opened Harmonize
  import opened Features

  datatype Stage = LoadStage | CleanStage | HarmonizeStage

  /** What a run ends with: the table handed to the CSV writer, or the stage
      whose `None` made `main` return early. */
  datatype Outcome = Written(master: seq<MasterRow>) | Stopped(at: Stage)

  /** Every consumption date cell is a date or `NaT`. */
  predicate AllDatesRead(consumption: seq<RawConsumption>) {
    forall i | 0 <= i < |consumption| :: ReadableDate(consumption[i].date)
  }

  /** Some row of the population file, not an aggregate, is labelled
      `region` once surrounding spaces are stripped. */
  predicate LoadsRegion(pop: seq<RawPopulation>, region: string) {
    exists i | 0 <= i < |pop| :: !IsAggregateLabel(pop[i].region) && Strip(pop[i].region) == region
  }

  predicate HasRegion(pop: seq<Population>, region: string) {
    exists i | 0 <= i < |pop| :: pop[i].region == region
  }

  /** The (day, region) pairs of the master table. */
  function MasterKeys(m: seq<MasterRow>): set<Key> {
    set k | 0 <= k < |m| :: Key(m[k].ds, m[k].region)
  }

  /** The population table harmonization receives. */
  function CleanedPopulation(files: RawTables): seq<Population> {
    CleanPopulation(DropAggregateRows(files.population))
  }

  /** `main` (data_processing.py, lines 211-237). Each stage's failure is
      stated in terms of the input files: a file cannot be read, a
      consumption date cell is neither a date nor `NaT`, or a sub-region has no population
      row. `create_features` cannot fail, so the check after it never stops
      a run. */
  function Run(files: Option<RawTables>, holidays: set<Date>): (r: Outcome)
    ensures r == Stopped(LoadStage) <==> files.None?
    ensures r == Stopped(CleanStage) <==> files.Some? && !AllDatesRead(files.value.consumption)
    ensures r == Stopped(HarmonizeStage) <==>
      files.Some? && AllDatesRead(files.value.consumption) &&
      (!LoadsRegion(files.value.population, Southeast) || !LoadsRegion(files.value.population, CenterWest))
  {
    match LoadRawData(files)
    case None => Stopped(LoadStage)
    case Some(raw) =>
      assert raw.population == DropAggregateRows(files.value.population);
      LoadedRegionCleaned(files.value.population, Southeast);
      LoadedRegionCleaned(files.value.population, CenterWest);
      RunLoaded(raw, holidays)
  }

  /** The stages after loading: cleaning, then the rest. */
  function RunLoaded(raw: RawTables, holidays: set<Date>): (r: Outcome)
    ensures r != Stopped(LoadStage)
    ensures r == Stopped(CleanStage) <==> !AllDatesRead(raw.consumption)
    ensures r == Stopped(HarmonizeStage) <==>
      AllDatesRead(raw.consumption) && (!HasRegion(CleanPopulation(raw.population), Southeast) ||
                                         !HasRegion(CleanPopulation(raw.population), CenterWest))
  {
    match CleanData(raw)
    case None => Stopped(CleanStage)
    case Some(clean) => RunCleaned(clean, holidays)
  }

  /** The stages after cleaning: harmonization, then the feature join. */
  function RunCleaned(clean: CleanTables, holidays: set<Date>): (r: Outcome)
    ensures r != Stopped(LoadStage) && r != Stopped(CleanStage)
    ensures r == Stopped(HarmonizeStage) <==>
      !HasRegion(clean.population, Southeast) || !HasRegion(clean.population, CenterWest)
  {
    match HarmonizeRegions(clean.population, clean.climate)
    case None => Stopped(HarmonizeStage)
    case Some(h) => Written(CreateFeatures(clean.consumption, h.population, h.climate, holidays))
  }

  /** A run that gets through writes a row for every (day, region) pair of
      the consumption file and for no other pair (more than one row per
      pair when the right-hand tables repeat a join key), each with the
      day's summed consumption and its calendar columns. */
  lemma RunWritesEveryDay(files: RawTables, holidays: set<Date>)
    requires Run(Some(files), holidays).Written?
    ensures var m := Run(Some(files), holidays).master;
      MasterKeys(m) == RawConsumptionKeys(files.consumption) &&
      forall k | 0 <= k < |m| ::
        m[k].y == RawTotal(files.consumption, Key(m[k].ds, m[k].region)) && CalendarFeatures(m[k], holidays)
  {
    var raw := LoadRawData(Some(files)).value;
    var clean := CleanData(raw).value;
    var h := HarmonizeRegions(clean.population, clean.climate).value;
    assert raw.consumption == files.consumption;
    assert Run(Some(files), holidays).master == CreateFeatures(clean.consumption, h.population, h.climate, holidays);
    MasterFromDays(clean.consumption, h.population, h.climate, holidays, files.consumption);
  }

  /** The cleaned population table has a row for `region` exactly when the
      loader kept one whose stripped label is `region`. */
  lemma LoadedRegionCleaned(pop: seq<RawPopulation>, region: string)
    ensures HasRegion(CleanPopulation(DropAggregateRows(pop)), region) <==> LoadsRegion(pop, region)
  {
    var kept := DropAggregateRows(pop);
    var c := CleanPopulation(kept);
    if i :| 0 <= i < |c| && c[i].region == region {
      var j := KeptRowOrigin(pop, i);
      assert !IsAggregateLabel(pop[j].region) && Strip(pop[j].region) == region;
    }
    if LoadsRegion(pop, region) {
      var j :| 0 <= j < |pop| && !IsAggregateLabel(pop[j].region) && Strip(pop[j].region) == region;
      var i := KeptRowPlace(pop, j);
      assert c[i].region == region;
    }
  }

  /** Where a row the loader kept came from. */
  lemma KeptRowOrigin(pop: seq<RawPopulation>, i: int) returns (j: int)
    requires 0 <= i < |DropAggregateRows(pop)|
    ensures 0 <= j < |pop| && pop[j] == DropAggregateRows(pop)[i] && !IsAggregateLabel(pop[j].region)
  {
    var kept := DropAggregateRows(pop);
    assert kept[i] in multiset(kept);
    assert kept[i] in multiset(pop);
    j :| 0 <= j < |pop| && pop[j] == kept[i];
  }

  /** Where a row that is not an aggregate ends up among the kept rows. */
  lemma KeptRowPlace(pop: seq<RawPopulation>, j: int) returns (i: int)
    requires 0 <= j < |pop| && !IsAggregateLabel(pop[j].region)
    ensures 0 <= i < |DropAggregateRows(pop)| && DropAggregateRows(pop)[i] == pop[j]
  {
    var kept := DropAggregateRows(pop);
    assert pop[j] in multiset(pop);
    assert pop[j] in multiset(kept);
    i :| 0 <= i < |kept| && kept[i] == pop[j];
  }

  /** The master table covers exactly the keys of the aggregated table, and
      each row carries the total its day has there. */
  lemma MasterFromDays(agg: seq<DailyConsumption>, pop: seq<Population>, climate: seq<Climate>, holidays: set<Date>,
                       raw: seq<RawConsumption>)
    requires forall i | 0 <= i < |agg| :: agg[i].total == RawTotal(raw, DailyKey(agg[i]))
    ensures var m := CreateFeatures(agg, pop, climate, holidays);
      MasterKeys(m) == KeySet(agg) &&
      forall k | 0 <= k < |m| :: m[k].y == RawTotal(raw, Key(m[k].ds, m[k].region)) && CalendarFeatures(m[k], holidays)
  {
    var m := CreateFeatures(agg, pop, climate, holidays);
    var days: seq<DailyConsumption> :| |days| == |m| && Rows(days) == Rows(agg) &&
      forall k | 0 <= k < |m| :: Enriches(m[k], days[k], pop, climate, holidays);
    MasterRowsOfDays(m, days, agg, pop, climate, holidays, raw);
  }

  /** Master rows that each carry one day of `agg`, and together all of
      them, have exactly `agg`'s keys and its totals. */
  lemma MasterRowsOfDays(m: seq<MasterRow>, days: seq<DailyConsumption>, agg: seq<DailyConsumption>,
                         pop: seq<Population>, climate: seq<Climate>, holidays: set<Date>, raw: seq<RawConsumption>)
    requires forall i | 0 <= i < |agg| :: agg[i].total == RawTotal(raw, DailyKey(agg[i]))
    requires |days| == |m| && Rows(days) == Rows(agg)
    requires forall k | 0 <= k < |m| :: Enriches(m[k], days[k], pop, climate, holidays)
    ensures MasterKeys(m) == KeySet(agg)
    ensures forall k | 0 <= k < |m| :: m[k].y == RawTotal(raw, Key(m[k].ds, m[k].region)) && CalendarFeatures(m[k], holidays)
  {
    forall k | 0 <= k < |m|
      ensures Key(m[k].ds, m[k].region) in KeySet(agg) && m[k].y == RawTotal(raw, Key(m[k].ds, m[k].region))
    {
      var i := RowIndex(agg, days[k]);
      assert Key(m[k].ds, m[k].region) == DailyKey(agg[i]);
    }
    forall key | key in KeySet(agg) ensures key in MasterKeys(m) {
      var i :| 0 <= i < |agg| && DailyKey(agg[i]) == key;
      var k := RowIndex(days, agg[i]);
      assert Key(m[k].ds, m[k].region) == key;
    }
  }

  /** Where a member of a table's row set sits in it. */
  lemma RowIndex<T>(s: seq<T>, x: T) returns (i: int)
    requires x in Rows(s)
    ensures 0 <= i < |s| && s[i] == x
  {
    i :| 0 <= i < |s| && s[i] == x;
  }

  /** When the cleaned tables have unique join keys and no row already uses
      the merged label, the master table has exactly one row per (day,
      region) pair of the consumption file. */
  lemma OneRowPerDayAndRegion(files: RawTables, holidays: set<Date>)
    requires Run(Some(files), holidays).Written?
    requires UniqueRegions(CleanedPopulation(files)) && MergedRegion !in PopulationRegions(CleanedPopulation(files))
    requires UniqueClimateKeys(CleanClimate(files.climate)) && MergedRegion !in ClimateRegions(CleanClimate(files.climate))
    ensures var m := Run(Some(files), holidays).master;
      |m| == |RawConsumptionKeys(files.consumption)| &&
      forall i, j | 0 <= i < j < |m| :: Key(m[i].ds, m[i].region) != Key(m[j].ds, m[j].region)
  {
    var raw := LoadRawData(Some(files)).value;
    var clean := CleanData(raw).value;
    var agg := clean.consumption;
    var h := HarmonizeRegions(clean.population, clean.climate).value;
    var m := CreateFeatures(agg, h.population, h.climate, holidays);
    assert m == Run(Some(files), holidays).master;
    assert UniquePopulationJoinKeys(h.population) by {
      HarmonizedPopulationUnique(clean.population);
    }
    assert UniqueClimateJoinKeys(h.climate) by {
      HarmonizedClimateUnique(clean.climate, PreHarmonizationWeights(clean.population));
      forall j, k | 0 <= j < k < |h.climate| ensures !SameClimateKey(h.climate[j], h.climate[k]) {
      }
    }
    MasterKeysDistinct(agg, h.population, h.climate, holidays);
    assert |m| == |agg|;
    assert |KeySet(agg)| == |agg| by {
      DistinctKeysCount(agg);
    }
  }

  /** The one-row-per-day join applied to a key-sorted table gives distinct
      (day, region) pairs. */
  lemma MasterKeysDistinct(agg: seq<DailyConsumption>, pop: seq<Population>, climate: seq<Climate>, holidays: set<Date>)
    requires StrictlySorted(agg)
    requires UniqueClimateJoinKeys(climate) && UniquePopulationJoinKeys(pop)
    ensures forall i, j | 0 <= i < j < |agg| :: DailyKey(agg[i]) != DailyKey(agg[j])
    ensures var m := CreateFeatures(agg, pop, climate, holidays);
      |m| == |agg| && forall i, j | 0 <= i < j < |m| :: Key(m[i].ds, m[i].region) != Key(m[j].ds, m[j].region)
  {
    OneMasterRowPerDay(agg, pop, climate, holidays);
    var m := CreateFeatures(agg, pop, climate, holidays);
    forall i, j | 0 <= i < j < |agg| ensures DailyKey(agg[i]) != DailyKey(agg[j]) {
      KeyLtIrreflexive(DailyKey(agg[i]));
    }
    forall i, j | 0 <= i < j < |m| ensures Key(m[i].ds, m[i].region) != Key(m[j].ds, m[j].region) {
      assert Key(m[i].ds, m[i].region) == DailyKey(agg[i]) && Key(m[j].ds, m[j].region) == DailyKey(agg[j]);
    }
  }

  /** A table whose keys are pairwise distinct has as many keys as rows. */
  lemma {:induction false} DistinctKeysCount(t: seq<DailyConsumption>)
    requires forall i, j | 0 <= i < j < |t| :: DailyKey(t[i]) != DailyKey(t[j])
    ensures |KeySet(t)| == |t|
  {
    if |t| > 0 {
      var rest := t[1..];
      DistinctTail(t);
      DistinctKeysCount(rest);
      KeySetCons(t[0], rest);
      assert [t[0]] + rest == t;
    }
  }

  /** Dropping the first row keeps the keys distinct, and its key is not
      among the others. */
  lemma DistinctTail(t: seq<DailyConsumption>)
    requires |t| > 0 && forall i, j | 0 <= i < j < |t| :: DailyKey(t[i]) != DailyKey(t[j])
    ensures forall i, j | 0 <= i < j < |t[1..]| :: DailyKey(t[1..][i]) != DailyKey(t[1..][j])
    ensures DailyKey(t[0]) !in KeySet(t[1..])
  {
    var rest := t[1..];
    assert forall i | 0 <= i < |rest| :: rest[i] == t[i + 1];
  }
}
