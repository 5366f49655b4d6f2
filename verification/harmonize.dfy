/** Region harmonization (`harmonize_regions`): the consumption table knows
    the south-east and centre-west as one submarket, so the population and
    climate tables have their `Sudeste` and `Centro-Oeste` rows folded into a
    single `Sudeste/Centro-Oeste` region. */
module Harmonize {
  import opened Options
  import opened Tables

  const Southeast: string := "Sudeste"
  const CenterWest: string := "Centro-Oeste"
  const MergedRegion: string := "Sudeste/Centro-Oeste"

  predicate IsSubRegion(region: string) {
    region == Southeast || region == CenterWest
  }

  // ---------------------------------------------------------------------
  // Population
  // ---------------------------------------------------------------------

  /** `df_pop[df_pop['Região'] == region]['População 2024'].iloc[0]`: the
      population of the first row labelled `region`, `None` where `iloc[0]`
      raises because there is no such row. */
  function FirstPopulation(pop: seq<Population>, region: string): (r: Option<nat>)
    ensures r.None? <==> forall i | 0 <= i < |pop| :: pop[i].region != region
    ensures r.Some? ==> exists i | 0 <= i < |pop| ::
      pop[i].region == region && pop[i].population == r.value &&
      forall j | 0 <= j < i :: pop[j].region != region
  {
    if |pop| == 0 then None
    else if pop[0].region == region then Some(pop[0].population)
    else
      var rest := FirstPopulation(pop[1..], region);
      assert forall i | 1 <= i < |pop| :: pop[1..][i - 1] == pop[i];
      if rest.Some? then
        var i :| 0 <= i < |pop[1..]| && pop[1..][i].region == region && pop[1..][i].population == rest.value &&
          forall j | 0 <= j < i :: pop[1..][j].region != region;
        assert pop[i + 1].region == region && pop[i + 1].population == rest.value;
        assert forall j | 0 <= j < i + 1 :: pop[j].region != region by {
          forall j | 0 <= j < i + 1 ensures pop[j].region != region {
            if j > 0 {
              assert pop[j] == pop[1..][j - 1];
            }
          }
        }
        rest
      else
        rest
  }

  /** The rows the population harmonization keeps as they are. */
  predicate KeepPopulation(p: Population) {
    !IsSubRegion(p.region)
  }

  /** The row standing for both sub-regions; its growth rate is missing
      because the new row's dictionary has no growth column. */
  function MergedPopulation(southeast: nat, centerWest: nat): Population {
    Population(MergedRegion, ReportingYear, southeast + centerWest, None)
  }

  /** Population harmonization (data_processing.py, lines 111-120): fails
      when either sub-region has no row; otherwise every sub-region row is
      dropped, the other rows keep their order, and one merged row carrying
      the sum of the two first sub-region populations is appended. */
  function HarmonizePopulation(pop: seq<Population>): (r: Option<seq<Population>>)
    ensures r.None? <==>
      (forall i | 0 <= i < |pop| :: pop[i].region != Southeast) ||
      (forall i | 0 <= i < |pop| :: pop[i].region != CenterWest)
    ensures r.Some? ==>
      |r.value| > 0 &&
      r.value[..|r.value| - 1] == Filter(pop, KeepPopulation) &&
      r.value[|r.value| - 1] ==
        MergedPopulation(FirstPopulation(pop, Southeast).value, FirstPopulation(pop, CenterWest).value)
    ensures r.Some? ==> forall i | 0 <= i < |r.value| :: !IsSubRegion(r.value[i].region)
  {
    match (FirstPopulation(pop, Southeast), FirstPopulation(pop, CenterWest))
    case (Some(se), Some(co)) =>
      var kept := Filter(pop, KeepPopulation);
      MergedRowAppended(kept, MergedPopulation(se, co));
      Some(kept + [MergedPopulation(se, co)])
    case _ => None
  }

  lemma MergedRowAppended(kept: seq<Population>, merged: Population)
    requires forall i | 0 <= i < |kept| :: KeepPopulation(kept[i])
    requires merged.region == MergedRegion
    ensures var r := kept + [merged];
      r[..|r| - 1] == kept && forall i | 0 <= i < |r| :: !IsSubRegion(r[i].region)
  {
    var r := kept + [merged];
    assert r[..|r| - 1] == kept;
    assert forall i | 0 <= i < |kept| :: r[i] == kept[i];
  }

  function PopulationRegions(pop: seq<Population>): set<string> {
    set p | p in pop :: p.region
  }

  /** Sum of the `População 2024` column. */
  function TotalPopulation(pop: seq<Population>): nat {
    if |pop| == 0 then 0
    else TotalPopulation(pop[..|pop| - 1]) + pop[|pop| - 1].population
  }

  /** Sum of the populations of the rows labelled `region`. */
  function RegionPopulation(pop: seq<Population>, region: string): nat {
    if |pop| == 0 then 0
    else RegionPopulation(pop[..|pop| - 1], region) + (if pop[|pop| - 1].region == region then pop[|pop| - 1].population else 0)
  }

  /** Every row is either kept or belongs to one of the two sub-regions. */
  lemma {:induction false} TotalPopulationSplits(pop: seq<Population>)
    ensures TotalPopulation(pop) ==
      TotalPopulation(Filter(pop, KeepPopulation)) + RegionPopulation(pop, Southeast) + RegionPopulation(pop, CenterWest)
    decreases |pop|
  {
    if |pop| > 0 {
      var init, last := pop[..|pop| - 1], pop[|pop| - 1];
      TotalPopulationSplits(init);
      var rest := Filter(init, KeepPopulation);
      if KeepPopulation(last) {
        assert Filter(pop, KeepPopulation) == rest + [last];
        assert (rest + [last])[..|rest + [last]| - 1] == rest;
      } else {
        assert Filter(pop, KeepPopulation) == rest;
      }
    }
  }

  predicate UniqueRegions(pop: seq<Population>) {
    forall i, j | 0 <= i < j < |pop| :: pop[i].region != pop[j].region
  }

  /** With region labels unique, the total for a region is the population
      of its single row. */
  lemma {:induction false} RegionPopulationUnique(pop: seq<Population>, region: string, k: int)
    requires UniqueRegions(pop) && 0 <= k < |pop| && pop[k].region == region
    ensures RegionPopulation(pop, region) == pop[k].population
    decreases |pop|
  {
    var init, last := pop[..|pop| - 1], pop[|pop| - 1];
    if k == |pop| - 1 {
      RegionPopulationAbsent(init, region);
    } else {
      assert init[k] == pop[k];
      assert forall i, j | 0 <= i < j < |init| :: init[i] == pop[i] && init[j] == pop[j];
      RegionPopulationUnique(init, region, k);
      assert last.region != region by {
        assert pop[k].region != pop[|pop| - 1].region;
      }
    }
  }

  lemma {:induction false} RegionPopulationAbsent(pop: seq<Population>, region: string)
    requires forall i | 0 <= i < |pop| :: pop[i].region != region
    ensures RegionPopulation(pop, region) == 0
    decreases |pop|
  {
    if |pop| > 0 {
      var init := pop[..|pop| - 1];
      assert forall i | 0 <= i < |init| :: init[i] == pop[i];
      RegionPopulationAbsent(init, region);
    }
  }

  /** Harmonization moves population between rows but neither creates nor
      loses any, provided each region has a single row. */
  lemma PopulationConserved(pop: seq<Population>)
    requires UniqueRegions(pop)
    requires HarmonizePopulation(pop).Some?
    ensures TotalPopulation(HarmonizePopulation(pop).value) == TotalPopulation(pop)
  {
    var r := HarmonizePopulation(pop).value;
    RegionPopulationIsFirst(pop, Southeast);
    RegionPopulationIsFirst(pop, CenterWest);
    TotalPopulationSplits(pop);
    TotalPopulationLast(r);
  }

  lemma RegionPopulationIsFirst(pop: seq<Population>, region: string)
    requires UniqueRegions(pop) && FirstPopulation(pop, region).Some?
    ensures RegionPopulation(pop, region) == FirstPopulation(pop, region).value
  {
    var i :| 0 <= i < |pop| && pop[i].region == region && pop[i].population == FirstPopulation(pop, region).value &&
      forall j | 0 <= j < i :: pop[j].region != region;
    RegionPopulationUnique(pop, region, i);
  }

  lemma TotalPopulationLast(pop: seq<Population>)
    requires |pop| > 0
    ensures TotalPopulation(pop) == TotalPopulation(pop[..|pop| - 1]) + pop[|pop| - 1].population
  {
  }

  /** The regions of a selection are the selected regions. */
  lemma FilterPopulationRegions(pop: seq<Population>)
    ensures PopulationRegions(Filter(pop, KeepPopulation)) == PopulationRegions(pop) - {Southeast, CenterWest}
  {
    var kept := Filter(pop, KeepPopulation);
    forall x | x in PopulationRegions(pop) - {Southeast, CenterWest} ensures x in PopulationRegions(kept) {
      var p :| p in pop && p.region == x;
      assert multiset(pop)[p] > 0;
      assert multiset(kept)[p] > 0;
    }
    forall x | x in PopulationRegions(kept) ensures x in PopulationRegions(pop) - {Southeast, CenterWest} {
      var p :| p in kept && p.region == x;
      assert multiset(kept)[p] > 0;
      assert multiset(pop)[p] > 0;
    }
  }

  /** The harmonized regions are the original ones with the two sub-regions
      replaced by the merged region. */
  lemma HarmonizedPopulationRegions(pop: seq<Population>)
    requires HarmonizePopulation(pop).Some?
    ensures PopulationRegions(HarmonizePopulation(pop).value) ==
      PopulationRegions(pop) - {Southeast, CenterWest} + {MergedRegion}
  {
    var r := HarmonizePopulation(pop).value;
    FilterPopulationRegions(pop);
    assert r == r[..|r| - 1] + [r[|r| - 1]];
    assert PopulationRegions(r) == PopulationRegions(r[..|r| - 1]) + {MergedRegion} by {
      forall x | x in PopulationRegions(r) ensures x in PopulationRegions(r[..|r| - 1]) + {MergedRegion} {
        var p :| p in r && p.region == x;
      }
    }
  }

  /** Region labels stay unique, unless a row already carried the merged
      label. */
  lemma HarmonizedPopulationUnique(pop: seq<Population>)
    requires HarmonizePopulation(pop).Some?
    requires UniqueRegions(pop) && MergedRegion !in PopulationRegions(pop)
    ensures UniqueRegions(HarmonizePopulation(pop).value)
  {
    var r := HarmonizePopulation(pop).value;
    var kept := r[..|r| - 1];
    FilterKeepsApart(pop, KeepPopulation, SameRegion);
    FilterPopulationRegions(pop);
    forall i, j | 0 <= i < j < |r| ensures r[i].region != r[j].region {
      if j < |r| - 1 {
        assert r[i] == kept[i] && r[j] == kept[j];
        assert !SameRegion(kept[i], kept[j]);
      } else {
        assert r[i] == kept[i] && r[i].region in PopulationRegions(kept);
      }
    }
  }

  predicate SameRegion(a: Population, b: Population) {
    a.region == b.region
  }

  // ---------------------------------------------------------------------
  // Climate
  // ---------------------------------------------------------------------

  /** The two weights, looked up once in the pre-harmonization population
      table and used for every month (data_processing.py, lines 124-127). */
  datatype Weights = Weights(southeast: nat, centerWest: nat)

  function Min(x: real, y: real): real { if x <= y then x else y }
  function Max(x: real, y: real): real { if x <= y then y else x }

  /** `(x * p + y * q) / (p + q)` with NaN propagation: missing when either
      value is missing, and when both weights are 0 (`0 / 0`). */
  function WeightedAverage(x: Option<real>, y: Option<real>, p: nat, q: nat): (r: Option<real>)
    ensures r.Some? <==> x.Some? && y.Some? && p + q > 0
    ensures r.Some? ==> r.value * (p + q) as real == x.value * p as real + y.value * q as real
    ensures r.Some? ==> Min(x.value, y.value) <= r.value <= Max(x.value, y.value)
    ensures r.Some? && x == y ==> r == x
  {
    if x.Some? && y.Some? && p + q > 0 then
      var a, b := x.value, y.value;
      var v := (a * p as real + b * q as real) / (p as real + q as real);
      ConvexCombination(a, b, p as real, q as real, v);
      Some(v)
    else None
  }

  /** A weighted average with non-negative weights lies between its two
      values. */
  lemma ConvexCombination(a: real, b: real, p: real, q: real, v: real)
    requires p >= 0.0 && q >= 0.0 && p + q > 0.0 && v == (a * p + b * q) / (p + q)
    ensures v * (p + q) == a * p + b * q && Min(a, b) <= v <= Max(a, b) && (a == b ==> v == a)
  {
    var w := p + q;
    assert v * w == a * p + b * q;
    var lo, hi := Min(a, b), Max(a, b);
    assert a * p + b * q - lo * w == (a - lo) * p + (b - lo) * q;
    assert hi * w - (a * p + b * q) == (hi - a) * p + (hi - b) * q;
    NonNegativeQuotient(a * p + b * q - lo * w, w);
    NonNegativeQuotient(hi * w - (a * p + b * q), w);
    assert v - lo == (a * p + b * q - lo * w) / w;
    assert hi - v == (hi * w - (a * p + b * q)) / w;
  }

  lemma NonNegativeQuotient(n: real, d: real)
    requires n >= 0.0 && d > 0.0
    ensures n / d >= 0.0
  {
  }

  /** The month labels (`Mes_Num`) of a climate table, in row order; a label
      is missing where the month name was not recognised. */
  function Labels(rows: seq<Climate>): (r: seq<Option<int>>)
    ensures |r| == |rows| && forall i | 0 <= i < |rows| :: r[i] == rows[i].month
  {
    seq(|rows|, i requires 0 <= i < |rows| => rows[i].month)
  }

  function Elems<T>(s: seq<T>): set<T> {
    set x | x in s
  }

  /** Index order on month labels: numbers ascending, the missing label
      (NaN) last. */
  predicate LabelLt(a: Option<int>, b: Option<int>) {
    a.Some? && (b.None? || a.value < b.value)
  }

  predicate LabelsSorted(s: seq<Option<int>>) {
    forall i, j | 0 <= i < j < |s| :: LabelLt(s[i], s[j])
  }

  /** Adds a label to a sorted label list that lacks it. */
  function InsertLabel(s: seq<Option<int>>, x: Option<int>): (r: seq<Option<int>>)
    requires LabelsSorted(s)
    ensures LabelsSorted(r)
    ensures Elems(r) == Elems(s) + {x}
  {
    if |s| == 0 then [x]
    else if s[0] == x then
      assert s[0] in Elems(s);
      s
    else if LabelLt(x, s[0]) then
      InsertFirst(s, x);
      [x] + s
    else
      var rest := InsertLabel(s[1..], x);
      InsertAfterFirst(s, x, rest);
      [s[0]] + rest
  }

  lemma InsertFirst(s: seq<Option<int>>, x: Option<int>)
    requires LabelsSorted(s) && |s| > 0 && LabelLt(x, s[0])
    ensures LabelsSorted([x] + s) && Elems([x] + s) == Elems(s) + {x}
  {
    var r := [x] + s;
    assert forall j | 0 <= j < |s| :: LabelLt(x, s[j]);
    assert forall j | 0 < j < |r| :: r[j] == s[j - 1];
  }

  lemma InsertAfterFirst(s: seq<Option<int>>, x: Option<int>, rest: seq<Option<int>>)
    requires LabelsSorted(s) && |s| > 0 && s[0] != x && !LabelLt(x, s[0])
    requires LabelsSorted(rest) && Elems(rest) == Elems(s[1..]) + {x}
    ensures LabelsSorted([s[0]] + rest) && Elems([s[0]] + rest) == Elems(s) + {x}
  {
    assert Elems(s) == {s[0]} + Elems(s[1..]) by {
      assert s == [s[0]] + s[1..];
    }
    assert forall j | 0 <= j < |rest| :: LabelLt(s[0], rest[j]) by {
      forall j | 0 <= j < |rest| ensures LabelLt(s[0], rest[j]) {
        assert rest[j] in Elems(rest);
        if rest[j] != x {
          var k :| 0 <= k < |s[1..]| && s[1..][k] == rest[j];
          assert s[1..][k] == s[k + 1];
        }
      }
    }
    var r := [s[0]] + rest;
    assert forall j | 0 < j < |r| :: r[j] == rest[j - 1];
    assert Elems(r) == {s[0]} + Elems(rest);
  }

  /** The sorted union of two month indexes, as `Index.union` builds it. */
  function SortedUnion(s: seq<Option<int>>): (r: seq<Option<int>>)
    ensures LabelsSorted(r)
    ensures Elems(r) == Elems(s)
  {
    if |s| == 0 then []
    else
      assert s == s[..|s| - 1] + [s[|s| - 1]];
      InsertLabel(SortedUnion(s[..|s| - 1]), s[|s| - 1])
  }

  /** Label-based lookup: the first row carrying month `key`. */
  function RowFor(rows: seq<Climate>, key: Option<int>): (r: Option<Climate>)
    ensures r.None? <==> key !in Elems(Labels(rows))
    ensures r.Some? ==> exists i | 0 <= i < |rows| ::
      rows[i] == r.value && rows[i].month == key && forall j | 0 <= j < i :: rows[j].month != key
  {
    if |rows| == 0 then None
    else if rows[0].month == key then Some(rows[0])
    else
      var rest := RowFor(rows[1..], key);
      assert Elems(Labels(rows)) == {rows[0].month} + Elems(Labels(rows[1..])) by {
        assert Labels(rows) == [rows[0].month] + Labels(rows[1..]);
      }
      if rest.Some? then
        var i :| 0 <= i < |rows[1..]| && rows[1..][i] == rest.value && rows[1..][i].month == key &&
          forall j | 0 <= j < i :: rows[1..][j].month != key;
        assert rows[i + 1] == rest.value;
        assert forall j | 0 <= j < i + 1 :: rows[j].month != key by {
          forall j | 0 <= j < i + 1 ensures rows[j].month != key {
            if j > 0 {
              assert rows[j] == rows[1..][j - 1];
            }
          }
        }
        rest
      else
        rest
  }

  function Temperature(c: Option<Climate>): Option<real> {
    if c.Some? then c.value.temperature else None
  }

  function Humidity(c: Option<Climate>): Option<real> {
    if c.Some? then c.value.humidity else None
  }

  /** One row of `df_clima_seco`: the weighted averages of the aligned
      sub-region rows, missing on the side that has no row. */
  function MergedRow(month: Option<int>, se: Option<Climate>, co: Option<Climate>, w: Weights): (c: Climate)
    ensures c.region == MergedRegion && c.year == ReportingYear && c.month == month
  {
    Climate(MergedRegion, ReportingYear, month,
      WeightedAverage(Temperature(se), Temperature(co), w.southeast, w.centerWest),
      WeightedAverage(Humidity(se), Humidity(co), w.southeast, w.centerWest))
  }

  /** The merged block (data_processing.py, lines 129-138). The two
      sub-region series are aligned on their month index: when the two
      indexes are equal they are combined position by position; when one
      side has no rows the other side's index is kept as it is; otherwise
      the block runs over the sorted union of their labels, a label one side
      lacks giving missing values. */
  function MergedBlock(se: seq<Climate>, co: seq<Climate>, w: Weights): (r: seq<Climate>)
    ensures forall i | 0 <= i < |r| :: r[i].region == MergedRegion && r[i].year == ReportingYear
    ensures Elems(Labels(r)) == Elems(Labels(se)) + Elems(Labels(co))
    ensures |se| == 0 || |co| == 0 ==> Labels(r) == Labels(se) + Labels(co)
    ensures (|se| == 0) != (|co| == 0) ==>
      forall i | 0 <= i < |r| :: r[i].temperature.None? && r[i].humidity.None?
  {
    if Labels(se) == Labels(co) then AlignedBlock(se, co, w)
    else if |se| == 0 || |co| == 0 then OneSidedBlock(se, co, w)
    else UnionBlock(se, co, w)
  }

  /** Equal indexes: the rows are paired position by position. */
  function AlignedBlock(se: seq<Climate>, co: seq<Climate>, w: Weights): (r: seq<Climate>)
    requires Labels(se) == Labels(co)
    ensures |r| == |se| && Labels(r) == Labels(se)
    ensures forall i | 0 <= i < |r| :: r[i] == MergedRow(se[i].month, Some(se[i]), Some(co[i]), w)
  {
    seq(|se|, i requires 0 <= i < |se| => MergedRow(se[i].month, Some(se[i]), Some(co[i]), w))
  }

  /** One side without rows: `Index.join` (pandas 2.0 and 2.1) returns the
      other index unchanged, so the block keeps that side's months in file
      order, repeated and missing labels included, and every weighted value
      is missing. */
  function OneSidedBlock(se: seq<Climate>, co: seq<Climate>, w: Weights): (r: seq<Climate>)
    requires |se| == 0 || |co| == 0
    ensures Labels(r) == Labels(se) + Labels(co)
    ensures forall i | 0 <= i < |r| :: r[i].region == MergedRegion && r[i].year == ReportingYear
    ensures forall i | 0 <= i < |r| :: r[i].temperature.None? && r[i].humidity.None?
  {
    var other := se + co;
    var r := seq(|other|, i requires 0 <= i < |other| =>
      MergedRow(other[i].month, if |se| == 0 then None else Some(other[i]), if |co| == 0 then None else Some(other[i]), w));
    assert Labels(r) == Labels(other);
    assert Labels(other) == Labels(se) + Labels(co);
    r
  }

  /** Different indexes: one row per label of the sorted union. */
  function UnionBlock(se: seq<Climate>, co: seq<Climate>, w: Weights): (r: seq<Climate>)
    ensures var u := SortedUnion(Labels(se) + Labels(co));
      |r| == |u| && Labels(r) == u &&
      forall i | 0 <= i < |r| :: r[i] == MergedRow(u[i], RowFor(se, u[i]), RowFor(co, u[i]), w)
    ensures Elems(Labels(r)) == Elems(Labels(se)) + Elems(Labels(co))
  {
    var u := SortedUnion(Labels(se) + Labels(co));
    assert Elems(Labels(se) + Labels(co)) == Elems(Labels(se)) + Elems(Labels(co));
    var r := seq(|u|, i requires 0 <= i < |u| => MergedRow(u[i], RowFor(se, u[i]), RowFor(co, u[i]), w));
    assert Labels(r) == u;
    r
  }

  predicate KeepClimate(c: Climate) {
    !IsSubRegion(c.region)
  }

  predicate InSoutheast(c: Climate) {
    c.region == Southeast
  }

  predicate InCenterWest(c: Climate) {
    c.region == CenterWest
  }

  /** Climate harmonization (data_processing.py, lines 129-141): the rows
      of the other regions, untouched and in order, followed by the merged
      block built from the two sub-regions' rows. */
  function HarmonizeClimate(climate: seq<Climate>, w: Weights): (r: seq<Climate>)
    ensures forall i | 0 <= i < |r| :: !IsSubRegion(r[i].region)
    ensures forall c: Climate | c.region != MergedRegion ::
      multiset(r)[c] == if IsSubRegion(c.region) then 0 else multiset(climate)[c]
  {
    var kept := Filter(climate, KeepClimate);
    var block := MergedBlock(Filter(climate, InSoutheast), Filter(climate, InCenterWest), w);
    assert multiset(kept + block) == multiset(kept) + multiset(block);
    forall c: Climate | c.region != MergedRegion
      ensures multiset(kept + block)[c] == if IsSubRegion(c.region) then 0 else multiset(climate)[c]
    {
      assert c !in block;
      assert multiset(block)[c] == 0;
      assert multiset(kept)[c] == if KeepClimate(c) then multiset(climate)[c] else 0;
    }
    kept + block
  }

  /** The two sub-regions' rows, as selected by `df_clima['Região'] == ...`. */
  function SoutheastRows(climate: seq<Climate>): seq<Climate> {
    Filter(climate, InSoutheast)
  }

  function CenterWestRows(climate: seq<Climate>): seq<Climate> {
    Filter(climate, InCenterWest)
  }

  predicate DistinctMonths(rows: seq<Climate>) {
    forall i, j | 0 <= i < j < |rows| :: rows[i].month != rows[j].month
  }

  /** The join key of the climate table: no two rows share a region and a
      month. */
  predicate UniqueClimateKeys(rows: seq<Climate>) {
    forall i, j | 0 <= i < j < |rows| :: !SameClimateKey(rows[i], rows[j])
  }

  predicate SameClimateKey(a: Climate, b: Climate) {
    a.region == b.region && a.month == b.month
  }

  function ClimateRegions(climate: seq<Climate>): set<string> {
    set c | c in climate :: c.region
  }

  /** With distinct months, the label lookup finds the row itself. */
  lemma RowForDistinct(rows: seq<Climate>, i: int)
    requires DistinctMonths(rows) && 0 <= i < |rows|
    ensures RowFor(rows, rows[i].month) == Some(rows[i])
  {
    assert rows[i].month in Elems(Labels(rows)) by {
      assert Labels(rows)[i] == rows[i].month;
    }
  }

  /** Reference reading of the merged block: whichever way the two indexes
      are aligned, each month occurs once and its row combines the
      sub-region rows carrying that month. */
  lemma MergedBlockAgrees(se: seq<Climate>, co: seq<Climate>, w: Weights)
    requires DistinctMonths(se) && DistinctMonths(co)
    ensures var r := MergedBlock(se, co, w);
      DistinctMonths(r) &&
      forall i | 0 <= i < |r| :: r[i] == MergedRow(r[i].month, RowFor(se, r[i].month), RowFor(co, r[i].month), w)
  {
    if Labels(se) == Labels(co) {
      AlignedBlockAgrees(se, co, w);
    } else if |se| == 0 || |co| == 0 {
      OneSidedBlockAgrees(se, co, w);
    } else {
      UnionBlockAgrees(se, co, w);
    }
  }

  lemma OneSidedBlockAgrees(se: seq<Climate>, co: seq<Climate>, w: Weights)
    requires DistinctMonths(se) && DistinctMonths(co) && (|se| == 0 || |co| == 0)
    ensures var r := OneSidedBlock(se, co, w);
      DistinctMonths(r) &&
      forall i | 0 <= i < |r| :: r[i] == MergedRow(r[i].month, RowFor(se, r[i].month), RowFor(co, r[i].month), w)
  {
    OneSidedMonthsDistinct(se, co, w);
    var r := OneSidedBlock(se, co, w);
    var other := se + co;
    forall i | 0 <= i < |r| ensures r[i] == MergedRow(r[i].month, RowFor(se, r[i].month), RowFor(co, r[i].month), w) {
      var m := other[i].month;
      assert r[i] == MergedRow(m, if |se| == 0 then None else Some(other[i]), if |co| == 0 then None else Some(other[i]), w);
      if |se| == 0 {
        assert other[i] == co[i];
        RowForDistinct(co, i);
        assert RowFor(se, m) == None;
      } else {
        assert other[i] == se[i];
        RowForDistinct(se, i);
        assert RowFor(co, m) == None;
      }
    }
  }

  lemma OneSidedMonthsDistinct(se: seq<Climate>, co: seq<Climate>, w: Weights)
    requires DistinctMonths(se) && DistinctMonths(co) && (|se| == 0 || |co| == 0)
    ensures DistinctMonths(OneSidedBlock(se, co, w))
  {
    var r := OneSidedBlock(se, co, w);
    var l := Labels(se) + Labels(co);
    assert Labels(r) == l;
    forall i, j | 0 <= i < j < |r| ensures r[i].month != r[j].month {
      assert r[i].month == Labels(r)[i] == l[i] && r[j].month == Labels(r)[j] == l[j];
      if |se| == 0 {
        assert l[i] == co[i].month && l[j] == co[j].month;
      } else {
        assert l[i] == se[i].month && l[j] == se[j].month;
      }
    }
  }

  lemma AlignedBlockAgrees(se: seq<Climate>, co: seq<Climate>, w: Weights)
    requires DistinctMonths(se) && DistinctMonths(co) && Labels(se) == Labels(co)
    ensures var r := AlignedBlock(se, co, w);
      DistinctMonths(r) &&
      forall i | 0 <= i < |r| :: r[i] == MergedRow(r[i].month, RowFor(se, r[i].month), RowFor(co, r[i].month), w)
  {
    var r := AlignedBlock(se, co, w);
    forall i | 0 <= i < |r| ensures r[i] == MergedRow(r[i].month, RowFor(se, r[i].month), RowFor(co, r[i].month), w) {
      assert co[i].month == Labels(co)[i] == Labels(se)[i] == se[i].month;
      RowForDistinct(se, i);
      RowForDistinct(co, i);
    }
    assert forall i | 0 <= i < |r| :: r[i].month == Labels(r)[i] == Labels(se)[i] == se[i].month;
  }

  lemma UnionBlockAgrees(se: seq<Climate>, co: seq<Climate>, w: Weights)
    ensures var r := UnionBlock(se, co, w);
      DistinctMonths(r) &&
      forall i | 0 <= i < |r| :: r[i] == MergedRow(r[i].month, RowFor(se, r[i].month), RowFor(co, r[i].month), w)
  {
    var r := UnionBlock(se, co, w);
    var u := SortedUnion(Labels(se) + Labels(co));
    assert forall i | 0 <= i < |r| :: r[i].month == Labels(r)[i] == u[i];
    assert forall i, j | 0 <= i < j < |u| :: LabelLt(u[i], u[j]);
  }

  /** The harmonized climate table keeps the join key unique, provided the
      cleaned one does and no row already carries the merged label. */
  lemma HarmonizedClimateUnique(climate: seq<Climate>, w: Weights)
    requires UniqueClimateKeys(climate) && MergedRegion !in ClimateRegions(climate)
    ensures UniqueClimateKeys(HarmonizeClimate(climate, w))
  {
    var se, co := SoutheastRows(climate), CenterWestRows(climate);
    var kept := Filter(climate, KeepClimate);
    var block := MergedBlock(se, co, w);
    var r := HarmonizeClimate(climate, w);
    assert r == kept + block;
    FilterKeepsApart(climate, KeepClimate, SameClimateKey);
    SubRegionMonthsDistinct(climate, InSoutheast, Southeast);
    SubRegionMonthsDistinct(climate, InCenterWest, CenterWest);
    MergedBlockAgrees(se, co, w);
    forall i | 0 <= i < |kept| ensures kept[i].region != MergedRegion {
      assert multiset(kept)[kept[i]] > 0;
      assert kept[i] in climate;
      assert kept[i].region in ClimateRegions(climate);
    }
    ConcatKeysApart(kept, block);
  }

  /** Two key-unique tables whose regions differ stay key-unique when
      stacked. */
  lemma ConcatKeysApart(a: seq<Climate>, b: seq<Climate>)
    requires UniqueClimateKeys(a) && DistinctMonths(b)
    requires forall i | 0 <= i < |b| :: b[i].region == MergedRegion
    requires forall i | 0 <= i < |a| :: a[i].region != MergedRegion
    ensures UniqueClimateKeys(a + b)
  {
    var r := a + b;
    forall i, j | 0 <= i < j < |r| ensures !SameClimateKey(r[i], r[j]) {
      if j < |a| {
        assert r[i] == a[i] && r[j] == a[j];
      } else if i < |a| {
        assert r[i] == a[i] && r[j] == b[j - |a|];
      } else {
        assert r[i] == b[i - |a|] && r[j] == b[j - |a|];
      }
    }
  }

  /** Rows selected for one region have pairwise distinct months when the
      region and month pair is a key. */
  lemma SubRegionMonthsDistinct(climate: seq<Climate>, keep: Climate -> bool, region: string)
    requires UniqueClimateKeys(climate)
    requires forall c :: keep(c) ==> c.region == region
    ensures DistinctMonths(Filter(climate, keep))
  {
    FilterKeepsApart(climate, keep, SameClimateKey);
  }

  /** Every month a sub-region row carries gets a merged row, and every
      merged row is the population-weighted combination of the sub-region
      rows for its month (the first such row on each side). */
  lemma MergedClimateRows(climate: seq<Climate>, w: Weights)
    requires UniqueClimateKeys(climate)
    ensures var r := HarmonizeClimate(climate, w);
      (forall j | 0 <= j < |climate| && IsSubRegion(climate[j].region) ::
        exists i | 0 <= i < |r| :: r[i].region == MergedRegion && r[i].month == climate[j].month) &&
      (forall i | |Filter(climate, KeepClimate)| <= i < |r| ::
        r[i] == MergedRow(r[i].month, RowFor(SoutheastRows(climate), r[i].month), RowFor(CenterWestRows(climate), r[i].month), w))
  {
    var se, co := SoutheastRows(climate), CenterWestRows(climate);
    var kept := Filter(climate, KeepClimate);
    var block := MergedBlock(se, co, w);
    var r := HarmonizeClimate(climate, w);
    ClimateSplit(climate, w);
    SubRegionMonthsDistinct(climate, InSoutheast, Southeast);
    SubRegionMonthsDistinct(climate, InCenterWest, CenterWest);
    MergedBlockAgrees(se, co, w);
    BlockAtTail(kept, block, r, se, co, w);
    forall j | 0 <= j < |climate| && IsSubRegion(climate[j].region)
      ensures exists i | 0 <= i < |r| :: r[i].region == MergedRegion && r[i].month == climate[j].month
    {
      SubRegionMonthInBlock(climate, w, j);
      MonthInTail(kept, block, r, climate[j].month);
    }
  }

  /** The harmonized climate table is the kept rows followed by the merged
      block. */
  lemma ClimateSplit(climate: seq<Climate>, w: Weights)
    ensures HarmonizeClimate(climate, w) ==
      Filter(climate, KeepClimate) + MergedBlock(SoutheastRows(climate), CenterWestRows(climate), w)
  {
  }

  lemma BlockAtTail(kept: seq<Climate>, block: seq<Climate>, r: seq<Climate>, se: seq<Climate>, co: seq<Climate>, w: Weights)
    requires r == kept + block
    requires forall i | 0 <= i < |block| ::
      block[i] == MergedRow(block[i].month, RowFor(se, block[i].month), RowFor(co, block[i].month), w)
    ensures forall i | |kept| <= i < |r| :: r[i] == MergedRow(r[i].month, RowFor(se, r[i].month), RowFor(co, r[i].month), w)
  {
    forall i | |kept| <= i < |r|
      ensures r[i] == MergedRow(r[i].month, RowFor(se, r[i].month), RowFor(co, r[i].month), w)
    {
      assert r[i] == block[i - |kept|];
    }
  }

  lemma MonthInTail(kept: seq<Climate>, block: seq<Climate>, r: seq<Climate>, m: Option<int>)
    requires r == kept + block
    requires forall i | 0 <= i < |block| :: block[i].region == MergedRegion
    requires m in Elems(Labels(block))
    ensures exists i | 0 <= i < |r| :: r[i].region == MergedRegion && r[i].month == m
  {
    var b :| 0 <= b < |block| && Labels(block)[b] == m;
    assert r[|kept| + b] == block[b];
  }

  lemma SubRegionMonthInBlock(climate: seq<Climate>, w: Weights, j: int)
    requires 0 <= j < |climate| && IsSubRegion(climate[j].region)
    ensures climate[j].month in Elems(Labels(MergedBlock(SoutheastRows(climate), CenterWestRows(climate), w)))
  {
    var c := climate[j];
    assert multiset(climate)[c] > 0;
    if c.region == Southeast {
      var se := SoutheastRows(climate);
      assert multiset(se)[c] > 0;
      var k :| 0 <= k < |se| && se[k] == c;
      assert Labels(se)[k] == c.month;
    } else {
      var co := CenterWestRows(climate);
      assert multiset(co)[c] > 0;
      var k :| 0 <= k < |co| && co[k] == c;
      assert Labels(co)[k] == c.month;
    }
  }

  /** Regions of the harmonized climate table: the sub-regions replaced by
      the merged region, which appears as soon as a sub-region has a row. */
  lemma HarmonizedClimateRegions(climate: seq<Climate>, w: Weights)
    requires exists j | 0 <= j < |climate| :: IsSubRegion(climate[j].region)
    ensures ClimateRegions(HarmonizeClimate(climate, w)) ==
      ClimateRegions(climate) - {Southeast, CenterWest} + {MergedRegion}
  {
    var se, co := SoutheastRows(climate), CenterWestRows(climate);
    var kept := Filter(climate, KeepClimate);
    var block := MergedBlock(se, co, w);
    ClimateSplit(climate, w);
    var j :| 0 <= j < |climate| && IsSubRegion(climate[j].region);
    SubRegionMonthInBlock(climate, w, j);
    MergedBlockRegions(block, climate[j].month);
    FilterClimateRegions(climate);
    ClimateRegionsConcat(kept, block);
  }

  /** A merged block with a row has the merged region as its only region. */
  lemma MergedBlockRegions(block: seq<Climate>, m: Option<int>)
    requires forall i | 0 <= i < |block| :: block[i].region == MergedRegion
    requires m in Elems(Labels(block))
    ensures ClimateRegions(block) == {MergedRegion}
  {
    var b :| 0 <= b < |block| && Labels(block)[b] == m;
    assert block[b] in block;
  }

  lemma FilterClimateRegions(climate: seq<Climate>)
    ensures ClimateRegions(Filter(climate, KeepClimate)) == ClimateRegions(climate) - {Southeast, CenterWest}
  {
    var kept := Filter(climate, KeepClimate);
    forall x | x in ClimateRegions(climate) - {Southeast, CenterWest} ensures x in ClimateRegions(kept) {
      var d :| d in climate && d.region == x;
      assert multiset(climate)[d] > 0;
      assert multiset(kept)[d] > 0;
    }
    forall x | x in ClimateRegions(kept) ensures x in ClimateRegions(climate) - {Southeast, CenterWest} {
      var d :| d in kept && d.region == x;
      assert multiset(kept)[d] > 0;
      assert multiset(climate)[d] > 0;
    }
  }

  lemma ClimateRegionsConcat(a: seq<Climate>, b: seq<Climate>)
    ensures ClimateRegions(a + b) == ClimateRegions(a) + ClimateRegions(b)
  {
    forall x | x in ClimateRegions(a + b) ensures x in ClimateRegions(a) + ClimateRegions(b) {
      var d :| d in a + b && d.region == x;
    }
  }

  // ---------------------------------------------------------------------
  // The stage
  // ---------------------------------------------------------------------

  datatype Harmonized = Harmonized(population: seq<Population>, climate: seq<Climate>)

  /** The weights: the first population rows of the two sub-regions in the
      table as it was before harmonization. */
  function PreHarmonizationWeights(pop: seq<Population>): (r: Weights)
    requires FirstPopulation(pop, Southeast).Some? && FirstPopulation(pop, CenterWest).Some?
    ensures exists i | 0 <= i < |pop| ::
      pop[i].region == Southeast && pop[i].population == r.southeast &&
      forall j | 0 <= j < i :: pop[j].region != Southeast
    ensures exists i | 0 <= i < |pop| ::
      pop[i].region == CenterWest && pop[i].population == r.centerWest &&
      forall j | 0 <= j < i :: pop[j].region != CenterWest
  {
    Weights(FirstPopulation(pop, Southeast).value, FirstPopulation(pop, CenterWest).value)
  }

  /** `harmonize_regions`: fails exactly when a sub-region has no population
      row; the climate block is weighted with the populations read from the
      table before it was harmonized. */
  function HarmonizeRegions(pop: seq<Population>, climate: seq<Climate>): (r: Option<Harmonized>)
    ensures r.None? <==>
      (forall i | 0 <= i < |pop| :: pop[i].region != Southeast) ||
      (forall i | 0 <= i < |pop| :: pop[i].region != CenterWest)
    ensures r.Some? ==>
      r.value.population == HarmonizePopulation(pop).value &&
      r.value.climate == HarmonizeClimate(climate, PreHarmonizationWeights(pop))
  {
    match HarmonizePopulation(pop)
    case None => None
    case Some(harmonized) => Some(Harmonized(harmonized, HarmonizeClimate(climate, PreHarmonizationWeights(pop))))
  }

  /** Region sets match after harmonization, given that they matched apart
      from the two sub-regions before it and the climate table has a row for
      at least one sub-region. Nothing in the pipeline checks this. */
  lemma HarmonizedRegionsMatch(pop: seq<Population>, climate: seq<Climate>)
    requires HarmonizeRegions(pop, climate).Some?
    requires PopulationRegions(pop) - {Southeast, CenterWest} == ClimateRegions(climate) - {Southeast, CenterWest}
    requires exists j | 0 <= j < |climate| :: IsSubRegion(climate[j].region)
    ensures var h := HarmonizeRegions(pop, climate).value;
      PopulationRegions(h.population) == ClimateRegions(h.climate)
  {
    HarmonizedPopulationRegions(pop);
    HarmonizedClimateRegions(climate, PreHarmonizationWeights(pop));
  }

  /** A worked case: 30 °C / 80 % for 100 people and 24 °C / 50 % for 50
      people merge to 28 °C / 70 %; the other region is left as it was. */
  lemma WeightedClimateExample()
    ensures HarmonizeClimate([
        Climate(Southeast, 2024, Some(1), Some(30.0), Some(80.0)),
        Climate("Norte", 2024, Some(1), Some(27.0), Some(85.0)),
        Climate(CenterWest, 2024, Some(1), Some(24.0), Some(50.0))],
        Weights(100, 50)) ==
      [Climate("Norte", 2024, Some(1), Some(27.0), Some(85.0)),
       Climate(MergedRegion, 2024, Some(1), Some(28.0), Some(70.0))]
  {
    var se := Climate(Southeast, 2024, Some(1), Some(30.0), Some(80.0));
    var no := Climate("Norte", 2024, Some(1), Some(27.0), Some(85.0));
    var co := Climate(CenterWest, 2024, Some(1), Some(24.0), Some(50.0));
    ExampleSelections(se, no, co);
    ExampleBlock(se, co);
  }

  lemma ExampleSelections(se: Climate, no: Climate, co: Climate)
    requires se.region == Southeast && no.region == "Norte" && co.region == CenterWest
    ensures Filter([se, no, co], KeepClimate) == [no]
    ensures SoutheastRows([se, no, co]) == [se] && CenterWestRows([se, no, co]) == [co]
  {
    assert "Norte" != Southeast && "Norte" != CenterWest;
    assert [se, no, co][..2] == [se, no] && [se, no][..1] == [se] && [se][..0] == [];
    assert Filter([se, no], InCenterWest) == [];
    assert Filter([se, no], InSoutheast) == [se];
  }

  lemma ExampleBlock(se: Climate, co: Climate)
    requires se == Climate(Southeast, 2024, Some(1), Some(30.0), Some(80.0))
    requires co == Climate(CenterWest, 2024, Some(1), Some(24.0), Some(50.0))
    ensures MergedBlock([se], [co], Weights(100, 50)) == [Climate(MergedRegion, 2024, Some(1), Some(28.0), Some(70.0))]
  {
    assert Labels([se]) == Labels([co]);
    assert WeightedAverage(Some(30.0), Some(24.0), 100, 50) == Some(28.0);
    assert WeightedAverage(Some(80.0), Some(50.0), 100, 50) == Some(70.0);
  }
}
