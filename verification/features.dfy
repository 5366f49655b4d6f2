/** Feature building (`create_features`): the daily consumption table is
    left-joined with the monthly climate and the yearly population, and the
    calendar and holiday columns are derived from the date. */
module Features {
  import opened Options
  import opened Calendar
  import opened Tables
  import opened Cleaning

  // ---------------------------------------------------------------------
  // Left join
  // ---------------------------------------------------------------------

  /** The right rows matching `l`, in their order, each as often as it
      occurs: the boolean-mask selection of `right` by `l`'s key. */
  function Matches<L, R(==,!new)>(l: L, right: seq<R>, matches: (L, R) -> bool): (m: seq<R>)
    ensures |m| <= |right|
    ensures m == Filter(right, (x: R) => matches(l, x))
    ensures forall x :: multiset(m)[x] == if matches(l, x) then multiset(right)[x] else 0
    ensures forall k | 0 <= k < |m| :: matches(l, m[k]) && exists j | 0 <= j < |right| :: right[j] == m[k]
    ensures (exists j | 0 <= j < |right| :: matches(l, right[j])) <==> |m| > 0
  {
    var m := Filter(right, (x: R) => matches(l, x));
    FilterFrom(right, (x: R) => matches(l, x));
    m
  }

  /** Matching distributes over concatenated right-hand tables, so the
      matches keep the right-hand order. */
  lemma MatchesAppend<L, R(!new)>(l: L, a: seq<R>, b: seq<R>, matches: (L, R) -> bool)
    ensures Matches(l, a + b, matches) == Matches(l, a, matches) + Matches(l, b, matches)
  {
    FilterAppend(a, b, (x: R) => matches(l, x));
  }

  /** `l` paired with each of `m`, in order. */
  function Tagged<L(==,!new), R(==,!new)>(l: L, m: seq<R>): (rs: seq<(L, Option<R>)>)
    ensures |rs| == |m| && forall k | 0 <= k < |m| :: rs[k] == (l, Some(m[k]))
    ensures forall p :: multiset(rs)[p] == if p.0 == l && p.1.Some? then multiset(m)[p.1.value] else 0
  {
    if |m| == 0 then []
    else
      var init, last := m[..|m| - 1], m[|m| - 1];
      assert m == init + [last];
      Tagged(l, init) + [(l, Some(last))]
  }

  /** The output rows of one left row: one per match, in right-hand order,
      or a single row with the right-hand columns missing when nothing
      matches. */
  function JoinRow<L(==,!new), R(==,!new)>(l: L, right: seq<R>, matches: (L, R) -> bool): (rs: seq<(L, Option<R>)>)
    ensures |rs| >= 1 && (|rs| == 1 <==> |Matches(l, right, matches)| <= 1)
    ensures forall k | 0 <= k < |rs| :: rs[k].0 == l
    ensures MatchedRight(rs, right, matches)
    ensures |Matches(l, right, matches)| == 0 ==> rs == [(l, None)]
    ensures |Matches(l, right, matches)| > 0 ==>
      |rs| == |Matches(l, right, matches)| &&
      forall k | 0 <= k < |rs| :: rs[k] == (l, Some(Matches(l, right, matches)[k]))
  {
    var m := Matches(l, right, matches);
    if |m| == 0 then [(l, None)]
    else Tagged(l, m)
  }

  /** The left rows an output carries. */
  ghost function LeftsOf<L, R>(out: seq<(L, Option<R>)>): set<L> {
    set k | 0 <= k < |out| :: out[k].0
  }

  ghost function Rows<T>(s: seq<T>): set<T> {
    set i | 0 <= i < |s| :: s[i]
  }

  /** A right-hand part is a matching right row; a missing one means that
      no right row matches. */
  ghost predicate MatchedRight<L, R>(out: seq<(L, Option<R>)>, right: seq<R>, matches: (L, R) -> bool) {
    (forall k | 0 <= k < |out| && out[k].1.Some? ::
      matches(out[k].0, out[k].1.value) && exists j | 0 <= j < |right| :: right[j] == out[k].1.value) &&
    (forall k | 0 <= k < |out| && out[k].1.None? :: forall j | 0 <= j < |right| :: !matches(out[k].0, right[j]))
  }

  /** `pd.merge(left, right, how='left')`: every left row, in order, paired
      with each matching right row, or with nothing when none matches. The
      output carries exactly the left rows: none is lost, none invented.
      Each matching (left, right) pair gives one output row per pair of
      occurrences, and a left row with no match gives one row per
      occurrence. */
  function LeftJoin<L(==,!new), R(==,!new)>(left: seq<L>, right: seq<R>, matches: (L, R) -> bool): (out: seq<(L, Option<R>)>)
    ensures |out| >= |left|
    ensures LeftsOf(out) == Rows(left)
    ensures MatchedRight(out, right, matches)
    ensures PairCounts(out, left, right, matches)
  {
    if |left| == 0 then []
    else
      var init, last := left[..|left| - 1], left[|left| - 1];
      var done := LeftJoin(init, right, matches);
      var rs := JoinRow(last, right, matches);
      JoinAppend(left, done, rs);
      MatchedAppend(done, rs, right, matches);
      JoinCounts(left, right, matches, done, rs);
      done + rs
  }

  /** `out` pairs each `l` with each matching `r` once per occurrence of
      `l` in `left` and of `r` in `right`, and carries an unmatched `l`
      alone once per occurrence. */
  ghost predicate PairCounts<L(!new), R(!new)>(out: seq<(L, Option<R>)>, left: seq<L>, right: seq<R>, matches: (L, R) -> bool) {
    && (forall l, r {:trigger multiset(out)[(l, Some(r))]} ::
          multiset(out)[(l, Some(r))] == (if matches(l, r) then Copies(multiset(left)[l], multiset(right)[r]) else 0))
    && (forall l {:trigger multiset(out)[(l, None)]} ::
          multiset(out)[(l, None)] == (if |Matches(l, right, matches)| == 0 then multiset(left)[l] else 0))
  }

  /** The pair counts of a join grow by those of the last left row's
      output rows. */
  lemma JoinCounts<L(!new), R(!new)>(left: seq<L>, right: seq<R>, matches: (L, R) -> bool,
                                     done: seq<(L, Option<R>)>, rs: seq<(L, Option<R>)>)
    requires |left| > 0 && rs == JoinRow(left[|left| - 1], right, matches)
    requires PairCounts(done, left[..|left| - 1], right, matches)
    ensures PairCounts(done + rs, left, right, matches)
  {
    var init, last := left[..|left| - 1], left[|left| - 1];
    SplitLast(left);
    JoinPairCounts(left, init, last, right, matches, done, rs);
    JoinAloneCounts(left, init, last, right, matches, done, rs);
  }

  lemma SplitLast<T>(s: seq<T>)
    requires |s| > 0
    ensures s == s[..|s| - 1] + [s[|s| - 1]]
  {
  }

  /** The matched half of `JoinCounts`. */
  lemma JoinPairCounts<L(!new), R(!new)>(left: seq<L>, init: seq<L>, last: L, right: seq<R>, matches: (L, R) -> bool,
                                         done: seq<(L, Option<R>)>, rs: seq<(L, Option<R>)>)
    requires left == init + [last] && rs == JoinRow(last, right, matches)
    requires forall l, r {:trigger multiset(done)[(l, Some(r))]} ::
      multiset(done)[(l, Some(r))] == (if matches(l, r) then Copies(multiset(init)[l], multiset(right)[r]) else 0)
    ensures forall l, r {:trigger multiset(done + rs)[(l, Some(r))]} ::
      multiset(done + rs)[(l, Some(r))] == (if matches(l, r) then Copies(multiset(left)[l], multiset(right)[r]) else 0)
  {
    forall l, r ensures multiset(done + rs)[(l, Some(r))] ==
                        (if matches(l, r) then Copies(multiset(left)[l], multiset(right)[r]) else 0) {
      JoinCountMatched(last, right, matches, rs, l, r);
      JoinPairStep(init, last, right, matches, done, rs, l, r);
    }
  }

  /** The unmatched half of `JoinCounts`. */
  lemma JoinAloneCounts<L(!new), R(!new)>(left: seq<L>, init: seq<L>, last: L, right: seq<R>, matches: (L, R) -> bool,
                                          done: seq<(L, Option<R>)>, rs: seq<(L, Option<R>)>)
    requires left == init + [last] && rs == JoinRow(last, right, matches)
    requires forall l {:trigger multiset(done)[(l, None)]} ::
      multiset(done)[(l, None)] == (if |Matches(l, right, matches)| == 0 then multiset(init)[l] else 0)
    ensures forall l {:trigger multiset(done + rs)[(l, None)]} ::
      multiset(done + rs)[(l, None)] == (if |Matches(l, right, matches)| == 0 then multiset(left)[l] else 0)
  {
    forall l ensures multiset(done + rs)[(l, None)] ==
                     (if |Matches(l, right, matches)| == 0 then multiset(left)[l] else 0) {
      JoinCountUnmatched(last, right, matches, rs, l);
      JoinAloneStep(init, last, right, matches, done, rs, l);
    }
  }

  /** One (left, right) pair's count after the last left row `last`, whose
      output rows `rs` add `multiset(right)[r]` such pairs when `l` is
      `last` and matches `r`. */
  lemma JoinPairStep<L(!new), R(!new)>(init: seq<L>, last: L, right: seq<R>, matches: (L, R) -> bool,
                                       done: seq<(L, Option<R>)>, rs: seq<(L, Option<R>)>, l: L, r: R)
    requires multiset(rs)[(l, Some(r))] == if l == last && matches(l, r) then multiset(right)[r] else 0
    requires multiset(done)[(l, Some(r))] ==
             (if matches(l, r) then Copies(multiset(init)[l], multiset(right)[r]) else 0)
    ensures multiset(done + rs)[(l, Some(r))] ==
            (if matches(l, r) then Copies(multiset(init + [last])[l], multiset(right)[r]) else 0)
  {
    assert multiset(init + [last])[l] == multiset(init)[l] + (if l == last then 1 else 0) by {
      assert multiset(init + [last]) == multiset(init) + multiset{last};
    }
    assert multiset(done + rs)[(l, Some(r))] == multiset(done)[(l, Some(r))] + multiset(rs)[(l, Some(r))] by {
      assert multiset(done + rs) == multiset(done) + multiset(rs);
    }
    JoinCountStep(multiset(done)[(l, Some(r))], multiset(rs)[(l, Some(r))], multiset(init)[l],
                  multiset(init + [last])[l], multiset(right)[r], l == last, matches(l, r));
  }

  /** One unmatched left row's count after the last left row `last`, whose
      output rows `rs` carry `l` alone once when `l` is `last` and matches
      nothing. */
  lemma JoinAloneStep<L(!new), R(!new)>(init: seq<L>, last: L, right: seq<R>, matches: (L, R) -> bool,
                                        done: seq<(L, Option<R>)>, rs: seq<(L, Option<R>)>, l: L)
    requires multiset(rs)[(l, None)] == if l == last && |Matches(last, right, matches)| == 0 then 1 else 0
    requires multiset(done)[(l, None)] ==
             (if |Matches(l, right, matches)| == 0 then multiset(init)[l] else 0)
    ensures multiset(done + rs)[(l, None)] ==
            (if |Matches(l, right, matches)| == 0 then multiset(init + [last])[l] else 0)
  {
    assert multiset(init + [last])[l] == multiset(init)[l] + (if l == last then 1 else 0) by {
      assert multiset(init + [last]) == multiset(init) + multiset{last};
    }
    assert multiset(done + rs)[(l, None)] == multiset(done)[(l, None)] + multiset(rs)[(l, None)] by {
      assert multiset(done + rs) == multiset(done) + multiset(rs);
    }
    AloneCountStep(multiset(done)[(l, None)], multiset(rs)[(l, None)], multiset(init)[l],
                   multiset(init + [last])[l], l == last, |Matches(l, right, matches)| == 0);
  }

  /** How often the last left row's output rows pair `l` with `r`. */
  lemma JoinCountMatched<L(!new), R(!new)>(last: L, right: seq<R>, matches: (L, R) -> bool,
                                           rs: seq<(L, Option<R>)>, l: L, r: R)
    requires rs == JoinRow(last, right, matches)
    ensures multiset(rs)[(l, Some(r))] == if l == last && matches(l, r) then multiset(right)[r] else 0
  {
    var m := Matches(last, right, matches);
    if |m| == 0 {
      assert rs == [(last, None)];
      assert multiset(m)[r] == 0;
    } else {
      assert rs == Tagged(last, m);
    }
  }

  /** How often the last left row's output rows carry `l` unmatched. */
  lemma JoinCountUnmatched<L(!new), R(!new)>(last: L, right: seq<R>, matches: (L, R) -> bool,
                                             rs: seq<(L, Option<R>)>, l: L)
    requires rs == JoinRow(last, right, matches)
    ensures multiset(rs)[(l, None)] == if l == last && |Matches(last, right, matches)| == 0 then 1 else 0
  {
    var m := Matches(last, right, matches);
    if |m| == 0 {
      assert rs == [(last, None)];
    } else {
      assert rs == Tagged(last, m);
    }
  }

  /** `n` copies of `c` added up, that is `n * c`. */
  function Copies(n: nat, c: nat): nat {
    if n == 0 then 0 else Copies(n - 1, c) + c
  }

  /** The arithmetic of one step: `before` pairs so far, `added` new ones. */
  lemma JoinCountStep(before: int, added: int, a: nat, n: nat, c: nat, isLast: bool, matched: bool)
    requires before == (if matched then Copies(a, c) else 0)
    requires added == (if isLast && matched then c else 0)
    requires n == a + (if isLast then 1 else 0)
    ensures before + added == (if matched then Copies(n, c) else 0)
  {
  }

  /** The arithmetic of one step for rows left unmatched. */
  lemma AloneCountStep(before: int, added: int, a: nat, n: nat, isLast: bool, unmatched: bool)
    requires before == (if unmatched then a else 0)
    requires added == (if isLast && unmatched then 1 else 0)
    requires n == a + (if isLast then 1 else 0)
    ensures before + added == (if unmatched then n else 0)
  {
  }

  lemma JoinAppend<L, R>(left: seq<L>, done: seq<(L, Option<R>)>, rs: seq<(L, Option<R>)>)
    requires |left| > 0
    requires LeftsOf(done) == Rows(left[..|left| - 1])
    requires |rs| >= 1 && forall k | 0 <= k < |rs| :: rs[k].0 == left[|left| - 1]
    ensures LeftsOf(done + rs) == Rows(left)
  {
    var init, last := left[..|left| - 1], left[|left| - 1];
    var out := done + rs;
    assert LeftsOf(rs) == {last} by {
      assert rs[0].0 in LeftsOf(rs);
    }
    assert LeftsOf(out) == LeftsOf(done) + LeftsOf(rs) by {
      forall x | x in LeftsOf(out) ensures x in LeftsOf(done) + LeftsOf(rs) {
        var k :| 0 <= k < |out| && out[k].0 == x;
        if k < |done| {
          assert out[k] == done[k];
        } else {
          assert out[k] == rs[k - |done|];
        }
      }
      forall x | x in LeftsOf(done) ensures x in LeftsOf(out) {
        var k :| 0 <= k < |done| && done[k].0 == x;
        assert out[k] == done[k];
      }
      forall x | x in LeftsOf(rs) ensures x in LeftsOf(out) {
        var k :| 0 <= k < |rs| && rs[k].0 == x;
        assert out[|done| + k] == rs[k];
      }
    }
    assert Rows(left) == Rows(init) + {last} by {
      forall x | x in Rows(left) ensures x in Rows(init) + {last} {
        var i :| 0 <= i < |left| && left[i] == x;
        if i < |init| {
          assert init[i] == x;
        }
      }
      forall x | x in Rows(init) ensures x in Rows(left) {
        var i :| 0 <= i < |init| && init[i] == x;
        assert left[i] == x;
      }
    }
  }

  lemma MatchedAppend<L, R>(done: seq<(L, Option<R>)>, rs: seq<(L, Option<R>)>, right: seq<R>, matches: (L, R) -> bool)
    requires MatchedRight(done, right, matches) && MatchedRight(rs, right, matches)
    ensures MatchedRight(done + rs, right, matches)
  {
    var out := done + rs;
    assert forall k | 0 <= k < |out| :: out[k] == if k < |done| then done[k] else rs[k - |done|];
  }

  /** No left row matches two right rows: the right-hand key is unique for
      the keys the left side looks up. */
  predicate MatchesAtMostOnce<L, R>(left: seq<L>, right: seq<R>, matches: (L, R) -> bool) {
    forall i, j, k | 0 <= i < |left| && 0 <= j < k < |right| :: !(matches(left[i], right[j]) && matches(left[i], right[k]))
  }

  lemma MatchesSingle<L, R(!new)>(l: L, right: seq<R>, matches: (L, R) -> bool)
    requires forall j, k | 0 <= j < k < |right| :: !(matches(l, right[j]) && matches(l, right[k]))
    ensures |Matches(l, right, matches)| <= 1
  {
    AtMostOneKept(right, (x: R) => matches(l, x));
  }

  /** With a unique right-hand key, the left join keeps exactly the left
      rows, in order, one output row each. */
  lemma {:induction false} LeftJoinPreservesRows<L(!new), R(!new)>(left: seq<L>, right: seq<R>, matches: (L, R) -> bool)
    requires MatchesAtMostOnce(left, right, matches)
    ensures var out := LeftJoin(left, right, matches);
      |out| == |left| && forall i | 0 <= i < |left| :: out[i].0 == left[i]
    decreases |left|
  {
    if |left| > 0 {
      var init, last := left[..|left| - 1], left[|left| - 1];
      MatchesAtMostOnceSplit(left, right, matches);
      LeftJoinPreservesRows(init, right, matches);
      MatchesSingle(last, right, matches);
      LeftJoinStep(left, right, matches);
      OneRowEach(left, LeftJoin(left, right, matches), LeftJoin(init, right, matches), JoinRow(last, right, matches));
    }
  }

  lemma MatchesAtMostOnceSplit<L, R>(left: seq<L>, right: seq<R>, matches: (L, R) -> bool)
    requires |left| > 0 && MatchesAtMostOnce(left, right, matches)
    ensures MatchesAtMostOnce(left[..|left| - 1], right, matches)
    ensures forall j, k | 0 <= j < k < |right| :: !(matches(left[|left| - 1], right[j]) && matches(left[|left| - 1], right[k]))
  {
    assert forall i | 0 <= i < |left| - 1 :: left[..|left| - 1][i] == left[i];
  }

  lemma LeftJoinStep<L(!new), R(!new)>(left: seq<L>, right: seq<R>, matches: (L, R) -> bool)
    requires |left| > 0
    ensures LeftJoin(left, right, matches) ==
      LeftJoin(left[..|left| - 1], right, matches) + JoinRow(left[|left| - 1], right, matches)
  {
  }

  lemma OneRowEach<L, R>(left: seq<L>, out: seq<(L, Option<R>)>, done: seq<(L, Option<R>)>, rs: seq<(L, Option<R>)>)
    requires |left| > 0 && out == done + rs
    requires |done| == |left| - 1 && forall i | 0 <= i < |left| - 1 :: done[i].0 == left[..|left| - 1][i]
    requires |rs| == 1 && rs[0].0 == left[|left| - 1]
    ensures |out| == |left| && forall i | 0 <= i < |left| :: out[i].0 == left[i]
  {
  }

  // ---------------------------------------------------------------------
  // The master table
  // ---------------------------------------------------------------------

  /** The climate join key (data_processing.py, lines 159-164): region,
      year and month. A climate row whose month is missing matches no day. */
  predicate ClimateMatches(d: DailyConsumption, c: Climate) {
    c.region == d.region && c.year == d.year && c.month == Some(d.month)
  }

  /** The population join key (data_processing.py, lines 167-172): region
      and year. */
  predicate PopulationMatches(d: DailyConsumption, p: Population) {
    p.region == d.region && p.year == d.year
  }

  predicate PopulationMatchesJoined(row: (DailyConsumption, Option<Climate>), p: Population) {
    PopulationMatches(row.0, p)
  }

  function TemperatureOf(c: Option<Climate>): Option<real> {
    if c.Some? then c.value.temperature else None
  }

  function HumidityOf(c: Option<Climate>): Option<real> {
    if c.Some? then c.value.humidity else None
  }

  function PopulationOf(p: Option<Population>): Option<nat> {
    if p.Some? then Some(p.value.population) else None
  }

  /** The derived columns (data_processing.py, lines 178-190). */
  predicate CalendarFeatures(m: MasterRow, holidays: set<Date>) {
    m.weekday == Weekday(m.ds) && m.dayOfMonth == m.ds.day && m.isoWeek == IsoWeek(m.ds) &&
    m.month == m.ds.month && m.quarter == Quarter(m.ds.month) &&
    (m.isHoliday <==> m.ds in holidays)
  }

  /** One output row, in the final column order, renamed for the forecaster
      (`Data` becomes `ds`, `Consumo_Limpo` becomes `y`). */
  function ToMaster(row: ((DailyConsumption, Option<Climate>), Option<Population>), holidays: set<Date>): (m: MasterRow)
    ensures CalendarFeatures(m, holidays)
    ensures 0 <= m.weekday <= 6 && 1 <= m.isoWeek <= 53 && 1 <= m.month <= 12 && 1 <= m.quarter <= 4
  {
    var d := row.0.0;
    MasterRow(d.date, d.total, d.region,
      TemperatureOf(row.0.1), HumidityOf(row.0.1), PopulationOf(row.1),
      d.date in holidays, Weekday(d.date), d.date.day, IsoWeek(d.date), d.date.month, Quarter(d.date.month))
  }

  /** What a master row says about the day it was built from, independently
      of how the joins are carried out: the day's own fields, the climate of
      a matching climate row (missing when there is none), the population of
      a matching population row (missing when there is none), and the
      calendar columns. */
  predicate Enriches(m: MasterRow, d: DailyConsumption, pop: seq<Population>, climate: seq<Climate>, holidays: set<Date>) {
    m.ds == d.date && m.y == d.total && m.region == d.region &&
    (if exists j | 0 <= j < |climate| :: ClimateMatches(d, climate[j]) then
      exists j | 0 <= j < |climate| :: ClimateMatches(d, climate[j]) &&
        m.temperature == climate[j].temperature && m.humidity == climate[j].humidity
    else m.temperature.None? && m.humidity.None?) &&
    (if exists j | 0 <= j < |pop| :: PopulationMatches(d, pop[j]) then
      exists j | 0 <= j < |pop| :: PopulationMatches(d, pop[j]) && m.population == Some(pop[j].population)
    else m.population.None?) &&
    CalendarFeatures(m, holidays)
  }

  function JoinAll(agg: seq<DailyConsumption>, pop: seq<Population>, climate: seq<Climate>): seq<((DailyConsumption, Option<Climate>), Option<Population>)> {
    LeftJoin(LeftJoin(agg, climate, ClimateMatches), pop, PopulationMatchesJoined)
  }

  /** `create_features`: the output rows enrich, one each, a sequence of
      days that holds exactly the aggregated rows (a day repeats once per
      extra match), and the derived columns are in range. */
  function CreateFeatures(agg: seq<DailyConsumption>, pop: seq<Population>, climate: seq<Climate>, holidays: set<Date>): (r: seq<MasterRow>)
    ensures |r| >= |agg|
    ensures exists days: seq<DailyConsumption> | |days| == |r| && Rows(days) == Rows(agg) ::
      forall k | 0 <= k < |r| :: Enriches(r[k], days[k], pop, climate, holidays)
    ensures forall k | 0 <= k < |r| ::
      0 <= r[k].weekday <= 6 && 1 <= r[k].isoWeek <= 53 && 1 <= r[k].month <= 12 && 1 <= r[k].quarter <= 4
  {
    MasterRowsFacts(agg, pop, climate, holidays);
    MasterRows(JoinAll(agg, pop, climate), holidays)
  }

  /** `ToMaster` applied to every joined row, in order. */
  function MasterRows(joined: seq<((DailyConsumption, Option<Climate>), Option<Population>)>, holidays: set<Date>): (r: seq<MasterRow>)
    ensures |r| == |joined|
  {
    seq(|joined|, k requires 0 <= k < |joined| => ToMaster(joined[k], holidays))
  }

  /** The properties `CreateFeatures` promises, proved of the joined table. */
  lemma MasterRowsFacts(agg: seq<DailyConsumption>, pop: seq<Population>, climate: seq<Climate>, holidays: set<Date>)
    ensures MasterTableOf(MasterRows(JoinAll(agg, pop, climate), holidays), agg, pop, climate, holidays)
  {
    JoinedRowsEnrich(agg, pop, climate, holidays);
    MasterRowsEnrich(JoinAll(agg, pop, climate), agg, pop, climate, holidays);
  }

  /** `r` holds at least a row per day, each some day's row enriched, with
      calendar columns in range. */
  ghost predicate MasterTableOf(r: seq<MasterRow>, agg: seq<DailyConsumption>, pop: seq<Population>, climate: seq<Climate>, holidays: set<Date>) {
    && |r| >= |agg|
    && (exists days: seq<DailyConsumption> | |days| == |r| && Rows(days) == Rows(agg) ::
          forall k | 0 <= k < |r| :: Enriches(r[k], days[k], pop, climate, holidays))
    && (forall k | 0 <= k < |r| ::
          0 <= r[k].weekday <= 6 && 1 <= r[k].isoWeek <= 53 && 1 <= r[k].month <= 12 && 1 <= r[k].quarter <= 4)
  }

  lemma MasterRowsEnrich(joined: seq<((DailyConsumption, Option<Climate>), Option<Population>)>, agg: seq<DailyConsumption>,
                         pop: seq<Population>, climate: seq<Climate>, holidays: set<Date>)
    requires |joined| >= |agg| && Rows(DaysOf(joined)) == Rows(agg)
    requires forall k | 0 <= k < |joined| :: JoinedRowEnriches(joined[k], pop, climate, holidays)
    ensures MasterTableOf(MasterRows(joined, holidays), agg, pop, climate, holidays)
  {
    var r := MasterRows(joined, holidays);
    var days := DaysOf(joined);
    assert forall k | 0 <= k < |r| :: Enriches(r[k], days[k], pop, climate, holidays);
  }

  /** The days the joined rows come from, in output order. */
  ghost function DaysOf(joined: seq<((DailyConsumption, Option<Climate>), Option<Population>)>): (days: seq<DailyConsumption>)
    ensures |days| == |joined| && forall k | 0 <= k < |joined| :: days[k] == joined[k].0.0
  {
    seq(|joined|, k requires 0 <= k < |joined| => joined[k].0.0)
  }

  lemma JoinedRowsEnrich(agg: seq<DailyConsumption>, pop: seq<Population>, climate: seq<Climate>, holidays: set<Date>)
    ensures var joined := JoinAll(agg, pop, climate);
      |joined| >= |agg| && Rows(DaysOf(joined)) == Rows(agg) &&
      forall k | 0 <= k < |joined| :: JoinedRowEnriches(joined[k], pop, climate, holidays)
  {
    var first := LeftJoin(agg, climate, ClimateMatches);
    var joined := LeftJoin(first, pop, PopulationMatchesJoined);
    var days := DaysOf(joined);
    forall k | 0 <= k < |joined| ensures JoinedRowEnriches(joined[k], pop, climate, holidays) {
      assert joined[k].0 in LeftsOf(joined);
      var k1 :| 0 <= k1 < |first| && first[k1] == joined[k].0;
      JoinedRowFacts(first, joined, pop, climate, holidays, k, k1);
    }
    JoinedDays(agg, first, joined);
  }

  /** The days behind the doubly joined rows are the left table's rows. */
  lemma JoinedDays(agg: seq<DailyConsumption>, first: seq<(DailyConsumption, Option<Climate>)>,
                   joined: seq<((DailyConsumption, Option<Climate>), Option<Population>)>)
    requires LeftsOf(first) == Rows(agg) && LeftsOf(joined) == Rows(first)
    ensures Rows(DaysOf(joined)) == Rows(agg)
  {
    var days := DaysOf(joined);
    forall d | d in Rows(days) ensures d in Rows(agg) {
      var k :| 0 <= k < |days| && days[k] == d;
      assert joined[k].0 in LeftsOf(joined);
      var k1 :| 0 <= k1 < |first| && first[k1] == joined[k].0;
      assert first[k1].0 in LeftsOf(first);
    }
    forall d | d in Rows(agg) ensures d in Rows(days) {
      assert d in LeftsOf(first);
      var k1 :| 0 <= k1 < |first| && first[k1].0 == d;
      assert first[k1] in Rows(first);
      var k :| 0 <= k < |joined| && joined[k].0 == first[k1];
      assert days[k] == d;
    }
  }

  predicate JoinedRowEnriches(row: ((DailyConsumption, Option<Climate>), Option<Population>), pop: seq<Population>, climate: seq<Climate>, holidays: set<Date>) {
    Enriches(ToMaster(row, holidays), row.0.0, pop, climate, holidays)
  }

  lemma JoinedRowFacts(
    first: seq<(DailyConsumption, Option<Climate>)>,
    joined: seq<((DailyConsumption, Option<Climate>), Option<Population>)>,
    pop: seq<Population>, climate: seq<Climate>, holidays: set<Date>, k: int, k1: int)
    requires MatchedRight(first, climate, ClimateMatches)
    requires MatchedRight(joined, pop, PopulationMatchesJoined)
    requires 0 <= k < |joined| && 0 <= k1 < |first| && first[k1] == joined[k].0
    ensures JoinedRowEnriches(joined[k], pop, climate, holidays)
  {
    var d := first[k1].0;
    if first[k1].1.Some? {
      var j :| 0 <= j < |climate| && climate[j] == first[k1].1.value;
      assert ClimateMatches(d, climate[j]);
    }
    if joined[k].1.Some? {
      var j :| 0 <= j < |pop| && pop[j] == joined[k].1.value;
      assert PopulationMatches(d, pop[j]);
    } else {
      assert forall j | 0 <= j < |pop| :: !PopulationMatches(d, pop[j]) by {
        assert forall j | 0 <= j < |pop| :: !PopulationMatchesJoined(joined[k].0, pop[j]);
      }
    }
  }

  /** No two climate rows share region, year and month. */
  predicate UniqueClimateJoinKeys(climate: seq<Climate>) {
    forall j, k | 0 <= j < k < |climate| ::
      !(climate[j].region == climate[k].region && climate[j].year == climate[k].year && climate[j].month == climate[k].month)
  }

  /** No two population rows share region and year. */
  predicate UniquePopulationJoinKeys(pop: seq<Population>) {
    forall j, k | 0 <= j < k < |pop| :: !(pop[j].region == pop[k].region && pop[j].year == pop[k].year)
  }

  /** With unique join keys on the right, the master table has one row per
      aggregated row, in the same order, each enriching its own day. */
  lemma OneMasterRowPerDay(agg: seq<DailyConsumption>, pop: seq<Population>, climate: seq<Climate>, holidays: set<Date>)
    requires UniqueClimateJoinKeys(climate) && UniquePopulationJoinKeys(pop)
    ensures var r := CreateFeatures(agg, pop, climate, holidays);
      |r| == |agg| && forall i | 0 <= i < |agg| :: Enriches(r[i], agg[i], pop, climate, holidays)
  {
    var joined := JoinAll(agg, pop, climate);
    JoinKeepsDays(agg, pop, climate);
    JoinedRowsEnrich(agg, pop, climate, holidays);
    MasterOfJoined(agg, pop, climate, holidays);
    var r := CreateFeatures(agg, pop, climate, holidays);
    forall i | 0 <= i < |agg| ensures Enriches(r[i], agg[i], pop, climate, holidays) {
      assert JoinedRowEnriches(joined[i], pop, climate, holidays);
    }
  }

  /** With unique join keys, the two joins keep the days one row each. */
  lemma JoinKeepsDays(agg: seq<DailyConsumption>, pop: seq<Population>, climate: seq<Climate>)
    requires UniqueClimateJoinKeys(climate) && UniquePopulationJoinKeys(pop)
    ensures var joined := JoinAll(agg, pop, climate);
      |joined| == |agg| && forall i | 0 <= i < |agg| :: joined[i].0.0 == agg[i]
  {
    var first := LeftJoin(agg, climate, ClimateMatches);
    LeftJoinPreservesRows(agg, climate, ClimateMatches);
    LeftJoinPreservesRows(first, pop, PopulationMatchesJoined);
  }

  /** The master table is the joined table, row by row, through `ToMaster`. */
  lemma MasterOfJoined(agg: seq<DailyConsumption>, pop: seq<Population>, climate: seq<Climate>, holidays: set<Date>)
    ensures var joined := JoinAll(agg, pop, climate);
      var r := CreateFeatures(agg, pop, climate, holidays);
      |r| == |joined| && forall k | 0 <= k < |r| :: r[k] == ToMaster(joined[k], holidays)
  {
  }

  /** The climate and population tables cover a single year, so a day of
      any other year gets missing temperature, humidity and population. */
  lemma OtherYearsMissing(agg: seq<DailyConsumption>, pop: seq<Population>, climate: seq<Climate>, holidays: set<Date>)
    requires CalendarFieldsAgree(agg)
    requires forall j | 0 <= j < |climate| :: climate[j].year == ReportingYear
    requires forall j | 0 <= j < |pop| :: pop[j].year == ReportingYear
    ensures var r := CreateFeatures(agg, pop, climate, holidays);
      forall k | 0 <= k < |r| && r[k].ds.year != ReportingYear ::
        r[k].temperature.None? && r[k].humidity.None? && r[k].population.None?
  {
    var r := CreateFeatures(agg, pop, climate, holidays);
    var days: seq<DailyConsumption> :| |days| == |r| && Rows(days) == Rows(agg) &&
      forall k | 0 <= k < |r| :: Enriches(r[k], days[k], pop, climate, holidays);
    forall k | 0 <= k < |r| && r[k].ds.year != ReportingYear
      ensures r[k].temperature.None? && r[k].humidity.None? && r[k].population.None?
    {
      assert days[k] in Rows(agg);
      var i :| 0 <= i < |agg| && agg[i] == days[k];
      OtherYearRowMissing(r[k], days[k], pop, climate, holidays);
    }
  }

  /** A master row of a day outside the tables' year has nothing to join. */
  lemma OtherYearRowMissing(m: MasterRow, d: DailyConsumption, pop: seq<Population>, climate: seq<Climate>, holidays: set<Date>)
    requires Enriches(m, d, pop, climate, holidays)
    requires d.year == d.date.year && d.year != ReportingYear
    requires forall j | 0 <= j < |climate| :: climate[j].year == ReportingYear
    requires forall j | 0 <= j < |pop| :: pop[j].year == ReportingYear
    ensures m.temperature.None? && m.humidity.None? && m.population.None?
  {
  }
}
