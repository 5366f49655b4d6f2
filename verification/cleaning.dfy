/** `clean_data`: type coercion of the three raw tables and the daily
    aggregation of consumption (data_processing.py, lines 59-103). */
module Cleaning {
  import opened Options
  import opened Text
  import opened LocaleNumber
  import opened Calendar
  import opened Ordering
  import opened Tables

  // ---------------------------------------------------------------------
  // Consumption: coercion
  // ---------------------------------------------------------------------

  /** The texts `to_datetime` turns into `NaT` rather than parsing them. */
  const NaTStrings: set<string> := {"NaT", "nat", "NAT", "nan", "NaN", "NAN"}

  /** A date cell that becomes `NaT`: one `read_csv` loaded as missing, or
      a spelling of `NaT`. */
  predicate IsNaTText(s: string) {
    IsMissingCell(s) || s in NaTStrings
  }

  /** A date cell `to_datetime(..., format='%d/%m/%Y')` accepts. */
  predicate ReadableDate(s: string) {
    ParseDate(s).Some? || IsNaTText(s)
  }

  /** `to_datetime(cell, format='%d/%m/%Y')` on one cell: `NaT` for the
      texts above, the day the text spells otherwise, and `None` (the call
      raises) when it is neither. No `NaT` text spells a day. */
  function ReadDate(s: string): (r: Option<DateCell>)
    ensures r == Some(NotATime) <==> IsNaTText(s)
    ensures forall d: ValidDate :: r == Some(Day(d)) <==> ParseDate(s) == Some(d)
  {
    if IsNaTText(s) then
      NaTTextIsNoDate(s);
      Some(NotATime)
    else
      match ParseDate(s)
      case None => None
      case Some(d) => Some(Day(d))
  }

  /** Every `NaT` text ends in a character no date text holds. */
  lemma NaTTextIsNoDate(s: string)
    requires IsNaTText(s)
    ensures ParseDate(s) == None
  {
    if ParseDate(s).Some? {
      DateCharacters(s, ParseDate(s).value);
    }
  }

  /** The submarket label of a raw row: stripped, or missing when the cell
      was (`str.strip` keeps NaN). */
  function RegionCell(s: string): Option<string> {
    if IsMissingCell(s) then None else Some(Strip(s))
  }

  /** One raw consumption row coerced: the date read, the submarket label
      stripped, the reading normalized. `None` when the date cell is neither
      a date nor `NaT`; otherwise the reading has the raw row's key and its
      normalized reading. */
  function CleanReading(row: RawConsumption): (r: Option<Reading>)
    ensures r.Some? <==> ReadableDate(row.date)
    ensures r.Some? ==> KeyOf(r.value) == RawKey(row) && r.value.value == NormalizeConsumption(row.reading)
  {
    match ReadDate(row.date)
    case None => None
    case Some(c) => Some(Reading(c, RegionCell(row.submarket), NormalizeConsumption(row.reading)))
  }

  /** The coercion of the whole column: `to_datetime` raises on the first
      date cell it cannot read, so a single bad row fails the table, while
      a bad reading only becomes missing. */
  function CleanReadings(raw: seq<RawConsumption>): (r: Option<seq<Reading>>)
    ensures r.Some? <==> forall i | 0 <= i < |raw| :: ReadableDate(raw[i].date)
    ensures r.Some? ==> |r.value| == |raw| && forall i | 0 <= i < |raw| :: r.value[i] == CleanReading(raw[i]).value
  {
    var cells := seq(|raw|, i requires 0 <= i < |raw| => CleanReading(raw[i]));
    assert forall i | 0 <= i < |raw| :: cells[i] == CleanReading(raw[i]);
    AllPresent(cells)
  }

  // ---------------------------------------------------------------------
  // Consumption: aggregation by (date, region)
  // ---------------------------------------------------------------------

  /** The group key of a reading; `None` when its date is `NaT` or its
      region missing, which `groupby` (dropna) leaves out of every group. */
  function KeyOf(r: Reading): (k: Option<Key>)
    ensures k.Some? <==> r.date.Day? && r.region.Some?
    ensures k.Some? ==> IsValid(k.value.date) && k.value == Key(r.date.day, r.region.value)
  {
    if r.date.Day? && r.region.Some? then Some(Key(r.date.day, r.region.value)) else None
  }

  function DailyKey(d: DailyConsumption): Key {
    Key(d.date, d.region)
  }

  /** The sum pandas computes for `key`: every reading with that key, a
      missing reading counting 0 (`sum` skips NaN). */
  function SumFor(rows: seq<Reading>, key: Key): real {
    if |rows| == 0 then 0.0
    else
      var last := rows[|rows| - 1];
      SumFor(rows[..|rows| - 1], key) + (if KeyOf(last) == Some(key) then last.value.GetOr(0.0) else 0.0)
  }

  function RawKeys(rows: seq<Reading>): set<Key> {
    set i | 0 <= i < |rows| && KeyOf(rows[i]).Some? :: KeyOf(rows[i]).value
  }

  function KeySet(t: seq<DailyConsumption>): set<Key> {
    set i | 0 <= i < |t| :: DailyKey(t[i])
  }

  /** Rows in strictly increasing key order, hence with distinct keys. */
  predicate StrictlySorted(t: seq<DailyConsumption>) {
    forall i, j | 0 <= i < j < |t| :: KeyLt(DailyKey(t[i]), DailyKey(t[j]))
  }

  /** `Ano` and `Mes_Num` are the year and month of `Data`. */
  predicate CalendarFieldsAgree(t: seq<DailyConsumption>) {
    forall i | 0 <= i < |t| :: t[i].year == t[i].date.year && t[i].month == t[i].date.month
  }

  /** The total recorded for `key`, 0 when the key has no row. */
  function TotalOf(t: seq<DailyConsumption>, key: Key): real {
    if |t| == 0 then 0.0
    else if DailyKey(t[0]) == key then t[0].total
    else TotalOf(t[1..], key)
  }

  function NewDaily(key: Key, v: real): DailyConsumption
    requires IsValid(key.date)
  {
    DailyConsumption(key.date, key.region, key.date.year, key.date.month, v)
  }

  lemma {:induction false} TotalOfAbsent(t: seq<DailyConsumption>, key: Key)
    requires key !in KeySet(t)
    ensures TotalOf(t, key) == 0.0
    decreases |t|
  {
    if |t| > 0 {
      assert DailyKey(t[0]) in KeySet(t);
      assert KeySet(t[1..]) <= KeySet(t) by {
        forall k | k in KeySet(t[1..]) ensures k in KeySet(t) {
          var i :| 0 <= i < |t[1..]| && DailyKey(t[1..][i]) == k;
          assert DailyKey(t[i + 1]) == k;
        }
      }
      TotalOfAbsent(t[1..], key);
    }
  }

  lemma {:induction false} TotalOfAt(t: seq<DailyConsumption>, i: int)
    requires StrictlySorted(t) && 0 <= i < |t|
    ensures TotalOf(t, DailyKey(t[i])) == t[i].total
    decreases i
  {
    if i > 0 {
      KeyLtIrreflexive(DailyKey(t[0]));
      assert DailyKey(t[0]) != DailyKey(t[i]);
      TotalOfAt(t[1..], i - 1);
    }
  }

  lemma KeySetCons(x: DailyConsumption, t: seq<DailyConsumption>)
    ensures KeySet([x] + t) == {DailyKey(x)} + KeySet(t)
  {
    var s := [x] + t;
    forall k | k in KeySet(s) ensures k in {DailyKey(x)} + KeySet(t) {
      var i :| 0 <= i < |s| && DailyKey(s[i]) == k;
      if i > 0 { assert s[i] == t[i - 1]; }
    }
    forall k | k in KeySet(t) ensures k in KeySet(s) {
      var i :| 0 <= i < |t| && DailyKey(t[i]) == k;
      assert s[i + 1] == t[i];
    }
    assert DailyKey(s[0]) == DailyKey(x);
  }

  /** Adds one reading to a sorted aggregate: the key's total grows by `v`
      (a new row is inserted in key order when the key is new), every other
      total is unchanged. */
  function AddReading(t: seq<DailyConsumption>, key: Key, v: real): (r: seq<DailyConsumption>)
    requires IsValid(key.date)
    requires StrictlySorted(t) && CalendarFieldsAgree(t)
    ensures StrictlySorted(r) && CalendarFieldsAgree(r)
    ensures KeySet(r) == KeySet(t) + {key}
    ensures forall k :: TotalOf(r, k) == TotalOf(t, k) + (if k == key then v else 0.0)
    decreases |t|
  {
    if |t| == 0 then
      var r := [NewDaily(key, v)];
      assert KeySet(r) == {key} by { KeySetCons(NewDaily(key, v), []); }
      r
    else if DailyKey(t[0]) == key then
      AddToFirst(t, key, v);
      [t[0].(total := t[0].total + v)] + t[1..]
    else if KeyLt(key, DailyKey(t[0])) then
      AddBeforeFirst(t, key, v);
      [NewDaily(key, v)] + t
    else
      KeyLtTotal(key, DailyKey(t[0]));
      var rest := AddReading(t[1..], key, v);
      AddAfterFirst(t, key, v, rest);
      [t[0]] + rest
  }

  /** `r` is `t` with a reading of `v` for `key` added. */
  ghost predicate Added(t: seq<DailyConsumption>, key: Key, v: real, r: seq<DailyConsumption>) {
    StrictlySorted(r) && CalendarFieldsAgree(r) && KeySet(r) == KeySet(t) + {key} &&
    forall k :: TotalOf(r, k) == TotalOf(t, k) + (if k == key then v else 0.0)
  }

  lemma AddToFirst(t: seq<DailyConsumption>, key: Key, v: real)
    requires StrictlySorted(t) && CalendarFieldsAgree(t)
    requires |t| > 0 && DailyKey(t[0]) == key
    ensures Added(t, key, v, [t[0].(total := t[0].total + v)] + t[1..])
  {
    var r := [t[0].(total := t[0].total + v)] + t[1..];
    assert forall i | 0 <= i < |t| :: DailyKey(r[i]) == DailyKey(t[i]);
    KeySetCons(r[0], t[1..]);
    KeySetCons(t[0], t[1..]);
    assert t == [t[0]] + t[1..];
    assert r[1..] == t[1..];
  }

  lemma AddBeforeFirst(t: seq<DailyConsumption>, key: Key, v: real)
    requires IsValid(key.date)
    requires StrictlySorted(t) && CalendarFieldsAgree(t)
    requires |t| > 0 && KeyLt(key, DailyKey(t[0]))
    ensures Added(t, key, v, [NewDaily(key, v)] + t)
  {
    var r := [NewDaily(key, v)] + t;
    assert forall j | 0 < j < |t| :: KeyLt(key, DailyKey(t[j])) by {
      forall j | 0 < j < |t| ensures KeyLt(key, DailyKey(t[j])) {
        KeyLtTransitive(key, DailyKey(t[0]), DailyKey(t[j]));
      }
    }
    assert key !in KeySet(t) by {
      if key in KeySet(t) {
        var j :| 0 <= j < |t| && DailyKey(t[j]) == key;
        KeyLtIrreflexive(key);
      }
    }
    TotalOfAbsent(t, key);
    KeySetCons(NewDaily(key, v), t);
    assert r[1..] == t;
  }

  lemma AddAfterFirst(t: seq<DailyConsumption>, key: Key, v: real, rest: seq<DailyConsumption>)
    requires StrictlySorted(t) && CalendarFieldsAgree(t)
    requires |t| > 0 && KeyLt(DailyKey(t[0]), key)
    requires Added(t[1..], key, v, rest)
    ensures Added(t, key, v, [t[0]] + rest)
  {
    var r := [t[0]] + rest;
    KeySetCons(t[0], t[1..]);
    assert t == [t[0]] + t[1..];
    KeySetCons(t[0], rest);
    RestAboveFirst(t, key, rest);
    ConsSorted(t[0], rest);
    assert CalendarFieldsAgree(r) by {
      assert forall i | 0 < i < |r| :: r[i] == rest[i - 1];
    }
    KeyLtIrreflexive(key);
    ConsTotals(t, key, v, rest);
  }

  /** Every key of the recursive result lies above the first row's key. */
  lemma RestAboveFirst(t: seq<DailyConsumption>, key: Key, rest: seq<DailyConsumption>)
    requires StrictlySorted(t) && |t| > 0 && KeyLt(DailyKey(t[0]), key)
    requires KeySet(rest) == KeySet(t[1..]) + {key}
    ensures forall j | 0 <= j < |rest| :: KeyLt(DailyKey(t[0]), DailyKey(rest[j]))
  {
    forall j | 0 <= j < |rest| ensures KeyLt(DailyKey(t[0]), DailyKey(rest[j])) {
      assert DailyKey(rest[j]) in KeySet(rest);
      if DailyKey(rest[j]) != key {
        var i :| 0 <= i < |t[1..]| && DailyKey(t[1..][i]) == DailyKey(rest[j]);
        assert t[1..][i] == t[i + 1];
      }
    }
  }

  lemma ConsSorted(x: DailyConsumption, rest: seq<DailyConsumption>)
    requires StrictlySorted(rest)
    requires forall j | 0 <= j < |rest| :: KeyLt(DailyKey(x), DailyKey(rest[j]))
    ensures StrictlySorted([x] + rest)
  {
    var r := [x] + rest;
    forall i, j | 0 <= i < j < |r| ensures KeyLt(DailyKey(r[i]), DailyKey(r[j])) {
      if i > 0 {
        assert r[i] == rest[i - 1] && r[j] == rest[j - 1];
      } else {
        assert r[j] == rest[j - 1];
      }
    }
  }

  lemma ConsTotals(t: seq<DailyConsumption>, key: Key, v: real, rest: seq<DailyConsumption>)
    requires |t| > 0 && DailyKey(t[0]) != key
    requires forall k :: TotalOf(rest, k) == TotalOf(t[1..], k) + (if k == key then v else 0.0)
    ensures forall k :: TotalOf([t[0]] + rest, k) == TotalOf(t, k) + (if k == key then v else 0.0)
  {
    var r := [t[0]] + rest;
    assert r[1..] == rest;
    forall k ensures TotalOf(r, k) == TotalOf(t, k) + (if k == key then v else 0.0) {
      if k != DailyKey(t[0]) {
        assert TotalOf(r, k) == TotalOf(rest, k);
      }
    }
  }

  /** `groupby(['Data', 'Região', 'Ano', 'Mes_Num'])['Consumo_Limpo'].sum()`
      (data_processing.py, line 74): one row per (date, region) key that
      occurs in the readings, rows in key order, each total the sum of that
      key's readings with missing ones counting 0, and `Ano`/`Mes_Num` the
      year and month of the date. Readings with a `NaT` date or a missing
      region belong to no group and are dropped. */
  function Aggregate(rows: seq<Reading>): (r: seq<DailyConsumption>)
    ensures StrictlySorted(r) && CalendarFieldsAgree(r)
    ensures KeySet(r) == RawKeys(rows)
    ensures forall k :: TotalOf(r, k) == SumFor(rows, k)
  {
    if |rows| == 0 then []
    else
      var init := rows[..|rows| - 1];
      var last := rows[|rows| - 1];
      var lastKey := if KeyOf(last).Some? then {KeyOf(last).value} else {};
      assert RawKeys(rows) == RawKeys(init) + lastKey by {
        forall k | k in RawKeys(rows) ensures k in RawKeys(init) + lastKey {
          var i :| 0 <= i < |rows| && KeyOf(rows[i]).Some? && KeyOf(rows[i]).value == k;
          if i < |rows| - 1 { assert init[i] == rows[i]; }
        }
        forall k | k in RawKeys(init) ensures k in RawKeys(rows) {
          var i :| 0 <= i < |init| && KeyOf(init[i]).Some? && KeyOf(init[i]).value == k;
          assert rows[i] == init[i];
        }
      }
      match KeyOf(last)
      case None => Aggregate(init)
      case Some(key) => AddReading(Aggregate(init), key, last.value.GetOr(0.0))
  }

  /** The aggregated table has no duplicate (date, region) pair, and each
      row's total is the sum of all readings with its key. */
  lemma AggregateRows(rows: seq<Reading>)
    ensures var t := Aggregate(rows);
      && (forall i, j | 0 <= i < j < |t| :: DailyKey(t[i]) != DailyKey(t[j]))
      && (forall i | 0 <= i < |t| :: t[i].total == SumFor(rows, DailyKey(t[i])))
  {
    var t := Aggregate(rows);
    forall i, j | 0 <= i < j < |t| ensures DailyKey(t[i]) != DailyKey(t[j]) {
      KeyLtIrreflexive(DailyKey(t[i]));
    }
    forall i | 0 <= i < |t| ensures t[i].total == SumFor(rows, DailyKey(t[i])) {
      TotalOfAt(t, i);
    }
  }

  /** A key that never occurs sums to 0, and sums add up over concatenated
      readings, so the aggregate does not depend on how readings are split
      between files or batches. */
  lemma {:induction false} SumForAppend(a: seq<Reading>, b: seq<Reading>, key: Key)
    ensures SumFor(a + b, key) == SumFor(a, key) + SumFor(b, key)
    decreases |b|
  {
    if |b| > 0 {
      assert (a + b)[..|a + b| - 1] == a + b[..|b| - 1];
      SumForAppend(a, b[..|b| - 1], key);
    } else {
      assert a + b == a;
    }
  }

  /** The (date, region) group a raw row's reading is summed into: the
      parsed date with the stripped label, or none when the date does not
      parse or the label is missing. */
  function RawKey(row: RawConsumption): Option<Key> {
    match ParseDate(row.date)
    case None => None
    case Some(d) => if IsMissingCell(row.submarket) then None else Some(Key(d, Strip(row.submarket)))
  }

  /** The groups of the raw rows. */
  function RawConsumptionKeys(raw: seq<RawConsumption>): set<Key> {
    set i | 0 <= i < |raw| && RawKey(raw[i]).Some? :: RawKey(raw[i]).value
  }

  /** The normalized readings of the raw rows with `key`, a missing reading
      counting 0. */
  function RawTotal(raw: seq<RawConsumption>, key: Key): real {
    RawTotalBy(raw, key, RawKey, NormalizeConsumption)
  }

  /** `RawTotal` for given grouping and reading coercions. */
  function RawTotalBy(raw: seq<RawConsumption>, key: Key, keyOf: RawConsumption -> Option<Key>,
                      normalize: string -> Option<real>): real {
    if |raw| == 0 then 0.0
    else
      var last := raw[|raw| - 1];
      RawTotalBy(raw[..|raw| - 1], key, keyOf, normalize) +
        (if keyOf(last) == Some(key) then normalize(last.reading).GetOr(0.0) else 0.0)
  }

  /** `r` is the coercion of `row`. */
  predicate Coerces(row: RawConsumption, r: Reading) {
    KeyOf(r) == RawKey(row) && r.value == NormalizeConsumption(row.reading)
  }

  /** Coercion keeps the readings of the raw rows. */
  lemma {:induction false} CoercedSum(raw: seq<RawConsumption>, rows: seq<Reading>, key: Key,
                                      keyOf: RawConsumption -> Option<Key>, normalize: string -> Option<real>)
    requires |rows| == |raw|
    requires forall i | 0 <= i < |raw| ::
      keyOf(raw[i]) == KeyOf(rows[i]) && rows[i].value == normalize(raw[i].reading)
    ensures SumFor(rows, key) == RawTotalBy(raw, key, keyOf, normalize)
    decreases |raw|
  {
    if |raw| > 0 {
      var init, rest := raw[..|raw| - 1], rows[..|rows| - 1];
      assert forall i | 0 <= i < |init| :: init[i] == raw[i] && rest[i] == rows[i];
      CoercedSum(init, rest, key, keyOf, normalize);
    }
  }

  /** Coercion keeps the keys of the raw rows. */
  lemma CoercedKeys(raw: seq<RawConsumption>, rows: seq<Reading>)
    requires |rows| == |raw| && forall i | 0 <= i < |raw| :: Coerces(raw[i], rows[i])
    ensures RawKeys(rows) == RawConsumptionKeys(raw)
  {
    forall k | k in RawKeys(rows) ensures k in RawConsumptionKeys(raw) {
      var i :| 0 <= i < |rows| && KeyOf(rows[i]).Some? && KeyOf(rows[i]).value == k;
      assert Coerces(raw[i], rows[i]);
    }
    forall k | k in RawConsumptionKeys(raw) ensures k in RawKeys(rows) {
      var i :| 0 <= i < |raw| && RawKey(raw[i]).Some? && RawKey(raw[i]).value == k;
      assert Coerces(raw[i], rows[i]);
    }
  }

  /** Consumption cleaning: `None` exactly when some date cell is neither a
      date nor `NaT`; otherwise one row per (date, region) group of the raw
      rows, carrying the sum of that group's readings. */
  function CleanConsumption(raw: seq<RawConsumption>): (r: Option<seq<DailyConsumption>>)
    ensures r.Some? <==> forall i | 0 <= i < |raw| :: ReadableDate(raw[i].date)
    ensures r.Some? ==> StrictlySorted(r.value) && CalendarFieldsAgree(r.value)
    ensures r.Some? ==> KeySet(r.value) == RawConsumptionKeys(raw)
    ensures r.Some? ==> forall key :: TotalOf(r.value, key) == RawTotal(raw, key)
  {
    match CleanReadings(raw)
    case None => None
    case Some(readings) =>
      assert forall i | 0 <= i < |raw| :: Coerces(raw[i], readings[i]) by {
        forall i | 0 <= i < |raw| ensures Coerces(raw[i], readings[i]) {
          assert readings[i] == CleanReading(raw[i]).value;
        }
      }
      assert forall key :: SumFor(readings, key) == RawTotal(raw, key) by {
        forall key ensures SumFor(readings, key) == RawTotal(raw, key) {
          CoercedSum(raw, readings, key, RawKey, NormalizeConsumption);
        }
      }
      CoercedKeys(raw, readings);
      Some(Aggregate(readings))
  }

  /** A row whose date cell is `NaT` changes nothing: it does not stop the
      cleaning and, belonging to no group, adds to no total. */
  lemma NaTRowDropped(raw: seq<RawConsumption>, row: RawConsumption)
    requires IsNaTText(row.date)
    ensures CleanConsumption(raw + [row]) == CleanConsumption(raw)
  {
    var s := raw + [row];
    assert forall i | 0 <= i < |raw| :: s[i] == raw[i];
    assert ReadableDate(s[|raw|].date);
    if CleanReadings(raw).Some? {
      var a, b := CleanReadings(s).value, CleanReadings(raw).value;
      assert a[..|raw|] == b;
      assert KeyOf(a[|raw|]).None?;
    }
  }

  /** Worked example: a file holding only a `NaT` row cleans to an empty
      table instead of failing. */
  lemma NaTExample()
    ensures CleanConsumption([RawConsumption("NaT", "Sul", "1,0")]) == Some([])
  {
    var row := RawConsumption("NaT", "Sul", "1,0");
    assert IsNaTText(row.date);
    NaTRowDropped([], row);
    assert [] + [row] == [row];
  }

  // ---------------------------------------------------------------------
  // Climate
  // ---------------------------------------------------------------------

  /** The fixed Portuguese month-name map (data_processing.py, line 84). */
  function MonthNumber(name: string): (r: Option<int>)
    ensures r.Some? ==> 1 <= r.value <= 12
  {
    if name == "Janeiro" then Some(1)
    else if name == "Fevereiro" then Some(2)
    else if name == "Março" then Some(3)
    else if name == "Abril" then Some(4)
    else if name == "Maio" then Some(5)
    else if name == "Junho" then Some(6)
    else if name == "Julho" then Some(7)
    else if name == "Agosto" then Some(8)
    else if name == "Setembro" then Some(9)
    else if name == "Outubro" then Some(10)
    else if name == "Novembro" then Some(11)
    else if name == "Dezembro" then Some(12)
    else None
  }

  function MonthName(m: int): string
    requires 1 <= m <= 12
  {
    ["Janeiro", "Fevereiro", "Março", "Abril", "Maio", "Junho", "Julho",
     "Agosto", "Setembro", "Outubro", "Novembro", "Dezembro"][m - 1]
  }

  /** The map is a bijection between the twelve names and 1..12: each name
      maps to its month, and a name maps to month `m` only if it is `m`'s
      name; any other text is a missing month. */
  lemma MonthNumberBijective(name: string, m: int)
    requires 1 <= m <= 12
    ensures MonthNumber(MonthName(m)) == Some(m)
    ensures MonthNumber(name) == Some(m) ==> name == MonthName(m)
  {
  }

  /** One climate row cleaned (data_processing.py, lines 82-87): region
      stripped, year stamped, temperature and humidity normalized, and the
      month `m` exactly when the name is `m`'s, missing for any other name. */
  function CleanClimateRow(row: RawClimate): (c: Climate)
    ensures c.region == Strip(row.region) && c.year == ReportingYear
    ensures c.temperature == NormalizeMeasure(row.temperature) && c.humidity == NormalizeMeasure(row.humidity)
    ensures forall m | 1 <= m <= 12 :: c.month == Some(m) <==> row.monthName == MonthName(m)
    ensures c.month.Some? <==> exists m | 1 <= m <= 12 :: row.monthName == MonthName(m)
  {
    var c := Climate(Strip(row.region), ReportingYear, MonthNumber(row.monthName),
      NormalizeMeasure(row.temperature), NormalizeMeasure(row.humidity));
    assert c.month.Some? ==> row.monthName == MonthName(c.month.value) by {
      if c.month.Some? { MonthNumberBijective(row.monthName, c.month.value); }
    }
    assert forall m | 1 <= m <= 12 :: c.month == Some(m) <==> row.monthName == MonthName(m) by {
      forall m | 1 <= m <= 12 ensures c.month == Some(m) <==> row.monthName == MonthName(m) {
        MonthNumberBijective(row.monthName, m);
      }
    }
    assert (exists m | 1 <= m <= 12 :: row.monthName == MonthName(m)) ==> c.month.Some? by {
      if exists m | 1 <= m <= 12 :: row.monthName == MonthName(m) {
        var m :| 1 <= m <= 12 && row.monthName == MonthName(m);
        MonthNumberBijective(row.monthName, m);
      }
    }
    c
  }

  /** Climate cleaning never fails: every row is kept, an unknown month name
      only leaves the month missing. */
  function CleanClimate(raw: seq<RawClimate>): (r: seq<Climate>)
    ensures |r| == |raw|
    ensures forall i | 0 <= i < |raw| :: r[i] == CleanClimateRow(raw[i])
  {
    seq(|raw|, i requires 0 <= i < |raw| => CleanClimateRow(raw[i]))
  }

  // ---------------------------------------------------------------------
  // Population
  // ---------------------------------------------------------------------

  /** Population cleaning (data_processing.py, lines 95-97): growth rate
      normalized, label stripped, year stamped; rows are kept one for one. */
  function CleanPopulation(raw: seq<RawPopulation>): (r: seq<Population>)
    ensures |r| == |raw|
    ensures forall i | 0 <= i < |raw| ::
      r[i] == Population(Strip(raw[i].region), ReportingYear, raw[i].population, NormalizeMeasure(raw[i].growth))
  {
    seq(|raw|, i requires 0 <= i < |raw| =>
      Population(Strip(raw[i].region), ReportingYear, raw[i].population, NormalizeMeasure(raw[i].growth)))
  }

  // ---------------------------------------------------------------------
  // The stage
  // ---------------------------------------------------------------------

  datatype CleanTables = CleanTables(consumption: seq<DailyConsumption>, population: seq<Population>, climate: seq<Climate>)

  /** `clean_data`: `None` exactly when a consumption date cell is neither a
      date nor `NaT`; climate and population cleaning cannot fail. */
  function CleanData(raw: RawTables): (r: Option<CleanTables>)
    ensures r.Some? <==> forall i | 0 <= i < |raw.consumption| :: ReadableDate(raw.consumption[i].date)
    ensures r.Some? ==> |r.value.population| == |raw.population| && |r.value.climate| == |raw.climate|
    ensures r.Some? ==> StrictlySorted(r.value.consumption) && CalendarFieldsAgree(r.value.consumption)
    ensures r.Some? ==> KeySet(r.value.consumption) == RawConsumptionKeys(raw.consumption)
    ensures r.Some? ==> forall i | 0 <= i < |r.value.consumption| ::
      r.value.consumption[i].total == RawTotal(raw.consumption, DailyKey(r.value.consumption[i]))
    ensures r.Some? ==> r.value.population == CleanPopulation(raw.population) && r.value.climate == CleanClimate(raw.climate)
  {
    match CleanConsumption(raw.consumption)
    case None => None
    case Some(daily) =>
      assert forall i | 0 <= i < |daily| :: daily[i].total == TotalOf(daily, DailyKey(daily[i])) by {
        forall i | 0 <= i < |daily| ensures daily[i].total == TotalOf(daily, DailyKey(daily[i])) {
          TotalOfAt(daily, i);
        }
      }
      Some(CleanTables(daily, CleanPopulation(raw.population), CleanClimate(raw.climate)))
  }
}
