# peaksense data processing, modelled in Dafny

This project models the data-processing pipeline of peaksense
(`src/data_processing.py`). The pipeline turns three raw tables into the
daily "master dataset" that the forecasting model is trained on:

- electricity consumption readings per day and submarket;
- regional population with growth rates;
- monthly temperature and humidity per region.

It runs in four stages, and `main` stops at the first one that returns
`None`:

1. **Load.** National and total rows are dropped from the population file.
2. **Clean** (`clean_data`).
   - Locale-formatted numbers are coerced: `"1.234,56"` becomes 1234.56.
   - Consumption dates are parsed as `dd/mm/yyyy`, and region labels are
     stripped. A missing or `NaT` date cell becomes `NaT`; any other cell
     that is not a date fails the stage.
   - Readings are summed per (day, region). Rows whose date is `NaT` or
     whose submarket is missing belong to no group.
   - Portuguese month names are mapped to 1..12, and the year 2024 is
     stamped on climate and population.
3. **Harmonize** (`harmonize_regions`). The `Sudeste` and `Centro-Oeste`
   regions are merged into `Sudeste/Centro-Oeste`, to match the consumption
   submarkets.
   - The populations are added.
   - Temperature and humidity become population-weighted averages, month by
     month.
4. **Features** (`create_features`).
   - Two left joins attach climate by (region, year, month) and population
     by (region, year).
   - Calendar features are derived from the date: weekday with Monday = 0,
     day of month, ISO week, month and quarter.
   - A holiday flag is added, and the twelve output columns are selected in
     a fixed order.

Each stage is a pure function over sequences of immutable rows. A pandas
missing value (NaN) and a Python `None` return are both `Option.None`, and
numbers are exact `real`s.

| file | module | contents |
|---|---|---|
| `options.dfy` | `Options` | `Option`, and the boolean-mask selection `Filter` |
| `text.dfy` | `Text` | `str.strip`, `str.replace` for one character, and case-insensitive substring search |
| `locale_number.dfy` | `LocaleNumber` | `pd.to_numeric(errors='coerce')` and the two locale normalizers |
| `calendar.dfy` | `Calendar` | the Gregorian calendar, weekday, ISO week, quarter, and the `%d/%m/%Y` parser |
| `ordering.dfy` | `Ordering` | the (date, region) order in which `groupby` emits its groups |
| `tables.dfy` | `Tables` | one datatype per row kind, and the cell texts `read_csv` loads as missing |
| `loading.dfy` | `Loading` | the population filter of `load_raw_data` |
| `cleaning.dfy` | `Cleaning` | `clean_data` |
| `harmonize.dfy` | `Harmonize` | `harmonize_regions` |
| `features.dfy` | `Features` | `create_features`, built on a generic `LeftJoin` |
| `pipeline.dfy` | `Pipeline` | `main`, and the end-to-end properties |

## Behaviour of the code worth knowing

- **Unknown month names.** The month map (`data_processing.py`, line 85) gives an unknown month
  name a missing month, and cleaning carries on (`Cleaning.CleanClimateRow`).
- **No region-set check.** `harmonize_regions` never compares the region
  sets of the two harmonized tables. `Harmonize.HarmonizedRegionsMatch`
  proves when the sets agree, but the model performs no check either.
- **Climate alignment.** The weighted climate block is built by pandas
  index alignment of the two sub-regions' month-indexed series, not by
  pairing rows month by month:
  - When the two month indexes are equal, rows are paired by position.
  - When one sub-region has no climate rows at all, the block keeps the
    other sub-region's month index as it is: file order, repeated and
    missing months included, with every weighted value missing. This is
    what `Index.join` does in pandas 2.0 and 2.1.
  - Otherwise the block has one row per month in the sorted union of both
    indexes.
  - A month that only one sub-region has gets missing values.
- **`NaT` dates.** `to_datetime` (`data_processing.py`, line 67) turns a date cell that
  `read_csv` loaded as missing, or one spelled `NaT`, `nat`, `NAT`, `nan`,
  `NaN` or `NAN`, into `NaT` instead of raising. `groupby` (line 74) then
  drops such rows, and rows with a missing submarket, from every group
  (`Cleaning.NaTRowDropped`).

## Model

| member | source | states |
|---|---|---|
| Options.AllPresent | src/data_processing.py:67 | a column conversion succeeds iff every cell converts, and then yields every converted cell in order |
| Options.Filter | src/data_processing.py:115 | a mask selection keeps exactly the rows satisfying the mask, each with its multiplicity, and no other row |
| Options.FilterAppend | src/data_processing.py:140-141 | selection distributes over concatenation, so row order is kept |
| Options.FilterKeepsApart | src/data_processing.py:115 | any property "no two rows clash" survives a selection |
| Text.Strip | src/data_processing.py:71 | the result is the input with whitespace-only margins removed, and neither end of it is whitespace |
| Text.StripPadded | src/data_processing.py:71 | stripping a label padded with whitespace on both sides gives back the label |
| Text.StripIdempotent | src/data_processing.py:87 | stripping twice is the same as stripping once |
| Text.ReplaceChar | src/data_processing.py:65 | every occurrence of the character is replaced, the length is unchanged, and every other character stays put |
| Text.RemoveChar | src/data_processing.py:65 | the character no longer occurs, and every other character keeps its multiplicity |
| Text.RemoveCharAppend | src/data_processing.py:65 | removing a character distributes over concatenation |
| Text.ReplaceCharAppend | src/data_processing.py:65 | replacing a character distributes over concatenation |
| Text.ContainsFolded | src/data_processing.py:42 | the search is true iff the pattern matches, case-folded, at some position of the text |
| LocaleNumber.ParseNumber | src/data_processing.py:66 | accepted text is non-empty decimal-point text: an optional sign, digits, at most one '.', digits, with a digit somewhere; it reads as exactly the value that text denotes, non-positive after a '-' |
| LocaleNumber.NumberOfText | src/data_processing.py:66 | conversely, every decimal-point text is accepted and reads as its value |
| LocaleNumber.TwoPointsRejected | src/data_processing.py:66 | text with two '.' characters is not a number: the conversion gives a missing value |
| LocaleNumber.NormalizeConsumption | src/data_processing.py:65-66 | a reading is accepted only when, with every '.' dropped, it is decimal text with a ',' separator, and it then reads as that text's value |
| LocaleNumber.ConsumptionOfText | src/data_processing.py:65-66 | conversely, a reading that is comma-decimal text once its '.'s are dropped reads as that text's value |
| LocaleNumber.NormalizeMeasure | src/data_processing.py:82-83 | a temperature, humidity or growth cell is accepted only as decimal text whose separator is ',' or '.', and it then reads as that text's value |
| LocaleNumber.MeasureOfText | src/data_processing.py:82-83 | conversely, decimal text with a ',' or '.' separator reads as its value |
| LocaleNumber.ConsumptionRoundTrip | src/data_processing.py:65-66 | any number written with '.' thousands grouping and a ',' decimal reads back as exactly its value |
| LocaleNumber.MeasureRoundTrip | src/data_processing.py:82-83 | any ungrouped number written with a ',' decimal reads back as exactly its value |
| LocaleNumber.MeasureRejectsGrouping | src/data_processing.py:82-83 | a thousands-grouped number with a decimal part is missing under the climate normalizer |
| LocaleNumber.NonNumericIsMissing | src/data_processing.py:66 | text holding a letter or other non-numeric character is missing under both normalizers, never an error |
| LocaleNumber.ConsumptionExample | src/data_processing.py:65-66 | "1.234,56" is 1234.56 |
| LocaleNumber.MeasureExample | src/data_processing.py:82-83 | "25,3" is 25.3 |
| LocaleNumber.NonNumericExample | src/data_processing.py:66 | "abc" is missing under both normalizers |
| LocaleNumber.TwoPointsExample | src/data_processing.py:66 | "1.2.3" is not a number |
| Calendar.DaysInMonth | src/data_processing.py:67 | months have 28 to 31 days, and 29 exactly for February of a leap year |
| Calendar.OrdinalNextDay | src/data_processing.py:178 | consecutive days have consecutive ordinals |
| Calendar.Weekday | src/data_processing.py:178 | the weekday is in 0..6 |
| Calendar.WeekdayNextDay | src/data_processing.py:178 | the weekday advances by one, cyclically, from each day to the next |
| Calendar.IsoWeek | src/data_processing.py:180 | the ISO week number is in 1..53 |
| Calendar.Quarter | src/data_processing.py:182 | the quarter is the q in 1..4 with 3(q-1) < month <= 3q |
| Calendar.CalendarExample | src/data_processing.py:178-182 | 2024-03-15 is a Friday (4) in ISO week 11 of quarter 1 |
| Calendar.ParseDate | src/data_processing.py:67 | a parsed date is a real calendar day within the nanosecond Timestamp range, and the text spells it as day '/' month '/' four-digit year |
| Calendar.ParseDateOfText | src/data_processing.py:67 | conversely, text spelling a day, month and year in those fields parses to that date exactly when it is a real day in the Timestamp range, and fails otherwise |
| Calendar.NoSuchDayExample | src/data_processing.py:67 | "31/02/2024" fails to parse |
| Calendar.DateCharacters | src/data_processing.py:67 | text that parses holds only digits, spaces and '/' |
| Calendar.ParseFormatDate | src/data_processing.py:67 | every representable day, written as zero-padded dd/mm/yyyy, parses back to itself |
| Ordering.KeyLtTransitive | src/data_processing.py:74 | the group order is transitive |
| Ordering.KeyLtTotal | src/data_processing.py:74 | any two different groups are ordered one way or the other |
| Loading.DropAggregateRows | src/data_processing.py:42 | exactly the rows whose label contains neither "brasil" nor "total" in any letter case are kept, with their multiplicities |
| Loading.LoadRawData | src/data_processing.py:28-57 | loading fails iff a file cannot be read; it leaves consumption and climate as read, and the population table is exactly the file's non-aggregate rows, in order |
| Loading.AggregateLabelExamples | src/data_processing.py:42 | "Brasil", "TOTAL" and "Total Geral" are dropped |
| Loading.RegionLabelExamples | src/data_processing.py:42 | "Sudeste" and "Norte" are kept |
| Cleaning.CleanReading | src/data_processing.py:65-71 | a consumption row converts iff its date cell is a date or `NaT`, and then has the raw row's (date, stripped label) group, none for a `NaT` date or missing label, and the normalized reading |
| Cleaning.CleanReadings | src/data_processing.py:64-71 | the column converts iff every date cell is a date or `NaT`, and then row by row |
| Cleaning.ReadDate | src/data_processing.py:67 | a date cell becomes `NaT` iff it was loaded as missing or spells `NaT`, becomes day d iff it parses to d, and otherwise fails |
| Cleaning.NaTTextIsNoDate | src/data_processing.py:67 | no `NaT` text parses as a date |
| Cleaning.AddReading | src/data_processing.py:74 | adding a reading to the grouped table keeps it sorted with distinct keys, adds the key, and raises that key's total alone, by the reading |
| Cleaning.Aggregate | src/data_processing.py:74 | the grouped table is sorted by (date, region), its keys are exactly the readings' keys, and each key's total is the sum of its readings, a missing reading counting 0 |
| Cleaning.AggregateRows | src/data_processing.py:74 | no two grouped rows share a (date, region), and each row's total is the sum of the readings with its key |
| Cleaning.SumForAppend | src/data_processing.py:74 | per-key sums add up over concatenated readings |
| Cleaning.CoercedSum | src/data_processing.py:65-74 | the per-key sum of the converted readings is the per-key sum of the raw rows' normalized readings |
| Cleaning.CoercedKeys | src/data_processing.py:67-71 | the converted readings' groups are the raw rows' groups: a parsed date paired with a stripped label, for each row with a date and a label |
| Cleaning.CleanConsumption | src/data_processing.py:64-78 | consumption cleaning fails iff some date cell is neither a date nor `NaT`; otherwise it has one sorted row per raw group, the year and month of its date, and the total of the group's normalized readings |
| Cleaning.NaTRowDropped | src/data_processing.py:67-74 | appending a row whose date is `NaT` changes the cleaned table not at all |
| Cleaning.NaTExample | src/data_processing.py:67-74 | a file holding only a `NaT` row cleans to an empty table |
| Cleaning.MonthNumber | src/data_processing.py:84-85 | a month number, when present, is in 1..12 |
| Cleaning.MonthNumberBijective | src/data_processing.py:84-85 | each of the twelve names maps to its own month, and only that name maps to it |
| Cleaning.CleanClimateRow | src/data_processing.py:82-87 | a climate row keeps its stripped region, is stamped 2024, has its temperature and humidity normalized, and has month m iff its month name is m's name, no month for any other name |
| Cleaning.CleanClimate | src/data_processing.py:80-91 | climate cleaning never fails and keeps every row, one for one |
| Cleaning.CleanPopulation | src/data_processing.py:94-101 | population cleaning never fails; it keeps every row with its label stripped, its population as read, the growth normalized and the year 2024 |
| Cleaning.CleanData | src/data_processing.py:59-103 | the stage fails iff a consumption date cell is neither a date nor `NaT`; otherwise it gives sorted, key-unique daily totals equal to the raw sums, and the climate and population tables cleaned row for row |
| Harmonize.FirstPopulation | src/data_processing.py:111-112 | the lookup fails iff no row has the region, and otherwise gives the population of the first such row |
| Harmonize.HarmonizePopulation | src/data_processing.py:110-120 | it fails iff a sub-region is absent; otherwise it gives the rows of the other regions, in order, followed by one merged row holding the sum of the sub-regions' first populations |
| Harmonize.PopulationConserved | src/data_processing.py:111-116 | with unique labels, harmonization keeps the total population |
| Harmonize.HarmonizedPopulationRegions | src/data_processing.py:114-116 | the harmonized regions are the original ones with the two sub-regions replaced by the merged label |
| Harmonize.HarmonizedPopulationUnique | src/data_processing.py:114-116 | unique region labels stay unique |
| Harmonize.WeightedAverage | src/data_processing.py:132-133 | the average is missing iff a value is missing or both weights are 0; otherwise it solves the weighted equation, lies between the two values, and equals them when they are equal |
| Harmonize.InsertLabel | src/data_processing.py:132 | inserting a label keeps the labels sorted, missing last, and adds exactly that label |
| Harmonize.SortedUnion | src/data_processing.py:132 | the union index is sorted and holds exactly the given labels |
| Harmonize.RowFor | src/data_processing.py:132 | a label lookup finds the first row with that month, and fails iff no row has it |
| Harmonize.MergedBlock | src/data_processing.py:129-138 | every merged row carries the merged label and the year 2024, and the block's months are the union of both sub-regions' months; when one sub-region has no rows the block's months are the other's in order and every value is missing |
| Harmonize.OneSidedBlock | src/data_processing.py:132-137 | with one side empty, the other side's month index is kept unchanged, duplicates and missing labels included, and all weighted values are missing |
| Harmonize.OneSidedBlockAgrees | src/data_processing.py:132-137 | with one side empty and distinct months, each row is the weighted combination of the rows for its month, one of them absent |
| Harmonize.AlignedBlock | src/data_processing.py:132-137 | with equal indexes, the sub-region rows are combined position by position |
| Harmonize.UnionBlock | src/data_processing.py:132-137 | with different indexes, there is one merged row per label of the sorted union, with a side lacking the label counting as missing |
| Harmonize.MergedBlockAgrees | src/data_processing.py:129-138 | when a sub-region's months are distinct, each merged row is the weighted average of the two sub-regions' rows for its month |
| Harmonize.HarmonizeClimate | src/data_processing.py:129-141 | no sub-region row remains, and every row of another region is kept with its multiplicity |
| Harmonize.ClimateSplit | src/data_processing.py:140-141 | the harmonized climate is the other regions' rows, in order, followed by the merged block |
| Harmonize.HarmonizedClimateUnique | src/data_processing.py:135-141 | unique (region, month) keys stay unique |
| Harmonize.MergedClimateRows | src/data_processing.py:129-141 | every sub-region month gets a merged row, and each merged row is the weighted combination of the sub-regions' rows for that month |
| Harmonize.HarmonizedClimateRegions | src/data_processing.py:140-141 | the harmonized climate regions are the original ones with the two sub-regions replaced by the merged label |
| Harmonize.PreHarmonizationWeights | src/data_processing.py:124-127 | the two weights are the populations of the first Sudeste and the first Centro-Oeste rows of the table before harmonization |
| Harmonize.HarmonizeRegions | src/data_processing.py:105-147 | the stage fails iff a sub-region has no population row; the climate weights are read from the population table before it was harmonized |
| Harmonize.HarmonizedRegionsMatch | src/data_processing.py:105-147 | if both tables had the same regions apart from the two sub-regions, the harmonized tables have the same regions |
| Harmonize.WeightedClimateExample | src/data_processing.py:124-141 | 30 °C / 80 % for 100 people and 24 °C / 50 % for 50 people merge to 28 °C / 70 %, and the other region is untouched |
| Features.Matches | src/data_processing.py:159-164 | the matches of a row are the mask selection of the right table by the row's key: exactly the right-hand rows that match it, each as often as in the right table, and there is one iff some right-hand row matches |
| Features.MatchesAppend | src/data_processing.py:159-164 | matching distributes over concatenated right tables, so matches keep the right-hand order |
| Features.MatchesSingle | src/data_processing.py:159-164 | when no two right rows match a row, it has at most one match |
| Features.JoinRow | src/data_processing.py:159-164 | a left row with no match gives one row with the right side missing; otherwise it gives one row per match, pairing it with the matches in right-hand order |
| Features.LeftJoin | src/data_processing.py:159-172 | every left row survives; each output row pairs a left row with a matching right row, or with nothing only when nothing matches; each matching pair occurs once per pair of occurrences, and an unmatched left row once per occurrence |
| Features.LeftJoinPreservesRows | src/data_processing.py:159-172 | when each left row matches at most once, the join keeps the left rows one for one, in order |
| Features.ToMaster | src/data_processing.py:178-203 | the calendar fields are the date's weekday (0..6), day, ISO week (1..53), month (1..12) and quarter (1..4), and the holiday flag is membership of the holiday set |
| Features.CreateFeatures | src/data_processing.py:152-206 | every master row is some day's row enriched: its total, the matching climate and population or missing when there is none, and the calendar features |
| Features.OneMasterRowPerDay | src/data_processing.py:159-172 | with unique join keys, the master table has exactly one enriched row per daily row, in order |
| Features.OtherYearsMissing | src/data_processing.py:159-172 | days outside 2024 get missing climate and population, because both tables carry the year 2024 |
| Pipeline.Run | src/data_processing.py:211-233 | a run stops at load iff a file cannot be read, at cleaning iff a consumption date cell is neither a date nor `NaT`, and at harmonization iff a sub-region has no population row; otherwise the table is written |
| Pipeline.RunLoaded | src/data_processing.py:220-233 | after loading, a run stops at cleaning iff a date cell is neither a date nor `NaT`, and at harmonization iff the cleaned population lacks a sub-region |
| Pipeline.RunCleaned | src/data_processing.py:225-233 | after cleaning, a run stops iff the population lacks a sub-region |
| Pipeline.LoadedRegionCleaned | src/data_processing.py:42 | a sub-region reaches harmonization iff some non-aggregate population row carries its label once stripped |
| Pipeline.RunWritesEveryDay | src/data_processing.py:211-237 | a written table has exactly the raw (day, region) keys, each row's y is the sum of that key's raw readings, and its calendar features are right |
| Pipeline.MasterFromDays | src/data_processing.py:152-206 | the master table's keys are the daily table's, and each y is the raw total for its key |
| Pipeline.MasterKeysDistinct | src/data_processing.py:159-172 | with unique join keys, no two master rows share a (day, region) |
| Pipeline.DistinctKeysCount | src/data_processing.py:74 | a table with distinct keys has as many rows as keys |
| Pipeline.OneRowPerDayAndRegion | src/data_processing.py:211-237 | with unique population and climate keys, a written table has exactly one row per raw (day, region) key |

## Left out

- **File I/O.** CSV reading and writing, encodings, separators, directory
  creation and printing are not modelled. The parsed tables are inputs, the
  master table is the result, and a file that cannot be read is
  `files == None`.
- **Exceptions.** The model does not distinguish exception types. Each
  `try`/`except` that returns `None` is modelled by the condition that makes
  it raise.
- **Holidays.** The `holidays` library's Brazilian calendar is a foreign
  call. The holiday set is a parameter.
- **Floating point.** IEEE arithmetic is not modelled: values are exact
  reals.
- **`to_numeric` grammar.** The model accepts optional sign, digits, at
  most one '.' and more digits. Exponents, `inf`/`nan` words and
  surrounding whitespace are not modelled.
- **Date digits.** The `%d/%m/%Y` parser takes ASCII digits only.
  `strptime` also accepts other Unicode decimal digits.
- **Case folding.** The case-insensitive filter folds ASCII letters plus
  the four non-ASCII characters that fold to ASCII letters. Other Unicode
  case pairs are not modelled, since neither pattern contains them.
- **Missing population and climate cells.** A missing consumption
  submarket is modelled: its rows join no group. A missing population or
  climate region label is not. It would be kept by `na=False` and by the
  joins, and the model carries it as the text the file held. A missing
  population count is not modelled either: populations are naturals.
- **pandas version.** The source pins no pandas version. The missing-cell
  texts of `read_csv` and the `NaT` spellings of `to_datetime` are those of
  pandas 2.
- Cleaning.ReadDate: pandas 2's `to_datetime` reads the texts `now` and
  `today` as the current time. That is a clock read, and the model has no
  clock, so it treats these texts as unreadable dates. The "fails iff"
  clauses of `Cleaning.CleanReading`, `CleanReadings`, `CleanConsumption`,
  `CleanData`, `Pipeline.Run` and `RunLoaded` inherit this: such a file
  stops the model at cleaning, where pandas would go on with today's date.
- **Numeric columns read as numbers.** When `read_csv` has already parsed a
  column as numbers, `.str` raises. The model treats every raw cell as text.
- **Duplicate months within a sub-region.** When both sub-regions have
  rows, pandas alignment of a non-unique month index produces a cross
  product of rows. The model looks up the first row per month. (With one
  sub-region empty, the repeated months are kept, as pandas keeps them.) `Harmonize.MergedBlockAgrees` assumes
  distinct months.
- **Duplicate sub-region population labels.** `pop_lookup[...]` with a
  duplicated label returns a series and makes the weighted block fail or
  widen. The model takes the first row, as lines 111-112 do.
- Harmonize.PreHarmonizationWeights: uses the first population row of each
  sub-region, which agrees with lines 124-126 only when the labels are
  unique.
- **Empty result.** `create_features` never returns `None`, so the check
  after it is unreachable, and `Pipeline.Run` has no stage for it.
- Calendar.IsoWeek: its contract states only the range 1..53 and the worked
  example. The full ISO-8601 week definition is computed, not restated as a
  separate definition.
- Features.CreateFeatures: with duplicate right-hand keys the join
  multiplies rows. Its contract then states only that every output row
  enriches some day's row and that every day appears. How often each pair
  occurs is stated by `Features.LeftJoin`, for each of the two joins, and
  is not restated for the master rows.
