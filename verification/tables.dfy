/** The tables the pipeline passes from stage to stage, one datatype per row
    kind. Raw cells are text as read from the files; cleaned cells are typed,
    with `None` for a missing (NaN) value. */
module Tables {
  import opened Options
  import opened Calendar

  /** A calendar day that exists: the only kind of value a `datetime64`
      column can hold. */
  type ValidDate = d: Date | IsValid(d) witness Date(2024, 1, 1)

  /** The source covers a single year, stamped as a constant on the climate
      and population tables (data_processing.py, lines 86 and 97). */
  const ReportingYear: int := 2024

  /** A row of the raw consumption file: `Data`, `Submercado`, `Consumo (MWm)`. */
  datatype RawConsumption = RawConsumption(date: string, submarket: string, reading: string)

  /** A row of the raw population file: `Região`, `População 2024`,
      `Crescimento (%)`. */
  datatype RawPopulation = RawPopulation(region: string, population: nat, growth: string)

  /** A row of the raw climate file: `Região`, `Mês`, `Temperatura (°C)`,
      `Umidade (%)`. */
  datatype RawClimate = RawClimate(region: string, monthName: string, temperature: string, humidity: string)

  /** The three raw tables, as loaded. */
  datatype RawTables = RawTables(consumption: seq<RawConsumption>, population: seq<RawPopulation>, climate: seq<RawClimate>)

  /** The cell texts `read_csv` reads as NaN under pandas 2's default
      `na_values`; an empty cell is the empty text. */
  const NaValues: set<string> := {
    "", "#N/A", "#N/A N/A", "#NA", "-1.#IND", "-1.#QNAN", "-NaN", "-nan",
    "1.#IND", "1.#QNAN", "<NA>", "N/A", "NA", "NULL", "NaN", "None", "n/a",
    "nan", "null"}

  /** A raw cell that `read_csv` loads as a missing value. */
  predicate IsMissingCell(s: string) {
    s in NaValues
  }

  /** A cell of a `datetime64` column: a day, or `NaT`. */
  datatype DateCell = Day(day: ValidDate) | NotATime

  /** A consumption reading after type coercion, before aggregation; the
      region is missing when the submarket cell was. */
  datatype Reading = Reading(date: DateCell, region: Option<string>, value: Option<real>)

  /** A row of the aggregated consumption table: one per (date, region),
      with `Ano` and `Mes_Num` derived from the date. */
  datatype DailyConsumption = DailyConsumption(date: ValidDate, region: string, year: int, month: int, total: real)

  /** A cleaned population row; `growth` is `Crescimento_Float`. */
  datatype Population = Population(region: string, year: int, population: nat, growth: Option<real>)

  /** A cleaned climate row; `month` is missing when the month name is not
      one of the twelve known names. */
  datatype Climate = Climate(region: string, year: int, month: Option<int>, temperature: Option<real>, humidity: Option<real>)

  /** A row of the master dataset, its fields in the output column order:
      `ds`, `y`, `Região`, `Temperatura`, `Umidade`, `População 2024`,
      `e_feriado`, `dia_semana`, `dia_mes`, `semana_ano`, `mes`,
      `trimestre`. */
  datatype MasterRow = MasterRow(
    ds: ValidDate,
    y: real,
    region: string,
    temperature: Option<real>,
    humidity: Option<real>,
    population: Option<nat>,
    isHoliday: bool,
    weekday: int,
    dayOfMonth: int,
    isoWeek: int,
    month: int,
    quarter: int)
}
