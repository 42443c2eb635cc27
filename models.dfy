/**
 * The two tables of the store. A `station_data` row is one station's measurements on one
 * date; a `station_summary` row is one station's statistics for one calendar year. In both,
 * `id` is the integer primary key, the natural key is non-null and unique, and the measured
 * or derived columns are nullable (None is SQL NULL) and default to NULL.
 */
module Models {
  import opened Wrappers
  import opened Upsert

  /** A calendar date (year, month, day). */
  datatype Date = Date(year: int, month: int, day: int)

  /** Natural key of `station_data`: the UNIQUE (station_id, date) constraint. */
  datatype DailyKey = DailyKey(stationId: string, date: Date)

  /** The nullable measurement columns of `station_data`. */
  datatype Measurements = Measurements(maxTemp: Option<real>, minTemp: Option<real>, totalPrecip: Option<real>)

  /** Natural key of `station_summary`: the UNIQUE (station_id, year) constraint. */
  datatype SummaryKey = SummaryKey(stationId: string, year: int)

  /** The nullable derived columns of `station_summary`. */
  datatype Stats = Stats(avgMaxTemp: Option<real>, avgMinTemp: Option<real>, cumulativePrecip: Option<real>)

  type StationData = Row<DailyKey, Measurements>
  type StationSummary = Row<SummaryKey, Stats>

  /** A record as the loader hands it to the daily upsert: every column but `id`. */
  type Record = Entry<DailyKey, Measurements>

  /** One row of the yearly aggregation query. */
  type SummaryRecord = Entry<SummaryKey, Stats>
}
