/**
 * `summarize_stations` (scripts/summarize.py): the yearly aggregation query fed into an
 * upsert of `station_summary` keyed by (station_id, year). The daily table is only read.
 */
module Summarizer {
  import opened Wrappers
  import opened Upsert
  import opened Models
  import opened Tables
  import opened Aggregation

  type DailyTable = Table<DailyKey, Measurements>
  type SummaryTable = Table<SummaryKey, Stats>

  /**
   * Runs the INSERT ... SELECT ... ON CONFLICT DO UPDATE statement and returns its change
   * count: one per (station, year) group of the daily table.
   */
  method SummarizeStations(daily: DailyTable, summary: SummaryTable) returns (touched: nat)
    requires summary.Valid()
    modifies summary
    ensures summary.Valid()
    ensures daily.rows == old(daily.rows) && daily.nextId == old(daily.nextId)
    ensures summary.State() == UpsertAll(old(summary.State()), SelectSummaries(daily.rows))
    ensures touched == |GroupSet(daily.rows)|
  {
    var selected := SelectSummaries(daily.rows);
    touched := summary.Upsert(selected);
    GroupCount(daily.rows);
  }

  /**
   * After summarizing, each (station, year) of the daily table is held by exactly one summary
   * row, whose derived columns are that group's statistics.
   */
  lemma OneSummaryPerGroup(s: TableState<SummaryKey, Stats>, rows: seq<StationData>, i: int)
    requires WellFormed(s) && 0 <= i < |rows|
    ensures var t := UpsertAll(s, SelectSummaries(rows));
      var g := GroupOf(rows[i]);
      && Find(t.rows, g).Some?
      && (forall r :: 0 <= r < |t.rows| && t.rows[r].key == g ==> r == Find(t.rows, g).value)
      && t.rows[Find(t.rows, g).value].fields == GroupStats(rows, g)
  {
    var es := SelectSummaries(rows);
    var g := GroupOf(rows[i]);
    var j :| 0 <= j < |es| && es[j].key == g;
    assert es[j].fields == GroupStats(rows, g);
    UpsertAllLastWriteWins(s, es, j);
    LatestOfDistinct(es, j);
  }

  /**
   * Summarizing deletes nothing and keeps every summary row's id and key; a row whose
   * (station, year) has no daily rows is left exactly as it was.
   */
  lemma SummaryKeepsOtherRows(s: TableState<SummaryKey, Stats>, rows: seq<StationData>)
    requires WellFormed(s)
    ensures var t := UpsertAll(s, SelectSummaries(rows));
      && |s.rows| <= |t.rows|
      && forall r :: 0 <= r < |s.rows| ==>
           && t.rows[r].id == s.rows[r].id
           && t.rows[r].key == s.rows[r].key
           && ((forall i :: 0 <= i < |rows| ==> GroupOf(rows[i]) != s.rows[r].key) ==> t.rows[r] == s.rows[r])
  {
    var es := SelectSummaries(rows);
    UpsertAllKeepsOtherRows(s, es);
  }

  /**
   * Into an empty summary table, the groups arrive in order with ids 1..n: one row per
   * distinct (station, year), carrying its statistics.
   */
  lemma SummaryFromEmpty(rows: seq<StationData>)
    ensures var t, gs := UpsertAll(Empty(), SelectSummaries(rows)), Groups(rows);
      && |t.rows| == |gs| && t.nextId == |gs| + 1
      && forall j :: 0 <= j < |gs| ==> t.rows[j] == Row(j + 1, gs[j], GroupStats(rows, gs[j]))
  {
    var es := SelectSummaries(rows);
    assert forall j :: 0 <= j < |es| ==> es[j] == Entry(Groups(rows)[j], GroupStats(rows, Groups(rows)[j]));
    EntriesIntoEmpty(rows, Groups(rows), es);
  }

  lemma EntriesIntoEmpty(rows: seq<StationData>, gs: seq<SummaryKey>, es: seq<SummaryRecord>)
    requires |es| == |gs| && forall j :: 0 <= j < |gs| ==> es[j] == Entry(gs[j], GroupStats(rows, gs[j]))
    requires forall a, b :: 0 <= a < b < |gs| ==> gs[a] != gs[b]
    ensures var t := UpsertAll(Empty(), es);
      && |t.rows| == |gs| && t.nextId == |gs| + 1
      && forall j :: 0 <= j < |gs| ==> t.rows[j] == Row(j + 1, gs[j], GroupStats(rows, gs[j]))
  {
    UpsertDistinctIntoEmpty(es);
  }

  /** Summarizing unchanged daily data a second time leaves the summary table as the first run did. */
  lemma SummarizeTwiceSameAsOnce(s: TableState<SummaryKey, Stats>, rows: seq<StationData>)
    requires WellFormed(s)
    ensures var once := UpsertAll(s, SelectSummaries(rows));
      UpsertAll(once, SelectSummaries(rows)) == once
  {
    UpsertAllIdempotent(s, SelectSummaries(rows));
  }
}
