/**
 * The end-to-end scenario of the repository's tests (tests/conftest.py, tests/test_scripts.py):
 * two station files with three days of January 1985 each, loaded into empty tables and then
 * summarized. The tests write the files as `.txt`, which the loader skips (Reader.TxtFileSkipped);
 * here they are named `.csv` so that they are read.
 */
module Fixtures {
  import opened Wrappers
  import opened Upsert
  import opened Models
  import opened Reader
  import opened Aggregation
  import opened Loader
  import opened Summarizer

  const StationA: string := "USC00331541"
  const StationB: string := "USC00123456"

  function Jan1985(day: int): Date { Date(1985, 1, day) }

  const RowsA: seq<RawRow> := [
    RawRow(Jan1985(1), 1.0, 0.0, 1.0),
    RawRow(Jan1985(2), 2.0, -2.0, 4.0),
    RawRow(Jan1985(3), 0.0, -9999.0, 1.0)]

  const RowsB: seq<RawRow> := [
    RawRow(Jan1985(1), 0.0, -1.0, 2.0),
    RawRow(Jan1985(2), 0.0, -2.0, 2.0),
    RawRow(Jan1985(3), 0.0, -3.0, -9999.0)]

  /** The directory listing, in the order that gives the expected ids. */
  function Files(): seq<StationFile> {
    [StationFile(StationB + ".csv", RowsB), StationFile(StationA + ".csv", RowsA)]
  }

  function M(maxTemp: Option<real>, minTemp: Option<real>, totalPrecip: Option<real>): Measurements {
    Measurements(maxTemp, minTemp, totalPrecip)
  }

  function RecordsB(): seq<Record> {
    [Entry(DailyKey(StationB, Jan1985(1)), M(Some(0.0), Some(-1.0), Some(2.0))),
     Entry(DailyKey(StationB, Jan1985(2)), M(Some(0.0), Some(-2.0), Some(2.0))),
     Entry(DailyKey(StationB, Jan1985(3)), M(Some(0.0), Some(-3.0), None))]
  }

  function RecordsA(): seq<Record> {
    [Entry(DailyKey(StationA, Jan1985(1)), M(Some(1.0), Some(0.0), Some(1.0))),
     Entry(DailyKey(StationA, Jan1985(2)), M(Some(2.0), Some(-2.0), Some(4.0))),
     Entry(DailyKey(StationA, Jan1985(3)), M(Some(0.0), None, Some(1.0)))]
  }

  /** The expected `station_data` table: ids 1..6 in load order, the sentinels stored as NULL. */
  function DailyB(): seq<StationData> {
    [Row(1, DailyKey(StationB, Jan1985(1)), M(Some(0.0), Some(-1.0), Some(2.0))),
     Row(2, DailyKey(StationB, Jan1985(2)), M(Some(0.0), Some(-2.0), Some(2.0))),
     Row(3, DailyKey(StationB, Jan1985(3)), M(Some(0.0), Some(-3.0), None))]
  }

  function DailyA(): seq<StationData> {
    [Row(4, DailyKey(StationA, Jan1985(1)), M(Some(1.0), Some(0.0), Some(1.0))),
     Row(5, DailyKey(StationA, Jan1985(2)), M(Some(2.0), Some(-2.0), Some(4.0))),
     Row(6, DailyKey(StationA, Jan1985(3)), M(Some(0.0), None, Some(1.0)))]
  }

  function ExpectedDaily(): seq<StationData> { DailyB() + DailyA() }

  /** The expected `station_summary` table. */
  function ExpectedSummary(): seq<StationSummary> {
    [Row(1, SummaryKey(StationB, 1985), Stats(Some(0.0), Some(-2.0), Some(4.0))),
     Row(2, SummaryKey(StationA, 1985), Stats(Some(1.0), Some(-1.0), Some(6.0)))]
  }

  lemma StationsDiffer()
    ensures StationA != StationB
  {
    assert StationA[5] != StationB[5];
  }

  lemma ReadFixtureFile(id: string, rows: seq<RawRow>, recs: seq<Record>)
    requires '.' !in id && |recs| == |rows|
    requires forall i :: 0 <= i < |rows| ==> recs[i].key == DailyKey(id, rows[i].date) && Normalised(recs[i].fields, rows[i])
    ensures ReadData(id + ".csv", rows) == Success(recs)
  {
    AsWrittenRejectsCsv(id, rows);
    var got := ReadData(id + ".csv", rows).value;
    forall i | 0 <= i < |rows| ensures got[i] == recs[i] {
      var m, n := got[i].fields, recs[i].fields;
      assert m.maxTemp == n.maxTemp && m.minTemp == n.minTemp && m.totalPrecip == n.totalPrecip;
    }
    assert got == recs;
  }

  /** Reading the two files in listing order yields their six records, and no error. */
  lemma FixtureRead()
    ensures ReadFiles(Files()) == (RecordsB() + RecordsA(), None)
  {
    assert '.' !in StationA && '.' !in StationB;
    ReadFixtureFile(StationB, RowsB, RecordsB());
    ReadFixtureFile(StationA, RowsA, RecordsA());
    var fs := Files();
    ReadFilesPrefix(fs, 0);
    ReadFilesPrefix(fs, 1);
    assert fs[..0] == [] && fs[..2] == fs;
    assert [] + RecordsB() == RecordsB();
  }

  /** Upserting the six records into an empty `station_data` gives the expected rows with ids 1..6. */
  lemma FixtureDaily()
    ensures UpsertAll(Empty(), RecordsB() + RecordsA()) == TableState(ExpectedDaily(), 7)
  {
    var recs := RecordsB() + RecordsA();
    StationsDiffer();
    assert forall a, b :: 0 <= a < b < |recs| ==> recs[a].key != recs[b].key;
    UpsertDistinctIntoEmpty(recs);
    var t, d := UpsertAll(Empty(), recs), ExpectedDaily();
    forall i | 0 <= i < 6 ensures t.rows[i] == d[i] {
    }
    assert t.rows == d;
  }

  const GroupB := SummaryKey(StationB, 1985)
  const GroupA := SummaryKey(StationA, 1985)

  /** Rows of exactly two groups, the first row in the first of them, list those two groups in that order. */
  lemma TwoGroups(rows: seq<StationData>, g1: SummaryKey, g2: SummaryKey, k: int)
    requires g1 != g2 && 0 <= k < |rows| && GroupOf(rows[k]) == g2
    requires rows != [] && GroupOf(rows[0]) == g1
    requires forall i :: 0 <= i < |rows| ==> GroupOf(rows[i]) == g1 || GroupOf(rows[i]) == g2
    ensures Groups(rows) == [g1, g2]
  {
    var gs := Groups(rows);
    GroupsStartWithFirstRow(rows);
    assert forall j :: 0 <= j < |gs| ==> gs[j] == g1 || gs[j] == g2 by {
      forall j | 0 <= j < |gs| ensures gs[j] == g1 || gs[j] == g2 {
        assert gs[j] in gs;
      }
    }
    assert g2 in gs;
    var j2 :| 0 <= j2 < |gs| && gs[j2] == g2;
    assert 2 <= |gs|;
    assert gs[1] == g2;
    var last := |gs| - 1;
    assert gs[last] == g1 || gs[last] == g2;
    assert last == 1;
  }

  lemma FixtureGroups()
    ensures Groups(ExpectedDaily()) == [GroupB, GroupA]
  {
    StationsDiffer();
    TwoGroups(ExpectedDaily(), GroupB, GroupA, 3);
  }

  lemma NonNullRun(rows: seq<StationData>, g: SummaryKey, c: Column)
    requires |rows| == 3 && forall i :: 0 <= i < 3 ==> GroupOf(rows[i]) == g
    ensures NonNull(rows, g, c) == Present(rows[0], c) + Present(rows[1], c) + Present(rows[2], c)
  {
    var r1, r2 := rows[..1], rows[..2];
    assert r1[..0] == [];
    assert NonNull(r1, g, c) == Present(rows[0], c);
    assert r2[..1] == r1;
    assert NonNull(r2, g, c) == Present(rows[0], c) + Present(rows[1], c);
    assert rows[..2] == r2;
  }

  lemma NonNullFixture(c: Column)
    ensures NonNull(ExpectedDaily(), GroupB, c) == Present(DailyB()[0], c) + Present(DailyB()[1], c) + Present(DailyB()[2], c)
    ensures NonNull(ExpectedDaily(), GroupA, c) == Present(DailyA()[0], c) + Present(DailyA()[1], c) + Present(DailyA()[2], c)
  {
    StationsDiffer();
    NonNullAppend(DailyB(), DailyA(), GroupB, c);
    NonNullAppend(DailyB(), DailyA(), GroupA, c);
    NonNullRun(DailyB(), GroupB, c);
    NonNullRun(DailyA(), GroupA, c);
    NonNullEmpty(DailyA(), GroupB, c);
    NonNullEmpty(DailyB(), GroupA, c);
  }

  lemma SumTwo(a: real, b: real)
    ensures Sum([a, b]) == a + b
  {
    assert [a][..0] == [];
    assert Sum([a]) == a;
    assert [a, b][..1] == [a];
  }

  lemma SumThree(a: real, b: real, c: real)
    ensures Sum([a, b, c]) == a + b + c
  {
    assert [a, b, c][..2] == [a, b];
    SumTwo(a, b);
  }

  lemma FixtureStatsB()
    ensures GroupStats(ExpectedDaily(), GroupB) == Stats(Some(0.0), Some(-2.0), Some(4.0))
  {
    NonNullFixture(MaxTemp);
    NonNullFixture(MinTemp);
    NonNullFixture(TotalPrecip);
    assert NonNull(ExpectedDaily(), GroupB, MaxTemp) == [0.0, 0.0, 0.0];
    assert NonNull(ExpectedDaily(), GroupB, MinTemp) == [-1.0, -2.0, -3.0];
    assert NonNull(ExpectedDaily(), GroupB, TotalPrecip) == [2.0, 2.0];
    SumThree(0.0, 0.0, 0.0);
    SumThree(-1.0, -2.0, -3.0);
    SumTwo(2.0, 2.0);
    Round1Exact(0);
    Round1Exact(-20);
  }

  lemma FixtureStatsA()
    ensures GroupStats(ExpectedDaily(), GroupA) == Stats(Some(1.0), Some(-1.0), Some(6.0))
  {
    NonNullFixture(MaxTemp);
    NonNullFixture(MinTemp);
    NonNullFixture(TotalPrecip);
    assert NonNull(ExpectedDaily(), GroupA, MaxTemp) == [1.0, 2.0, 0.0];
    assert NonNull(ExpectedDaily(), GroupA, MinTemp) == [0.0, -2.0];
    assert NonNull(ExpectedDaily(), GroupA, TotalPrecip) == [1.0, 4.0, 1.0];
    SumThree(1.0, 2.0, 0.0);
    SumTwo(0.0, -2.0);
    SumThree(1.0, 4.0, 1.0);
    Round1Exact(10);
    Round1Exact(-10);
  }

  /**
   * Summarizing the expected daily table into an empty `station_summary` gives one row per
   * station for 1985 with the expected averages and totals; two rows are touched.
   */
  lemma FixtureSummary()
    ensures UpsertAll(Empty(), SelectSummaries(ExpectedDaily())) == TableState(ExpectedSummary(), 3)
    ensures |GroupSet(ExpectedDaily())| == 2
  {
    var d := ExpectedDaily();
    FixtureGroups();
    GroupCount(d);
    FixtureSummaryRows();
  }

  lemma FixtureSummaryRows()
    requires Groups(ExpectedDaily()) == [GroupB, GroupA]
    ensures UpsertAll(Empty(), SelectSummaries(ExpectedDaily())) == TableState(ExpectedSummary(), 3)
  {
    FixtureStatsB();
    FixtureStatsA();
    SummaryOfTwoGroups(ExpectedDaily());
  }

  lemma SummaryOfTwoGroups(rows: seq<StationData>)
    requires Groups(rows) == [GroupB, GroupA]
    requires GroupStats(rows, GroupB) == Stats(Some(0.0), Some(-2.0), Some(4.0))
    requires GroupStats(rows, GroupA) == Stats(Some(1.0), Some(-1.0), Some(6.0))
    ensures UpsertAll(Empty(), SelectSummaries(rows)) == TableState(ExpectedSummary(), 3)
  {
    SummaryFromEmpty(rows);
    var t := UpsertAll(Empty(), SelectSummaries(rows));
    assert t.rows[0] == ExpectedSummary()[0];
    assert t.rows[1] == ExpectedSummary()[1];
    assert t.rows == ExpectedSummary();
  }
}
