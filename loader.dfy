/**
 * The ingestion pipeline (scripts/load.py): each station file is read into records, and the
 * records are upserted into `station_data` in statements of at most `chunkSize` rows.
 */
module Loader {
  import opened Wrappers
  import opened Upsert
  import opened Models
  import opened Tables
  import opened Chunking
  import opened Reader

  type DailyTable = Table<DailyKey, Measurements>

  /**
   * `load_data`: upserts `records` into the daily table chunk by chunk and returns the summed
   * change counts. With a positive chunk size the table ends as if all records had been written
   * by one statement, and the count is the number of records, updates counted like inserts.
   * A negative chunk size gives no chunks: nothing is written and the count is 0.
   */
  method LoadData(table: DailyTable, records: seq<Record>, chunkSize: int) returns (rowCount: nat)
    requires table.Valid()
    requires chunkSize != 0
    modifies table
    ensures table.Valid()
    ensures chunkSize > 0 ==> table.State() == UpsertAll(old(table.State()), records) && rowCount == |records|
    ensures chunkSize < 0 ==> table.State() == old(table.State()) && rowCount == 0
  {
    rowCount := 0;
    var chunks := Chunks(records, chunkSize);
    var j := 0;
    while j < |chunks|
      invariant 0 <= j <= |chunks|
      invariant table.Valid()
      invariant table.State() == UpsertAll(old(table.State()), Flatten(chunks[..j]))
      invariant rowCount == |Flatten(chunks[..j])|
    {
      var touched := table.Upsert(chunks[j]);
      UpsertAllAppend(old(table.State()), Flatten(chunks[..j]), chunks[j]);
      assert chunks[..j + 1] == chunks[..j] + [chunks[j]];
      FlattenSnoc(chunks[..j], chunks[j]);
      rowCount := rowCount + touched;
      j := j + 1;
    }
    assert chunks[..j] == chunks;
  }

  /** Reads one more file after `sofar`, unless an earlier file has already failed. */
  function ReadNext(sofar: (seq<Record>, Option<ReadError>), f: StationFile): (seq<Record>, Option<ReadError>) {
    if sofar.1.Some? then sofar
    else match ReadData(f.name, f.rows)
      case Failure(e) => (sofar.0, Some(e))
      case Success(recs) => (sofar.0 + recs, None)
  }

  /**
   * The files read before the first one that fails, their records concatenated in file order,
   * and that failure, if any: what `main` loads before an exception stops it.
   */
  function ReadFiles(files: seq<StationFile>): (seq<Record>, Option<ReadError>)
    decreases |files|
  {
    if files == [] then ([], None)
    else ReadNext(ReadFiles(files[..|files| - 1]), files[|files| - 1])
  }

  lemma ReadFilesPrefix(files: seq<StationFile>, j: nat)
    requires j < |files|
    ensures ReadFiles(files[..j + 1]) == ReadNext(ReadFiles(files[..j]), files[j])
  {
    assert files[..j + 1][..j] == files[..j];
  }

  /** Once a file has failed, later files change nothing. */
  lemma {:induction false} ReadFilesStopsAtFailure(files: seq<StationFile>, n: nat)
    requires n <= |files|
    requires ReadFiles(files[..n]).1.Some?
    ensures ReadFiles(files) == ReadFiles(files[..n])
    decreases |files| - n
  {
    if n < |files| {
      ReadFilesPrefix(files, n);
      ReadFilesStopsAtFailure(files, n + 1);
    } else {
      assert files[..n] == files;
    }
  }

  /** Reading file j after a clean prefix either stops the run with its error or appends its records. */
  lemma ReadStep(files: seq<StationFile>, j: nat, loaded: seq<Record>)
    requires j < |files| && ReadFiles(files[..j]) == (loaded, None)
    ensures var read := ReadData(files[j].name, files[j].rows);
      && (read.Failure? ==> ReadFiles(files) == (loaded, Some(read.error)))
      && (read.Success? ==> ReadFiles(files[..j + 1]) == (loaded + read.value, None))
  {
    ReadFilesPrefix(files, j);
    if ReadData(files[j].name, files[j].rows).Failure? {
      ReadFilesStopsAtFailure(files, j + 1);
    }
  }

  /**
   * A file whose name has no '.' aborts the run; a non-CSV file adds nothing; a CSV file's
   * records are appended after those of the earlier files.
   */
  lemma {:induction false} ReadFilesSnoc(files: seq<StationFile>, f: StationFile)
    requires ReadFiles(files).1.None?
    ensures var (loaded, failure) := ReadFiles(files + [f]);
      && (failure.Some? <==> '.' !in f.name)
      && (failure.None? && !IsCsv(f.name) ==> loaded == ReadFiles(files).0)
      && (failure.None? ==> loaded == ReadFiles(files).0 + ReadData(f.name, f.rows).value)
      && (failure.None? && IsCsv(f.name) ==> |loaded| == |ReadFiles(files).0| + |f.rows|)
  {
    assert (files + [f])[..|files|] == files;
  }

  /**
   * One pass of `main`'s loop: `read_data` on one file, then `load_data` on its records. A read
   * error leaves the table as it was; otherwise the result is `load_data`'s count.
   */
  method LoadFile(table: DailyTable, f: StationFile, chunkSize: int) returns (result: Result<nat, ReadError>)
    requires table.Valid()
    requires chunkSize != 0
    modifies table
    ensures table.Valid()
    ensures var read := ReadData(f.name, f.rows);
      && (read.Failure? ==> result == Failure(read.error) && table.State() == old(table.State()))
      && (read.Success? && chunkSize > 0 ==>
            result == Success(|read.value|) && table.State() == UpsertAll(old(table.State()), read.value))
      && (read.Success? && chunkSize < 0 ==> result == Success(0) && table.State() == old(table.State()))
  {
    var read := ReadData(f.name, f.rows);
    if read.Failure? {
      return Failure(read.error);
    }
    var touched := LoadData(table, read.value, chunkSize);
    return Success(touched);
  }

  /**
   * One pass of `main`'s loop, stated against the files before it: either the run stops with
   * this file's error and the table as it was, or the file's records extend those read so far
   * and, for a positive chunk size, the upsert so far.
   */
  method IngestNext(table: DailyTable, files: seq<StationFile>, j: nat, chunkSize: int,
                    ghost s0: TableState<DailyKey, Measurements>, ghost loaded: seq<Record>, ghost applied: seq<Record>)
      returns (step: Result<nat, ReadError>, ghost recs: seq<Record>)
    requires table.Valid()
    requires j < |files| && ReadFiles(files[..j]) == (loaded, None)
    requires chunkSize != 0
    requires applied == if chunkSize > 0 then loaded else []
    requires table.State() == UpsertAll(s0, applied)
    modifies table
    ensures table.Valid()
    ensures step.Failure? ==> ReadFiles(files) == (loaded, Some(step.error)) && table.State() == old(table.State())
    ensures step.Success? ==>
      && ReadFiles(files[..j + 1]) == (loaded + recs, None)
      && table.State() == UpsertAll(s0, if chunkSize > 0 then applied + recs else [])
      && step.value == if chunkSize > 0 then |recs| else 0
  {
    ReadStep(files, j, loaded);
    step := LoadFile(table, files[j], chunkSize);
    recs := [];
    if step.Success? {
      recs := ReadData(files[j].name, files[j].rows).value;
      if chunkSize > 0 {
        UpsertAllAppend(s0, applied, recs);
      }
    }
  }

  /**
   * `main`: reads every file of the directory listing in order and loads each file's records
   * with `load_data`. The result is the total touched count, or the read error that stopped
   * the run; the files before it stay loaded, each having been committed by its own load.
   */
  method Ingest(table: DailyTable, files: seq<StationFile>, chunkSize: int) returns (result: Result<nat, ReadError>)
    requires table.Valid()
    requires chunkSize != 0
    modifies table
    ensures table.Valid()
    ensures chunkSize > 0 ==> table.State() == UpsertAll(old(table.State()), ReadFiles(files).0)
    ensures chunkSize < 0 ==> table.State() == old(table.State())
    ensures ReadFiles(files).1.None? ==>
      result == Success(if chunkSize > 0 then |ReadFiles(files).0| else 0)
    ensures ReadFiles(files).1.Some? ==> result == Failure(ReadFiles(files).1.value)
  {
    var rowCount := 0;
    ghost var loaded: seq<Record> := [];
    ghost var applied: seq<Record> := [];
    var j := 0;
    while j < |files|
      invariant 0 <= j <= |files|
      invariant table.Valid()
      invariant ReadFiles(files[..j]) == (loaded, None)
      invariant applied == if chunkSize > 0 then loaded else []
      invariant table.State() == UpsertAll(old(table.State()), applied)
      invariant rowCount == |applied|
    {
      var step, recs := IngestNext(table, files, j, chunkSize, old(table.State()), loaded, applied);
      if step.Failure? {
        return Failure(step.error);
      }
      applied := if chunkSize > 0 then applied + recs else [];
      loaded := loaded + recs;
      rowCount := rowCount + step.value;
      j := j + 1;
    }
    assert files[..j] == files;
    return Success(rowCount);
  }
}
