/**
 * Turning one station file into records (scripts/load.py, `read_data`). The CSV tokenising
 * and date parsing are the data-frame library's: a file arrives here as its base name and its
 * already parsed rows.
 */
module Reader {
  import opened Wrappers
  import opened Upsert
  import opened Models

  /** The value the observation files use for "not measured". */
  const Sentinel: real := -9999.0

  /** One parsed line of a station file: date, max_temp, min_temp, total_precip. */
  datatype RawRow = RawRow(date: Date, maxTemp: real, minTemp: real, totalPrecip: real)

  /** A file of the data directory: its base name and its parsed lines. */
  datatype StationFile = StationFile(name: string, rows: seq<RawRow>)

  datatype ReadError =
    | MissingExtension(name: string)   // `name.split(".")[1]` raises IndexError
    | NoStrAccessor(name: string)      // `name.str` raises AttributeError

  /** The parts are rejoined with `sep` between consecutive ones. */
  function Join(parts: seq<string>, sep: char): string
    decreases |parts|
  {
    if parts == [] then []
    else if |parts| == 1 then parts[0]
    else parts[0] + [sep] + Join(parts[1..], sep)
  }

  /**
   * Python's `s.split(sep)` for a one-character separator: the maximal runs between
   * separators, empty runs included. It always has at least one part, more than one exactly
   * when `sep` occurs, no part contains `sep`, and joining the parts gives `s` back.
   */
  function Split(s: string, sep: char): (parts: seq<string>)
    ensures |parts| >= 1
    ensures forall i :: 0 <= i < |parts| ==> sep !in parts[i]
    ensures Join(parts, sep) == s
    ensures |parts| == 1 <==> sep !in s
    decreases |s|
  {
    if s == [] then [[]]
    else
      var rest := Split(s[1..], sep);
      if s[0] == sep then
        assert s == [sep] + s[1..];
        [[]] + rest
      else
        assert s == [s[0]] + s[1..];
        assert [s[0]] + rest[0] + [sep] + Join(rest[1..], sep) == [s[0]] + (rest[0] + [sep] + Join(rest[1..], sep));
        [[s[0]] + rest[0]] + rest[1..]
  }

  /** The station id: the file name up to its first '.'. */
  function StationIdOf(name: string): string {
    Split(name, '.')[0]
  }

  lemma {:induction false} StationIdIsPrefix(name: string)
    ensures var id := StationIdOf(name);
      && |id| <= |name|
      && id == name[..|id|]
      && '.' !in id
      && (|id| < |name| ==> name[|id|] == '.')
  {
    var parts := Split(name, '.');
    if |parts| >= 2 {
      assert Join(parts, '.') == parts[0] + (['.'] + Join(parts[1..], '.'));
    }
  }

  /** `df.replace(-9999, NA)` on one value. */
  function Clean(v: real): Option<real> {
    if v == Sentinel then None else Some(v)
  }

  /** The stored measurements are the raw ones, each sentinel turned into NULL. */
  predicate Normalised(m: Measurements, raw: RawRow) {
    && (m.maxTemp.None? <==> raw.maxTemp == Sentinel)
    && (m.minTemp.None? <==> raw.minTemp == Sentinel)
    && (m.totalPrecip.None? <==> raw.totalPrecip == Sentinel)
    && (m.maxTemp.Some? ==> m.maxTemp.value == raw.maxTemp)
    && (m.minTemp.Some? ==> m.minTemp.value == raw.minTemp)
    && (m.totalPrecip.Some? ==> m.totalPrecip.value == raw.totalPrecip)
  }

  /** The file is loaded only when the second '.'-separated part of its name is "csv". */
  predicate IsCsv(name: string) {
    var parts := Split(name, '.');
    |parts| >= 2 && parts[1] == "csv"
  }

  /**
   * `read_data` with the extension test it evidently means, `name.split(".")[1] == "csv"`:
   * a name without '.' fails (IndexError); a name whose second part is not "csv" is skipped
   * with no records; otherwise one record per parsed line, keyed by the station id and the
   * line's date, with every sentinel replaced by NULL.
   */
  function ReadData(name: string, rows: seq<RawRow>): (r: Result<seq<Record>, ReadError>)
    ensures r.Failure? <==> '.' !in name
    ensures r.Failure? ==> r.error == MissingExtension(name)
    ensures r.Success? && !IsCsv(name) ==> r.value == []
    ensures r.Success? && IsCsv(name) ==>
      && |r.value| == |rows|
      && forall i :: 0 <= i < |rows| ==>
           && r.value[i].key == DailyKey(StationIdOf(name), rows[i].date)
           && Normalised(r.value[i].fields, rows[i])
  {
    var parts := Split(name, '.');
    if |parts| < 2 then Failure(MissingExtension(name))
    else if parts[1] != "csv" then Success([])
    else
      var id := parts[0];
      Success(seq(|rows|, i requires 0 <= i < |rows| =>
        Entry(DailyKey(id, rows[i].date),
              Measurements(Clean(rows[i].maxTemp), Clean(rows[i].minTemp), Clean(rows[i].totalPrecip)))))
  }

  /** No stored measurement is the sentinel: every -9999 became NULL. */
  lemma {:induction false} NoSentinelStored(name: string, rows: seq<RawRow>)
    requires ReadData(name, rows).Success?
    ensures forall rec :: rec in ReadData(name, rows).value ==>
      && rec.fields.maxTemp != Some(Sentinel)
      && rec.fields.minTemp != Some(Sentinel)
      && rec.fields.totalPrecip != Some(Sentinel)
  {
    var recs := ReadData(name, rows).value;
    forall rec | rec in recs
      ensures rec.fields.maxTemp != Some(Sentinel)
      ensures rec.fields.minTemp != Some(Sentinel)
      ensures rec.fields.totalPrecip != Some(Sentinel)
    {
      var i :| 0 <= i < |recs| && recs[i] == rec;
    }
  }

  /**
   * `read_data` as written: `file_path.name` is a `str`, which has no `.str` accessor, so the
   * extension test raises AttributeError for every file.
   */
  function ReadDataAsWritten(name: string, rows: seq<RawRow>): Result<seq<Record>, ReadError> {
    Failure(NoStrAccessor(name))
  }

  /**
   * As written, no file yields records, not even `<station>.csv`, which the intended test
   * loads with one record per line under the station id before the dot.
   */
  lemma AsWrittenRejectsCsv(id: string, rows: seq<RawRow>)
    requires '.' !in id
    ensures ReadDataAsWritten(id + ".csv", rows).Failure?
    ensures IsCsv(id + ".csv") && StationIdOf(id + ".csv") == id
    ensures ReadData(id + ".csv", rows).Success?
    ensures |ReadData(id + ".csv", rows).value| == |rows|
  {
    var name := id + ".csv";
    SplitJoinUnique(id, "csv");
    assert name == id + "." + "csv";
    assert Split(name, '.') == [id, "csv"];
    assert IsCsv(name);
  }

  /** The test fixtures name their files `<station>.txt`, which the loader skips. */
  lemma TxtFileSkipped(id: string, rows: seq<RawRow>)
    requires '.' !in id
    ensures ReadData(id + ".txt", rows) == Success([])
  {
    var name := id + ".txt";
    SplitJoinUnique(id, "txt");
    assert name == id + "." + "txt";
    assert Split(name, '.')[1] == "txt";
    assert "txt"[0] != "csv"[0];
  }

  /** A name made of two dot-free parts splits into exactly those parts. */
  lemma SplitJoinUnique(a: string, b: string)
    requires '.' !in a && '.' !in b
    ensures Split(a + "." + b, '.') == [a, b]
    ensures '.' in a + "." + b
    decreases |a|
  {
    if a == [] {
      assert a + "." + b == "." + b;
      assert ("." + b)[1..] == b;
      SplitDotFree(b);
    } else {
      assert (a + "." + b)[1..] == a[1..] + "." + b;
      SplitJoinUnique(a[1..], b);
      assert [a[0]] + a[1..] == a;
    }
  }

  lemma SplitDotFree(s: string)
    requires '.' !in s
    ensures Split(s, '.') == [s]
  {
  }
}
