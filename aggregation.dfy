/**
 * The yearly aggregation query of scripts/summarize.py: daily rows grouped by station and
 * calendar year, AVG of max_temp and of min_temp rounded to one decimal, SUM of total_precip.
 * SQL aggregates skip NULLs, and a group with no non-NULL value gives NULL, not zero
 * (ISO/IEC 9075-2, section 10.9, <aggregate function>).
 */
module Aggregation {
  import opened Wrappers
  import opened Upsert
  import opened Models

  /** `CAST(strftime('%Y', date) AS INTEGER)`: the calendar year of the date. */
  function YearOf(d: Date): int { d.year }

  /** The GROUP BY key of a daily row. */
  function GroupOf(r: StationData): SummaryKey {
    SummaryKey(r.key.stationId, YearOf(r.key.date))
  }

  /**
   * The groups of the daily rows, each once, in order of first appearance: a group is listed
   * exactly when some row belongs to it.
   */
  function Groups(rows: seq<StationData>): (gs: seq<SummaryKey>)
    ensures forall a, b :: 0 <= a < b < |gs| ==> gs[a] != gs[b]
    ensures forall i :: 0 <= i < |rows| ==> GroupOf(rows[i]) in gs
    ensures forall g :: g in gs ==> exists i :: 0 <= i < |rows| && GroupOf(rows[i]) == g
    decreases |rows|
  {
    if rows == [] then []
    else
      var p := rows[..|rows| - 1];
      var gs := Groups(p);
      var g := GroupOf(rows[|rows| - 1]);
      assert forall i :: 0 <= i < |p| ==> p[i] == rows[i];
      if g in gs then gs else gs + [g]
  }

  /** Groups are listed in order of first appearance: the first row's group comes first. */
  lemma {:induction false} GroupsStartWithFirstRow(rows: seq<StationData>)
    requires rows != []
    ensures |Groups(rows)| > 0 && Groups(rows)[0] == GroupOf(rows[0])
    decreases |rows|
  {
    var p := rows[..|rows| - 1];
    if p != [] {
      GroupsStartWithFirstRow(p);
      assert p[0] == rows[0];
    }
  }

  /**
   * Groups are listed in order of first appearance: if group a is listed before group b, every
   * row of group b has an earlier row of group a before it.
   */
  lemma {:induction false} GroupsInFirstAppearanceOrder(rows: seq<StationData>, a: nat, b: nat, i: nat)
    requires a < b < |Groups(rows)|
    requires i < |rows| && GroupOf(rows[i]) == Groups(rows)[b]
    ensures exists k :: 0 <= k < i && GroupOf(rows[k]) == Groups(rows)[a]
    decreases |rows|
  {
    var n := |rows| - 1;
    var p := rows[..n];
    var gs, ps := Groups(rows), Groups(p);
    var g := GroupOf(rows[n]);
    assert forall j :: 0 <= j < |p| ==> p[j] == rows[j];
    if g in ps {
      assert gs == ps;
      if i < n {
        GroupsInFirstAppearanceOrder(p, a, b, i);
      } else {
        assert ps[b] in ps;
        var i' :| 0 <= i' < |p| && GroupOf(p[i']) == ps[b];
        GroupsInFirstAppearanceOrder(p, a, b, i');
      }
    } else if b < |ps| {
      assert gs[b] == ps[b] && gs[a] == ps[a] && ps[b] in ps;
      assert i != n;
      GroupsInFirstAppearanceOrder(p, a, b, i);
    } else {
      assert gs[a] == ps[a] && ps[a] in ps;
      var k :| 0 <= k < |p| && GroupOf(p[k]) == ps[a];
      assert gs[b] == g;
      assert i == n;
      assert k < i && GroupOf(rows[k]) == gs[a];
    }
  }

  datatype Column = MaxTemp | MinTemp | TotalPrecip

  function Value(m: Measurements, c: Column): Option<real> {
    match c
    case MaxTemp => m.maxTemp
    case MinTemp => m.minTemp
    case TotalPrecip => m.totalPrecip
  }

  /** The non-NULL values of column `c` among the rows of group `g`, in row order. */
  function NonNull(rows: seq<StationData>, g: SummaryKey, c: Column): seq<real>
    decreases |rows|
  {
    if rows == [] then []
    else
      var last := rows[|rows| - 1];
      NonNull(rows[..|rows| - 1], g, c) +
        (if GroupOf(last) == g && Value(last.fields, c).Some? then [Value(last.fields, c).value] else [])
  }

  function Sum(xs: seq<real>): real
    decreases |xs|
  {
    if xs == [] then 0.0 else Sum(xs[..|xs| - 1]) + xs[|xs| - 1]
  }

  /** SQL AVG: the mean of the non-NULL values, NULL when there are none. */
  function Avg(xs: seq<real>): Option<real> {
    if xs == [] then None else Some(Sum(xs) / |xs| as real)
  }

  /** SQL SUM: the sum of the non-NULL values, NULL when there are none. */
  function Total(xs: seq<real>): Option<real> {
    if xs == [] then None else Some(Sum(xs))
  }

  /** SQLite `ROUND(x, 1)`: to one decimal place, halves away from zero. */
  function Round1(x: real): real {
    if x >= 0.0 then (x * 10.0 + 0.5).Floor as real / 10.0
    else -((-x * 10.0 + 0.5).Floor as real / 10.0)
  }

  /** `ROUND(NULL, 1)` is NULL. */
  function RoundNull(o: Option<real>): Option<real> {
    match o
    case None => None
    case Some(x) => Some(Round1(x))
  }

  /** The three derived columns of one group. */
  function GroupStats(rows: seq<StationData>, g: SummaryKey): Stats {
    Stats(RoundNull(Avg(NonNull(rows, g, MaxTemp))),
          RoundNull(Avg(NonNull(rows, g, MinTemp))),
          Total(NonNull(rows, g, TotalPrecip)))
  }

  /**
   * The rows of the SELECT ... GROUP BY: one per (station, year) occurring in the daily
   * table and no other, each carrying its group's statistics.
   */
  function SelectSummaries(rows: seq<StationData>): (es: seq<SummaryRecord>)
    ensures |es| == |Groups(rows)|
    ensures forall a, b :: 0 <= a < b < |es| ==> es[a].key != es[b].key
    ensures forall i :: 0 <= i < |rows| ==> exists j :: 0 <= j < |es| && es[j].key == GroupOf(rows[i])
    ensures forall j :: 0 <= j < |es| ==>
      (exists i :: 0 <= i < |rows| && GroupOf(rows[i]) == es[j].key) && es[j].fields == GroupStats(rows, es[j].key)
  {
    var gs := Groups(rows);
    var es := seq(|gs|, j requires 0 <= j < |gs| => Entry(gs[j], GroupStats(rows, gs[j])));
    SelectCovers(rows, es);
    es
  }

  lemma SelectCovers(rows: seq<StationData>, es: seq<SummaryRecord>)
    requires |es| == |Groups(rows)|
    requires forall j :: 0 <= j < |es| ==> es[j] == Entry(Groups(rows)[j], GroupStats(rows, Groups(rows)[j]))
    ensures forall a, b :: 0 <= a < b < |es| ==> es[a].key != es[b].key
    ensures forall j :: 0 <= j < |es| ==> es[j].fields == GroupStats(rows, es[j].key)
    ensures forall i :: 0 <= i < |rows| ==> exists j :: 0 <= j < |es| && es[j].key == GroupOf(rows[i])
    ensures forall j :: 0 <= j < |es| ==> exists i :: 0 <= i < |rows| && GroupOf(rows[i]) == es[j].key
  {
    var gs := Groups(rows);
    forall i | 0 <= i < |rows| ensures exists j :: 0 <= j < |es| && es[j].key == GroupOf(rows[i]) {
      assert GroupOf(rows[i]) in gs;
      var j :| 0 <= j < |gs| && gs[j] == GroupOf(rows[i]);
      assert es[j].key == GroupOf(rows[i]);
    }
    forall j | 0 <= j < |es| ensures exists i :: 0 <= i < |rows| && GroupOf(rows[i]) == es[j].key {
      assert gs[j] in gs;
    }
  }

  /** A value is among NonNull exactly when some row of the group holds it in that column. */
  lemma {:induction false} NonNullMembers(rows: seq<StationData>, g: SummaryKey, c: Column, x: real)
    ensures x in NonNull(rows, g, c) <==>
      exists i :: 0 <= i < |rows| && GroupOf(rows[i]) == g && Value(rows[i].fields, c) == Some(x)
    decreases |rows|
  {
    if rows != [] {
      var p := rows[..|rows| - 1];
      NonNullMembers(p, g, c, x);
      assert forall i :: 0 <= i < |p| ==> p[i] == rows[i];
    }
  }

  /** The value one row contributes to its group's column: none when the column is NULL. */
  function Present(r: StationData, c: Column): seq<real> {
    if Value(r.fields, c).Some? then [Value(r.fields, c).value] else []
  }

  /**
   * A single row contributes its value, once, exactly to its own group. With NonNullAppend this
   * fixes NonNull completely: every non-NULL value of the group is kept, with its multiplicity
   * and in row order, which is what AVG and SUM are computed over.
   */
  lemma NonNullSingle(r: StationData, g: SummaryKey, c: Column)
    ensures NonNull([r], g, c) == if GroupOf(r) == g then Present(r, c) else []
  {
    assert [r][..0] == [];
  }

  /** The values of a + b are those of a followed by those of b. */
  lemma {:induction false} NonNullAppend(a: seq<StationData>, b: seq<StationData>, g: SummaryKey, c: Column)
    ensures NonNull(a + b, g, c) == NonNull(a, g, c) + NonNull(b, g, c)
    decreases |b|
  {
    if b == [] {
      assert a + b == a;
    } else {
      var p := b[..|b| - 1];
      NonNullAppend(a, p, g, c);
      assert (a + b)[..|a + b| - 1] == a + p;
    }
  }

  /** The positions of the rows of group `g` holding `x` in column `c`. */
  function Holders(rows: seq<StationData>, g: SummaryKey, c: Column, x: real): set<nat> {
    set i: nat | i < |rows| && GroupOf(rows[i]) == g && Value(rows[i].fields, c) == Some(x)
  }

  lemma HoldersSnoc(rows: seq<StationData>, g: SummaryKey, c: Column, x: real)
    requires rows != []
    ensures var n := |rows| - 1;
      Holders(rows, g, c, x) == Holders(rows[..n], g, c, x) +
        (if GroupOf(rows[n]) == g && Value(rows[n].fields, c) == Some(x) then {n} else {})
  {
    var n := |rows| - 1;
    assert forall i :: 0 <= i < n ==> rows[..n][i] == rows[i];
  }

  /** How often a value is aggregated: once for every row of the group holding it in the column. */
  lemma {:induction false} NonNullCount(rows: seq<StationData>, g: SummaryKey, c: Column, x: real)
    ensures multiset(NonNull(rows, g, c))[x] == |Holders(rows, g, c, x)|
    decreases |rows|
  {
    if rows != [] {
      var n := |rows| - 1;
      NonNullCount(rows[..n], g, c, x);
      HoldersSnoc(rows, g, c, x);
      assert n !in Holders(rows[..n], g, c, x);
    }
  }

  /** No values exactly when every row of the group has NULL in that column. */
  lemma {:induction false} NonNullEmpty(rows: seq<StationData>, g: SummaryKey, c: Column)
    ensures NonNull(rows, g, c) == [] <==>
      forall i :: 0 <= i < |rows| && GroupOf(rows[i]) == g ==> Value(rows[i].fields, c).None?
    decreases |rows|
  {
    if rows != [] {
      var p := rows[..|rows| - 1];
      NonNullEmpty(p, g, c);
      assert forall i :: 0 <= i < |p| ==> p[i] == rows[i];
    }
  }

  /**
   * Null elimination: a derived column is NULL exactly when every day of the station-year is
   * NULL in the underlying column; otherwise it is computed from the non-NULL days only.
   */
  lemma GroupStatsNullIff(rows: seq<StationData>, g: SummaryKey)
    ensures GroupStats(rows, g).avgMaxTemp.None? <==>
      forall i :: 0 <= i < |rows| && GroupOf(rows[i]) == g ==> rows[i].fields.maxTemp.None?
    ensures GroupStats(rows, g).avgMinTemp.None? <==>
      forall i :: 0 <= i < |rows| && GroupOf(rows[i]) == g ==> rows[i].fields.minTemp.None?
    ensures GroupStats(rows, g).cumulativePrecip.None? <==>
      forall i :: 0 <= i < |rows| && GroupOf(rows[i]) == g ==> rows[i].fields.totalPrecip.None?
  {
    NonNullEmpty(rows, g, MaxTemp);
    NonNullEmpty(rows, g, MinTemp);
    NonNullEmpty(rows, g, TotalPrecip);
  }

  lemma {:induction false} SumBounds(xs: seq<real>, lo: real, hi: real)
    requires forall i :: 0 <= i < |xs| ==> lo <= xs[i] <= hi
    ensures |xs| as real * lo <= Sum(xs) <= |xs| as real * hi
    decreases |xs|
  {
    if xs != [] {
      var p := xs[..|xs| - 1];
      SumBounds(p, lo, hi);
      assert forall i :: 0 <= i < |p| ==> p[i] == xs[i];
      assert |xs| as real * lo == |p| as real * lo + lo;
      assert |xs| as real * hi == |p| as real * hi + hi;
    }
  }

  /** An average lies between the least and the greatest of the values averaged. */
  lemma AvgWithin(xs: seq<real>, lo: real, hi: real)
    requires forall i :: 0 <= i < |xs| ==> lo <= xs[i] <= hi
    ensures Avg(xs).Some? <==> xs != []
    ensures Avg(xs).Some? ==> lo <= Avg(xs).value <= hi
  {
    if xs != [] {
      SumBounds(xs, lo, hi);
      var n := |xs| as real;
      assert lo <= Sum(xs) / n by {
        assert n * lo <= Sum(xs);
      }
      assert Sum(xs) / n <= hi by {
        assert Sum(xs) <= n * hi;
      }
    }
  }

  /** Rounding to one decimal moves a value by at most half a unit of the first decimal. */
  lemma Round1Close(x: real)
    ensures -0.05 <= Round1(x) - x <= 0.05
  {
  }

  /** A value that already has at most one decimal is left as it is. */
  lemma Round1Exact(k: int)
    ensures Round1(k as real / 10.0) == k as real / 10.0
  {
    var x := k as real / 10.0;
    if x >= 0.0 {
      assert x * 10.0 + 0.5 == k as real + 0.5;
      assert (k as real + 0.5).Floor == k;
    } else {
      assert -x * 10.0 + 0.5 == (-k) as real + 0.5;
      assert ((-k) as real + 0.5).Floor == -k;
    }
  }

  /** The distinct (station, year) pairs of the daily table. */
  function GroupSet(rows: seq<StationData>): set<SummaryKey> {
    set i | 0 <= i < |rows| :: GroupOf(rows[i])
  }

  lemma {:induction false} DistinctCard<T>(s: seq<T>)
    requires forall a, b :: 0 <= a < b < |s| ==> s[a] != s[b]
    ensures |set x | x in s| == |s|
    decreases |s|
  {
    if s != [] {
      var p, x := s[..|s| - 1], s[|s| - 1];
      DistinctCard(p);
      assert (set y | y in s) == (set y | y in p) + {x};
      assert x !in (set y | y in p);
    }
  }

  /** The query returns as many rows as there are distinct (station, year) pairs. */
  lemma GroupCount(rows: seq<StationData>)
    ensures |Groups(rows)| == |GroupSet(rows)|
  {
    var gs := Groups(rows);
    DistinctCard(gs);
    assert (set x | x in gs) == GroupSet(rows);
  }
}
