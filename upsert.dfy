/**
 * The semantics of SQLite's `INSERT ... ON CONFLICT (<unique key>) DO UPDATE SET <every
 * other column> = excluded.<column>` on a table with an INTEGER PRIMARY KEY `id` and one
 * UNIQUE constraint. Both tables of the pipeline are written only through such a statement:
 * `station_data` keyed by (station_id, date) and `station_summary` keyed by (station_id, year).
 *
 * A row is its surrogate id, its natural key and the columns the SET clause overwrites.
 * Rows are kept in rowid order; a new row takes the next rowid.
 */
module Upsert {
  import opened Wrappers

  datatype Row<K, V> = Row(id: int, key: K, fields: V)

  /** One row of the VALUES list (or of the SELECT) an upsert statement inserts. */
  datatype Entry<K, V> = Entry(key: K, fields: V)

  datatype TableState<K, V> = TableState(rows: seq<Row<K, V>>, nextId: int)

  function Empty<K, V>(): TableState<K, V> { TableState([], 1) }

  /** The UNIQUE constraint on the natural key. */
  predicate KeysUnique<K(==), V>(rows: seq<Row<K, V>>) {
    forall i, j :: 0 <= i < j < |rows| ==> rows[i].key != rows[j].key
  }

  /** The PRIMARY KEY constraint on `id`. */
  predicate IdsUnique<K, V>(rows: seq<Row<K, V>>) {
    forall i, j :: 0 <= i < j < |rows| ==> rows[i].id != rows[j].id
  }

  /** Both constraints hold, and every id is positive and below the next one to be assigned. */
  predicate WellFormed<K(==), V>(s: TableState<K, V>) {
    && KeysUnique(s.rows)
    && IdsUnique(s.rows)
    && 1 <= s.nextId
    && forall i :: 0 <= i < |s.rows| ==> 1 <= s.rows[i].id < s.nextId
  }

  /** Rowids 1, 2, ..., n in row order: what a table that only ever grew holds. */
  predicate DenseIds<K, V>(s: TableState<K, V>) {
    && s.nextId == |s.rows| + 1
    && forall i :: 0 <= i < |s.rows| ==> s.rows[i].id == i + 1
  }

  /** The conflict check: the position of the row holding key `k`, if any. */
  function Find<K(==), V>(rows: seq<Row<K, V>>, k: K): (r: Option<nat>)
    ensures r.Some? ==> r.value < |rows| && rows[r.value].key == k
    ensures r.None? ==> forall i :: 0 <= i < |rows| ==> rows[i].key != k
  {
    if rows == [] then None
    else if rows[0].key == k then Some(0)
    else match Find(rows[1..], k)
      case Some(i) => Some(i + 1)
      case None => None
  }

  /** One row of the statement: overwrite the fields of the row holding the key, else append a row. */
  function UpsertOne<K(==), V>(s: TableState<K, V>, e: Entry<K, V>): TableState<K, V> {
    match Find(s.rows, e.key)
    case Some(i) => TableState(s.rows[i := s.rows[i].(fields := e.fields)], s.nextId)
    case None => TableState(s.rows + [Row(s.nextId, e.key, e.fields)], s.nextId + 1)
  }

  /** The rows of one or more statements, applied in order. */
  function UpsertAll<K(==), V>(s: TableState<K, V>, es: seq<Entry<K, V>>): TableState<K, V>
    decreases |es|
  {
    if es == [] then s else UpsertOne(UpsertAll(s, es[..|es| - 1]), es[|es| - 1])
  }

  /** The fields of the last entry carrying key `k`, if there is one. */
  function Latest<K(==), V>(es: seq<Entry<K, V>>, k: K): Option<V>
    decreases |es|
  {
    if es == [] then None
    else if es[|es| - 1].key == k then Some(es[|es| - 1].fields)
    else Latest(es[..|es| - 1], k)
  }

  function Refresh<K, V>(row: Row<K, V>, latest: Option<V>): Row<K, V> {
    match latest
    case None => row
    case Some(v) => row.(fields := v)
  }

  /** `Latest` is the last writer: its entry exists and no later entry has the key; None means no entry has it. */
  lemma {:induction false} LatestIsLast<K, V>(es: seq<Entry<K, V>>, k: K)
    ensures Latest(es, k).None? <==> forall j :: 0 <= j < |es| ==> es[j].key != k
    ensures Latest(es, k).Some? ==>
      exists j :: 0 <= j < |es| && es[j] == Entry(k, Latest(es, k).value) &&
        forall j' :: j < j' < |es| ==> es[j'].key != k
    decreases |es|
  {
    if es != [] {
      var p := es[..|es| - 1];
      LatestIsLast(p, k);
      if es[|es| - 1].key != k {
        assert forall j :: 0 <= j < |p| ==> p[j] == es[j];
        if Latest(es, k).Some? {
          var j :| 0 <= j < |p| && p[j] == Entry(k, Latest(p, k).value) &&
            forall j' :: j < j' < |p| ==> p[j'].key != k;
          assert es[j] == Entry(k, Latest(es, k).value);
        }
      } else {
        assert es[|es| - 1] == Entry(k, Latest(es, k).value);
      }
    }
  }

  /** Every key that occurs among the entries has a last writer. */
  lemma {:induction false} LatestOfMember<K, V>(es: seq<Entry<K, V>>, j: int)
    requires 0 <= j < |es|
    ensures Latest(es, es[j].key).Some?
  {
    LatestIsLast(es, es[j].key);
  }

  /** Entries with pairwise distinct keys: each one is the last writer of its key. */
  lemma {:induction false} LatestOfDistinct<K, V>(es: seq<Entry<K, V>>, j: int)
    requires forall a, b :: 0 <= a < b < |es| ==> es[a].key != es[b].key
    requires 0 <= j < |es|
    ensures Latest(es, es[j].key) == Some(es[j].fields)
    decreases |es|
  {
    if j < |es| - 1 {
      LatestOfDistinct(es[..|es| - 1], j);
    }
  }

  /** The old rows keep position, id and key, and take the fields of the last entry with their key. */
  ghost predicate OldRowsRefreshed<K, V>(s: TableState<K, V>, es: seq<Entry<K, V>>, t: TableState<K, V>)
    requires |s.rows| <= |t.rows|
  {
    forall i :: 0 <= i < |s.rows| ==> t.rows[i] == Refresh(s.rows[i], Latest(es, s.rows[i].key))
  }

  /** The rows past the old ones have consecutive fresh ids, new keys, and their last writer's fields. */
  ghost predicate NewRowsFresh<K, V>(s: TableState<K, V>, es: seq<Entry<K, V>>, t: TableState<K, V>) {
    forall i :: |s.rows| <= i < |t.rows| ==>
      && t.rows[i].id == s.nextId + (i - |s.rows|)
      && Find(s.rows, t.rows[i].key).None?
      && Latest(es, t.rows[i].key) == Some(t.rows[i].fields)
  }

  /** Every key an entry carries has a row. */
  ghost predicate KeysWritten<K, V>(es: seq<Entry<K, V>>, t: TableState<K, V>) {
    forall j :: 0 <= j < |es| ==> Find(t.rows, es[j].key).Some?
  }

  ghost predicate Effect<K, V>(s: TableState<K, V>, es: seq<Entry<K, V>>, t: TableState<K, V>) {
    && WellFormed(t)
    && |s.rows| <= |t.rows|
    && t.nextId == s.nextId + (|t.rows| - |s.rows|)
    && OldRowsRefreshed(s, es, t)
    && NewRowsFresh(s, es, t)
    && KeysWritten(es, t)
  }

  lemma LatestSnoc<K, V>(p: seq<Entry<K, V>>, e: Entry<K, V>, k: K)
    ensures Latest(p + [e], k) == if e.key == k then Some(e.fields) else Latest(p, k)
  {
    assert (p + [e])[..|p|] == p;
  }

  /** An entry whose key has a row overwrites that row's fields and nothing else. */
  lemma UpdateStep<K, V>(s: TableState<K, V>, p: seq<Entry<K, V>>, m: TableState<K, V>, e: Entry<K, V>, x: nat)
    requires WellFormed(s) && Effect(s, p, m)
    requires Find(m.rows, e.key) == Some(x)
    ensures Effect(s, p + [e], UpsertOne(m, e))
  {
    UpdateKeepsWellFormed(m, e, x);
    UpdateRefreshes(s, p, m, e, x);
    UpdateKeepsNewRows(s, p, m, e, x);
    UpdateWritesKeys(p, m, e, x);
  }

  lemma UpdateKeepsWellFormed<K, V>(m: TableState<K, V>, e: Entry<K, V>, x: nat)
    requires WellFormed(m) && Find(m.rows, e.key) == Some(x)
    ensures WellFormed(UpsertOne(m, e))
    ensures |UpsertOne(m, e).rows| == |m.rows| && UpsertOne(m, e).nextId == m.nextId
  {
    var t := UpsertOne(m, e);
    assert t.rows == m.rows[x := m.rows[x].(fields := e.fields)];
  }

  lemma UpdateRefreshes<K, V>(s: TableState<K, V>, p: seq<Entry<K, V>>, m: TableState<K, V>, e: Entry<K, V>, x: nat)
    requires |s.rows| <= |m.rows| && KeysUnique(m.rows) && OldRowsRefreshed(s, p, m)
    requires Find(m.rows, e.key) == Some(x)
    ensures |s.rows| <= |UpsertOne(m, e).rows| && OldRowsRefreshed(s, p + [e], UpsertOne(m, e))
  {
    var t := UpsertOne(m, e);
    var es := p + [e];
    assert t.rows == m.rows[x := m.rows[x].(fields := e.fields)];
    forall i | 0 <= i < |s.rows|
      ensures t.rows[i] == Refresh(s.rows[i], Latest(es, s.rows[i].key))
    {
      LatestSnoc(p, e, s.rows[i].key);
      assert m.rows[i] == Refresh(s.rows[i], Latest(p, s.rows[i].key));
      if i != x {
        assert m.rows[i].key != m.rows[x].key;
      }
    }
  }

  lemma UpdateKeepsNewRows<K, V>(s: TableState<K, V>, p: seq<Entry<K, V>>, m: TableState<K, V>, e: Entry<K, V>, x: nat)
    requires KeysUnique(m.rows) && NewRowsFresh(s, p, m)
    requires Find(m.rows, e.key) == Some(x)
    ensures NewRowsFresh(s, p + [e], UpsertOne(m, e))
  {
    var t := UpsertOne(m, e);
    var es := p + [e];
    assert t.rows == m.rows[x := m.rows[x].(fields := e.fields)];
    forall i | |s.rows| <= i < |t.rows|
      ensures Latest(es, t.rows[i].key) == Some(t.rows[i].fields)
    {
      LatestSnoc(p, e, t.rows[i].key);
      if i != x {
        assert m.rows[i].key != m.rows[x].key;
      }
    }
  }

  lemma UpdateWritesKeys<K, V>(p: seq<Entry<K, V>>, m: TableState<K, V>, e: Entry<K, V>, x: nat)
    requires KeysWritten(p, m)
    requires Find(m.rows, e.key) == Some(x)
    ensures KeysWritten(p + [e], UpsertOne(m, e))
  {
    var t := UpsertOne(m, e);
    var es := p + [e];
    assert t.rows == m.rows[x := m.rows[x].(fields := e.fields)];
    forall j | 0 <= j < |es|
      ensures Find(t.rows, es[j].key).Some?
    {
      if j == |p| {
        assert t.rows[x].key == e.key;
      } else {
        assert es[j] == p[j];
        var y := Find(m.rows, p[j].key).value;
        assert t.rows[y].key == p[j].key;
      }
    }
  }

  /** An entry whose key has no row appends a row with the next id. */
  lemma InsertStep<K, V>(s: TableState<K, V>, p: seq<Entry<K, V>>, m: TableState<K, V>, e: Entry<K, V>)
    requires WellFormed(s) && Effect(s, p, m)
    requires Find(m.rows, e.key).None?
    ensures Effect(s, p + [e], UpsertOne(m, e))
  {
    InsertKeepsWellFormed(m, e);
    InsertRefreshes(s, p, m, e);
    InsertKeepsNewRows(s, p, m, e);
    InsertWritesKeys(p, m, e);
  }

  lemma InsertKeepsWellFormed<K, V>(m: TableState<K, V>, e: Entry<K, V>)
    requires WellFormed(m) && Find(m.rows, e.key).None?
    ensures WellFormed(UpsertOne(m, e))
    ensures |UpsertOne(m, e).rows| == |m.rows| + 1 && UpsertOne(m, e).nextId == m.nextId + 1
  {
    var t := UpsertOne(m, e);
    assert t.rows == m.rows + [Row(m.nextId, e.key, e.fields)];
  }

  lemma InsertRefreshes<K, V>(s: TableState<K, V>, p: seq<Entry<K, V>>, m: TableState<K, V>, e: Entry<K, V>)
    requires |s.rows| <= |m.rows| && OldRowsRefreshed(s, p, m)
    requires Find(m.rows, e.key).None?
    ensures |s.rows| <= |UpsertOne(m, e).rows| && OldRowsRefreshed(s, p + [e], UpsertOne(m, e))
  {
    var t := UpsertOne(m, e);
    var es := p + [e];
    assert t.rows == m.rows + [Row(m.nextId, e.key, e.fields)];
    forall i | 0 <= i < |s.rows|
      ensures t.rows[i] == Refresh(s.rows[i], Latest(es, s.rows[i].key))
    {
      LatestSnoc(p, e, s.rows[i].key);
      assert m.rows[i] == Refresh(s.rows[i], Latest(p, s.rows[i].key));
    }
  }

  lemma InsertKeepsNewRows<K, V>(s: TableState<K, V>, p: seq<Entry<K, V>>, m: TableState<K, V>, e: Entry<K, V>)
    requires |s.rows| <= |m.rows| && OldRowsRefreshed(s, p, m) && NewRowsFresh(s, p, m)
    requires m.nextId == s.nextId + (|m.rows| - |s.rows|)
    requires Find(m.rows, e.key).None?
    ensures NewRowsFresh(s, p + [e], UpsertOne(m, e))
  {
    var t := UpsertOne(m, e);
    var es := p + [e];
    assert t.rows == m.rows + [Row(m.nextId, e.key, e.fields)];
    assert Find(s.rows, e.key).None? by {
      forall i | 0 <= i < |s.rows| ensures s.rows[i].key != e.key {
        assert m.rows[i] == Refresh(s.rows[i], Latest(p, s.rows[i].key));
      }
    }
    forall i | |s.rows| <= i < |t.rows|
      ensures Latest(es, t.rows[i].key) == Some(t.rows[i].fields)
    {
      LatestSnoc(p, e, t.rows[i].key);
    }
  }

  lemma InsertWritesKeys<K, V>(p: seq<Entry<K, V>>, m: TableState<K, V>, e: Entry<K, V>)
    requires KeysWritten(p, m)
    requires Find(m.rows, e.key).None?
    ensures KeysWritten(p + [e], UpsertOne(m, e))
  {
    var t := UpsertOne(m, e);
    var es := p + [e];
    assert t.rows == m.rows + [Row(m.nextId, e.key, e.fields)];
    forall j | 0 <= j < |es|
      ensures Find(t.rows, es[j].key).Some?
    {
      if j == |p| {
        assert t.rows[|m.rows|].key == e.key;
      } else {
        assert es[j] == p[j];
        var y := Find(m.rows, p[j].key).value;
        assert t.rows[y].key == p[j].key;
      }
    }
  }

  /**
   * What a sequence of upserts does to a well-formed table: the constraints still hold;
   * every old row keeps its position, id and key and takes the fields of the last entry with
   * its key (unchanged if there is none); new rows are appended with consecutive fresh ids,
   * carry keys the table did not have and the fields of the last entry with that key; and
   * every key written has a row.
   */
  lemma {:induction false} UpsertAllEffect<K, V>(s: TableState<K, V>, es: seq<Entry<K, V>>)
    requires WellFormed(s)
    ensures Effect(s, es, UpsertAll(s, es))
    decreases |es|
  {
    if es != [] {
      var p, e := es[..|es| - 1], es[|es| - 1];
      UpsertAllEffect(s, p);
      var m := UpsertAll(s, p);
      assert es == p + [e];
      match Find(m.rows, e.key)
      case Some(x) => UpdateStep(s, p, m, e, x);
      case None => InsertStep(s, p, m, e);
    }
  }

  /** Running the entries as one statement or split across consecutive statements is the same. */
  lemma {:induction false} UpsertAllAppend<K, V>(s: TableState<K, V>, a: seq<Entry<K, V>>, b: seq<Entry<K, V>>)
    ensures UpsertAll(s, a + b) == UpsertAll(UpsertAll(s, a), b)
    decreases |b|
  {
    if b == [] {
      assert a + b == a;
    } else {
      UpsertAllAppend(s, a, b[..|b| - 1]);
      assert (a + b)[..|a + b| - 1] == a + b[..|b| - 1];
    }
  }

  /**
   * Last write wins: after the entries are applied, every key among them is held by exactly
   * one row, and that row's fields are those of the last entry with the key.
   */
  lemma UpsertAllLastWriteWins<K, V>(s: TableState<K, V>, es: seq<Entry<K, V>>, j: int)
    requires WellFormed(s) && 0 <= j < |es|
    ensures var t := UpsertAll(s, es);
      && Find(t.rows, es[j].key).Some?
      && (forall i :: 0 <= i < |t.rows| && t.rows[i].key == es[j].key ==> i == Find(t.rows, es[j].key).value)
      && Some(t.rows[Find(t.rows, es[j].key).value].fields) == Latest(es, es[j].key)
  {
    UpsertAllEffect(s, es);
    LatestOfMember(es, j);
    var t := UpsertAll(s, es);
    var y := Find(t.rows, es[j].key).value;
    if y < |s.rows| {
      assert t.rows[y] == Refresh(s.rows[y], Latest(es, s.rows[y].key));
    }
  }

  /**
   * Rows are never deleted or moved: every old row keeps its id and key, and a row whose key
   * no entry carries is left exactly as it was.
   */
  lemma {:induction false} UpsertAllKeepsOtherRows<K, V>(s: TableState<K, V>, es: seq<Entry<K, V>>)
    requires WellFormed(s)
    ensures var t := UpsertAll(s, es);
      && |s.rows| <= |t.rows|
      && forall i :: 0 <= i < |s.rows| ==>
           && t.rows[i].id == s.rows[i].id
           && t.rows[i].key == s.rows[i].key
           && ((forall j :: 0 <= j < |es| ==> es[j].key != s.rows[i].key) ==> t.rows[i] == s.rows[i])
  {
    UpsertAllEffect(s, es);
    forall k {
      LatestIsLast(es, k);
    }
  }

  /** Applying the same entries twice leaves the table as applying them once. */
  lemma UpsertAllIdempotent<K, V>(s: TableState<K, V>, es: seq<Entry<K, V>>)
    requires WellFormed(s)
    ensures UpsertAll(UpsertAll(s, es), es) == UpsertAll(s, es)
  {
    var t := UpsertAll(s, es);
    UpsertAllEffect(s, es);
    UpsertAllEffect(t, es);
    var t2 := UpsertAll(t, es);
    if |t2.rows| > |t.rows| {
      LatestIsLast(es, t2.rows[|t.rows|].key);
      assert false;
    }
    forall i | 0 <= i < |t.rows|
      ensures t2.rows[i] == t.rows[i]
    {
      if i < |s.rows| {
        assert t.rows[i] == Refresh(s.rows[i], Latest(es, s.rows[i].key));
      }
    }
  }

  /** A table whose ids are 1..n keeps dense ids: every new row takes the next integer. */
  lemma {:induction false} UpsertAllKeepsDense<K, V>(s: TableState<K, V>, es: seq<Entry<K, V>>)
    requires WellFormed(s) && DenseIds(s)
    ensures DenseIds(UpsertAll(s, es))
  {
    UpsertAllEffect(s, es);
    var t := UpsertAll(s, es);
    forall i | 0 <= i < |s.rows| ensures t.rows[i].id == i + 1 {
      assert t.rows[i] == Refresh(s.rows[i], Latest(es, s.rows[i].key));
    }
  }

  /** Entries with distinct keys written to an empty table become its rows, in order, with ids 1..n. */
  lemma {:induction false} UpsertDistinctIntoEmpty<K, V>(es: seq<Entry<K, V>>)
    requires forall a, b :: 0 <= a < b < |es| ==> es[a].key != es[b].key
    ensures var t := UpsertAll(Empty(), es);
      && |t.rows| == |es| && t.nextId == |es| + 1
      && forall i :: 0 <= i < |es| ==> t.rows[i] == Row(i + 1, es[i].key, es[i].fields)
    decreases |es|
  {
    if es != [] {
      var p, e := es[..|es| - 1], es[|es| - 1];
      UpsertDistinctIntoEmpty(p);
      var m := UpsertAll(Empty(), p);
      assert forall i :: 0 <= i < |m.rows| ==> m.rows[i].key == p[i].key == es[i].key;
      assert Find(m.rows, e.key).None?;
    }
  }

  /** The position of the first entry with key `k`, or |es| when there is none. */
  function FirstIndex<K(==), V>(es: seq<Entry<K, V>>, k: K): (n: nat)
    ensures n <= |es|
    ensures n < |es| ==> es[n].key == k
    ensures forall j :: 0 <= j < n ==> es[j].key != k
  {
    if es == [] then 0
    else if es[0].key == k then 0
    else 1 + FirstIndex(es[1..], k)
  }

  ghost predicate NewRowsInEntryOrder<K, V>(s: TableState<K, V>, es: seq<Entry<K, V>>, t: TableState<K, V>) {
    forall i, i' :: |s.rows| <= i < i' < |t.rows| ==>
      FirstIndex(es, t.rows[i].key) < FirstIndex(es, t.rows[i'].key) < |es|
  }

  lemma FirstIndexSnoc<K, V>(p: seq<Entry<K, V>>, e: Entry<K, V>, k: K)
    requires FirstIndex(p, k) < |p|
    ensures FirstIndex(p + [e], k) == FirstIndex(p, k)
  {
    var n, n' := FirstIndex(p, k), FirstIndex(p + [e], k);
    assert (p + [e])[n] == p[n];
  }

  lemma FirstIndexSnocNew<K, V>(p: seq<Entry<K, V>>, e: Entry<K, V>)
    requires forall j :: 0 <= j < |p| ==> p[j].key != e.key
    ensures FirstIndex(p + [e], e.key) == |p|
  {
    var n' := FirstIndex(p + [e], e.key);
    assert (p + [e])[|p|] == e;
  }

  /** The key of every new row occurs among the entries. */
  lemma NewKeysOccur<K, V>(s: TableState<K, V>, es: seq<Entry<K, V>>, t: TableState<K, V>)
    requires Effect(s, es, t)
    ensures forall i :: |s.rows| <= i < |t.rows| ==> FirstIndex(es, t.rows[i].key) < |es|
  {
    forall i | |s.rows| <= i < |t.rows| ensures FirstIndex(es, t.rows[i].key) < |es| {
      LatestIsLast(es, t.rows[i].key);
    }
  }

  /** New rows, and so their ids, come in the order in which their keys first occur among the entries. */
  lemma {:induction false} UpsertAllNewRowsInEntryOrder<K, V>(s: TableState<K, V>, es: seq<Entry<K, V>>)
    requires WellFormed(s)
    ensures NewRowsInEntryOrder(s, es, UpsertAll(s, es))
    decreases |es|
  {
    if es != [] {
      var p, e := es[..|es| - 1], es[|es| - 1];
      assert es == p + [e];
      UpsertAllNewRowsInEntryOrder(s, p);
      UpsertAllEffect(s, p);
      var m := UpsertAll(s, p);
      var t := UpsertAll(s, es);
      NewKeysOccur(s, p, m);
      forall i | |s.rows| <= i < |m.rows|
        ensures FirstIndex(es, m.rows[i].key) == FirstIndex(p, m.rows[i].key)
      {
        FirstIndexSnoc(p, e, m.rows[i].key);
      }
      match Find(m.rows, e.key)
      case Some(x) =>
        assert t.rows == m.rows[x := m.rows[x].(fields := e.fields)];
      case None =>
        assert t.rows == m.rows + [Row(m.nextId, e.key, e.fields)];
        forall j | 0 <= j < |p| ensures p[j].key != e.key {
          assert Find(m.rows, p[j].key).Some?;
        }
        FirstIndexSnocNew(p, e);
    }
  }
}
