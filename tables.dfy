/**
 * A table of the store: its rows in rowid order and the rowid the next insert receives.
 * `Upsert` runs one INSERT ... ON CONFLICT DO UPDATE statement, row after row.
 */
module Tables {
  import opened Wrappers
  import opened Upsert

  class Table<K(==), V> {
    var rows: seq<Row<K, V>>
    var nextId: int

    function State(): TableState<K, V>
      reads this
    {
      TableState(rows, nextId)
    }

    /**
     * The table's constraints: unique natural key, unique positive ids below nextId. Rows are
     * never deleted, so the ids are 1..n and nextId is n + 1, which is max(id) + 1, the rowid
     * SQLite gives the next insert into a table without AUTOINCREMENT (1 when empty).
     */
    ghost predicate Valid()
      reads this
    {
      WellFormed(State()) && DenseIds(State())
    }

    /** A freshly created, empty table. */
    constructor ()
      ensures Valid() && State() == Empty()
    {
      rows := [];
      nextId := 1;
    }

    /**
     * Runs one upsert statement over `entries` and returns SQLite's change count for it:
     * every entry either inserts or updates one row, so each counts once.
     */
    method Upsert(entries: seq<Entry<K, V>>) returns (touched: nat)
      requires Valid()
      modifies this
      ensures Valid()
      ensures State() == UpsertAll(old(State()), entries)
      ensures touched == |entries|
    {
      touched := 0;
      var i := 0;
      while i < |entries|
        invariant 0 <= i <= |entries|
        invariant State() == UpsertAll(old(State()), entries[..i])
        invariant touched == i
      {
        var e := entries[i];
        match Find(rows, e.key) {
          case Some(x) =>
            rows := rows[x := rows[x].(fields := e.fields)];
          case None =>
            rows := rows + [Row(nextId, e.key, e.fields)];
            nextId := nextId + 1;
        }
        assert entries[..i + 1][..i] == entries[..i];
        touched := touched + 1;
        i := i + 1;
      }
      assert entries[..i] == entries;
      UpsertAllEffect(old(State()), entries);
      UpsertAllKeepsDense(old(State()), entries);
    }
  }
}
