/**
 * The spreadsheet object of the prototype (`ExcelButBetter`): a versioned
 * table of records, the staged triples `_data` loaded from it, and the
 * extents of what was loaded. `refresh` reloads the triples current at a
 * time, `update_cell` edits the staged triples, and `commit` writes the
 * difference between the staged triples and a fresh read of the table,
 * then reloads.
 *
 * The database connection is replaced by the record sequence `table`, and
 * every reading of the clock is a parameter.
 */
module Sheet {
  import opened Grid
  import opened Staging
  import opened Store

  /** `max((row for row, col, value in data), default=0)` */
  function MaxRow(cells: seq<Cell>): (m: nat)
    ensures forall x :: x in cells ==> x.row <= m
    ensures cells == [] ==> m == 0
    ensures cells != [] ==> exists x :: x in cells && x.row == m
  {
    if cells == [] then 0
    else
      var init, x := cells[..|cells| - 1], cells[|cells| - 1];
      assert cells == init + [x];
      var m := MaxRow(init);
      if x.row >= m then x.row else m
  }

  /** `max((col for row, col, value in data), default=0)` */
  function MaxCol(cells: seq<Cell>): (m: nat)
    ensures forall x :: x in cells ==> x.col <= m
    ensures cells == [] ==> m == 0
    ensures cells != [] ==> exists x :: x in cells && x.col == m
  {
    if cells == [] then 0
    else
      var init, x := cells[..|cells| - 1], cells[|cells| - 1];
      assert cells == init + [x];
      var m := MaxCol(init);
      if x.col >= m then x.col else m
  }

  class ExcelButBetter {
    /** The records of the table `test`. */
    var table: seq<Record>
    /** `_data`: the staged triples. */
    var data: seq<Cell>
    /** `nrow_in_table` and `ncol_in_table`: the largest row and column
        loaded, 0 when nothing was. */
    var nrowInTable: nat
    var ncolInTable: nat

    /** Opening a sheet over the stored records (none for a new file) loads
        the triples current at now. */
    constructor (stored: seq<Record>, now: int)
      ensures table == stored
      ensures data == Sort(Query(stored, now))
      ensures nrowInTable == MaxRow(data) && ncolInTable == MaxCol(data)
      ensures Settled(stored, now) && now <= MAX ==> Unique(data) && (forall x :: x in data ==> x.value != "")
    {
      table := stored;
      data := [];
      nrowInTable, ncolInTable := 0, 0;
      new;
      var _ := Refresh(now);
    }

    /** The `rows` property: the dense form of the staged triples. */
    method Rows() returns (g: Rows)
      ensures g == ArrayOf(data)
    {
      g := IndexedToArray(data);
    }

    /** `refresh`: load the triples current at now, ordered by row and
        column, record the extents and return the dense form. */
    method Refresh(now: int) returns (g: Rows)
      modifies this
      ensures table == old(table)
      ensures data == Sort(Query(table, now))
      ensures nrowInTable == MaxRow(data) && ncolInTable == MaxCol(data)
      ensures g == ArrayOf(data)
      ensures Settled(table, now) && now <= MAX ==> Unique(data) && (forall x :: x in data ==> x.value != "")
    {
      var q := Sort(Query(table, now));
      if Settled(table, now) && now <= MAX {
        LoadUnique(table, now);
      }
      data := q;
      nrowInTable, ncolInTable := MaxRow(q), MaxCol(q);
      g := Rows();
    }

    /** `update_cell(i, j, value)`: strip the value; if anything is left,
        overwrite the first staged triple at (i, j) or append one. */
    method UpdateCell(i: nat, j: nat, value: string)
      modifies this
      ensures data == Staging.UpdateCell(old(data), i, j, value)
      ensures table == old(table) && nrowInTable == old(nrowInTable) && ncolInTable == old(ncolInTable)
      ensures Unique(old(data)) ==> Unique(data)
    {
      var v := Strip(value);
      if v == "" {
        return;
      }
      var idx := 0;
      while idx < |data| && data[idx].Coord() != (i, j)
        invariant 0 <= idx <= |data|
        invariant forall m :: 0 <= m < idx ==> data[m].Coord() != (i, j)
      {
        idx := idx + 1;
      }
      assert idx == FirstAt(data, i, j);
      if Unique(data) {
        UpsertUnique(data, i, j, v);
      }
      if idx < |data| {
        data := data[idx := Cell(i, j, v)];
      } else {
        data := data + [Cell(i, j, v)];
      }
    }

    /** `executemany('insert into test values (?, ?, ?, ?, ?)', recs)` */
    method InsertRecords(recs: seq<Record>)
      modifies this
      ensures table == old(table) + recs
      ensures data == old(data) && nrowInTable == old(nrowInTable) && ncolInTable == old(ncolInTable)
    {
      var k := 0;
      while k < |recs|
        invariant 0 <= k <= |recs|
        invariant table == old(table) + recs[..k]
        invariant data == old(data) && nrowInTable == old(nrowInTable) && ncolInTable == old(ncolInTable)
      {
        assert recs[..k + 1] == recs[..k] + [recs[k]];
        table := table + [recs[k]];
        k := k + 1;
      }
      assert recs[..k] == recs;
    }

    /** `executemany('update test set valid_to=? where row=? and column=?',
        ...)` over the coordinates of order, all at time now. */
    method ExpireAll(order: seq<Coord>, now: int)
      modifies this
      ensures table == Expire(old(table), Elems(order), now)
      ensures data == old(data) && nrowInTable == old(nrowInTable) && ncolInTable == old(ncolInTable)
    {
      var k := 0;
      while k < |order|
        invariant 0 <= k <= |order|
        invariant table == Expire(old(table), Elems(order[..k]), now)
        invariant data == old(data) && nrowInTable == old(nrowInTable) && ncolInTable == old(ncolInTable)
      {
        ExpireOneMore(old(table), Elems(order[..k]), order[k], now);
        assert order[..k + 1] == order[..k] + [order[k]];
        ElemsSnoc(order[..k], order[k]);
        table := Expire(table, {order[k]}, now);
        k := k + 1;
      }
      assert order[..k] == order;
    }

    /** The four `executemany` calls of `commit`, in their order. */
    method WriteDiff(d: Diff, insOrder: seq<Coord>, delOrder: seq<Coord>, updOrder: seq<Coord>, now: int)
      requires CommitOrders(d, insOrder, updOrder) && Enumerates(delOrder, d.toDelete)
      modifies this
      ensures table == CommitTable(old(table), d, insOrder, updOrder, now)
      ensures data == old(data) && nrowInTable == old(nrowInTable) && ncolInTable == old(ncolInTable)
    {
      InsertRecords(OpenRecords(insOrder, d.toInsert, now));
      ExpireAll(delOrder, now);
      assert Elems(delOrder) == d.toDelete;
      ExpireAll(updOrder, now);
      assert Elems(updOrder) == d.toUpdate.Keys;
      InsertRecords(OpenRecords(updOrder, d.toUpdate, now));
    }

    /** `commit`: read the baseline at readAt, diff it against the staged
        triples, write the inserts and closures at writeAt, and reload at
        reloadAt. On a settled table with the clock moving forward, the
        table stays settled and the reload brings back exactly the staged
        values; with nothing edited, nothing is written. */
    method Commit(readAt: int, writeAt: int, reloadAt: int) returns (insOrder: seq<Coord>, updOrder: seq<Coord>)
      modifies this
      ensures var d := ComputeDiff(MapOf(Query(old(table), readAt)), MapOf(old(data)));
        && CommitOrders(d, insOrder, updOrder)
        && table == CommitTable(old(table), d, insOrder, updOrder, writeAt)
      ensures data == Sort(Query(table, reloadAt))
      ensures nrowInTable == MaxRow(data) && ncolInTable == MaxCol(data)
      ensures Settled(old(table), readAt) && readAt <= writeAt < reloadAt <= MAX ==>
        && Settled(table, reloadAt) && Unique(data) && MapOf(data) == MapOf(old(data))
        && (forall t :: reloadAt <= t <= MAX ==> MapOf(Query(table, t)) == MapOf(old(data)))
        && (Unique(old(data)) && (forall x :: x in old(data) ==> x.value != "") ==> ArrayOf(data) == ArrayOf(old(data)))
      ensures MapOf(old(data)) == MapOf(Query(old(table), readAt)) ==> table == old(table)
    {
      var og := MapOf(Query(table, readAt));
      var nw := MapOf(data);
      var d := ComputeDiff(og, nw);
      var delOrder := Enumerate(d.toDelete);
      insOrder := Enumerate(d.toInsert.Keys);
      updOrder := Enumerate(d.toUpdate.Keys);
      ghost var before := table;
      WriteDiff(d, insOrder, delOrder, updOrder, writeAt);

      var _ := Refresh(reloadAt);
      if Settled(before, readAt) && readAt <= writeAt < reloadAt <= MAX {
        CommitThenReload(before, nw, insOrder, updOrder, readAt, writeAt, reloadAt);
        if Unique(old(data)) && (forall x :: x in old(data) ==> x.value != "") {
          SameMapSameGrid(data, old(data));
        }
      }
      if nw == og {
        CommitUnchangedIsNoop(before, insOrder, updOrder, readAt, writeAt);
      }
    }
  }

  /** A commit on a settled table followed by a reload brings back exactly
      the staged values, and leaves the table settled. */
  lemma CommitThenReload(table: seq<Record>, nw: map<Coord, string>, insOrder: seq<Coord>, updOrder: seq<Coord>,
                         readAt: int, writeAt: int, reloadAt: int)
    requires Settled(table, readAt) && readAt <= writeAt < reloadAt <= MAX
    requires NoEmptyValues(nw)
    requires CommitOrders(ComputeDiff(MapOf(Query(table, readAt)), nw), insOrder, updOrder)
    ensures var r := CommitTable(table, ComputeDiff(MapOf(Query(table, readAt)), nw), insOrder, updOrder, writeAt);
      && Settled(r, reloadAt) && MapOf(Sort(Query(r, reloadAt))) == nw
      && (forall t :: reloadAt <= t <= MAX ==> MapOf(Query(r, t)) == nw)
  {
    var r := CommitTable(table, ComputeDiff(MapOf(Query(table, readAt)), nw), insOrder, updOrder, writeAt);
    CommitSettles(table, nw, insOrder, updOrder, readAt, writeAt, reloadAt);
    CommitReproduces(table, nw, insOrder, updOrder, readAt, writeAt, reloadAt);
    SettledConsistent(r, reloadAt);
    SortedView(Query(r, reloadAt));
    forall t | reloadAt <= t <= MAX
      ensures MapOf(Query(r, t)) == nw
    {
      SettledStable(r, reloadAt, t);
    }
  }

  /** What a refresh loads from a settled table has each coordinate at most
      once and no empty value, so the staged triples and their dictionary
      agree. */
  lemma LoadUnique(table: seq<Record>, now: int)
    requires Settled(table, now) && now <= MAX
    ensures Unique(Sort(Query(table, now)))
    ensures forall x :: x in Sort(Query(table, now)) ==> x.value != ""
  {
    var q := Query(table, now);
    SettledQueryUnique(table, now);
    SortStrict(q);
    forall x | x in Sort(q)
      ensures x.value != ""
    {
      assert x in multiset(Sort(q));
      assert x in q;
    }
  }

  /** Sorting the triples does not change the dictionary built from them. */
  lemma SortedView(q: seq<Cell>)
    requires Consistent(q)
    ensures MapOf(Sort(q)) == MapOf(q)
  {
    var s := Sort(q);
    forall x
      ensures x in q <==> x in s
    {
      assert x in q <==> x in multiset(q);
      assert x in s <==> x in multiset(s);
    }
    MapOfSameElements(q, s);
  }
}
