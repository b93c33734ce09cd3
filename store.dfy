/**
 * The versioned table behind the spreadsheet prototype. Every record is a
 * (row, column, value, valid_from, valid_to) row; a value is current at
 * time t when valid_from <= t <= valid_to (both ends inclusive, as SQL's
 * `between`). A commit never deletes a record: it closes records by setting
 * their valid_to to the commit time and appends new records that are open
 * until `datetime.max`.
 *
 * The table is modelled without a key; timestamps are integers.
 */
module Store {
  import opened Grid
  import opened Staging

  /** `datetime.max` (9999-12-31 23:59:59.999999) in microseconds since
      1970-01-01: the end of an open validity interval. */
  const MAX: int := 253402300799999999

  datatype Record = Record(row: nat, col: nat, value: string, validFrom: int, validTo: int) {
    function Coord(): Coord {
      (row, col)
    }

    /** `? between valid_from and valid_to` */
    predicate ValidAt(t: int) {
      validFrom <= t <= validTo
    }

    function AsCell(): Cell {
      Cell(row, col, value)
    }
  }

  /** `select row, column, value from test where ? between valid_from and
      valid_to`: the triples of the records current at t, in table order. */
  function Query(table: seq<Record>, t: int): (r: seq<Cell>)
    ensures |r| <= |table|
    ensures forall k :: 0 <= k < |table| && table[k].ValidAt(t) ==> table[k].AsCell() in r
    ensures forall x :: x in r ==> exists k :: 0 <= k < |table| && table[k].ValidAt(t) && table[k].AsCell() == x
  {
    if table == [] then []
    else
      var init, x := table[..|table| - 1], table[|table| - 1];
      assert forall k :: 0 <= k < |init| ==> table[k] == init[k];
      Query(init, t) + (if x.ValidAt(t) then [x.AsCell()] else [])
  }

  /** The records that yield triple x at time t. */
  function Producers(table: seq<Record>, t: int, x: Cell): set<nat> {
    set k | 0 <= k < |table| && table[k].ValidAt(t) && table[k].AsCell() == x
  }

  /** One row per current record: each triple occurs in the result as many
      times as there are current records holding it. */
  lemma {:induction false} QueryCounts(table: seq<Record>, t: int, x: Cell)
    ensures multiset(Query(table, t))[x] == |Producers(table, t, x)|
  {
    if table == [] {
      assert Producers(table, t, x) == {};
    } else {
      var n := |table|;
      var init, last := table[..n - 1], table[n - 1];
      QueryCounts(init, t, x);
      var tail := if last.ValidAt(t) then [last.AsCell()] else [];
      var before, after := Producers(init, t, x), Producers(table, t, x);
      assert Query(table, t) == Query(init, t) + tail;
      CountAppend(Query(init, t), tail, x);
      ProducersSnoc(table, t, x);
      if last.ValidAt(t) && last.AsCell() == x {
        assert n - 1 !in before;
        assert |after| == |before| + 1 by {
          assert after == before + {n - 1};
        }
        assert multiset(tail)[x] == 1;
      } else {
        assert after == before;
        assert multiset(tail)[x] == 0;
      }
    }
  }

  lemma CountAppend(a: seq<Cell>, b: seq<Cell>, x: Cell)
    ensures multiset(a + b)[x] == multiset(a)[x] + multiset(b)[x]
  {
    assert multiset(a + b) == multiset(a) + multiset(b);
  }

  lemma ProducersSnoc(table: seq<Record>, t: int, x: Cell)
    requires table != []
    ensures var n := |table|; var last := table[n - 1];
      Producers(table, t, x)
      == Producers(table[..n - 1], t, x) + (if last.ValidAt(t) && last.AsCell() == x then {n - 1} else {})
  {
    var n := |table|;
    assert forall k :: 0 <= k < n - 1 ==> table[k] == table[..n - 1][k];
  }

  // ---------------------------------------------------------------------
  // The diff of `commit`

  /** The three lists `commit` computes, keyed by coordinate. */
  datatype Diff = Diff(toDelete: set<Coord>, toInsert: map<Coord, string>, toUpdate: map<Coord, string>)

  /** Looking a coordinate up in a dictionary; "" stands for no entry. */
  function Get(m: map<Coord, string>, c: Coord): string {
    if c in m then m[c] else ""
  }

  predicate NoEmptyValues(m: map<Coord, string>) {
    forall c :: c in m ==> m[c] != ""
  }

  /** `to_delete`: in the baseline only; `to_insert`: in the staged triples
      only; `to_update`: in both with different values. The three are
      disjoint, cover exactly the coordinates whose entry differs, and carry
      the staged values. */
  function ComputeDiff(og: map<Coord, string>, nw: map<Coord, string>): (d: Diff)
    requires NoEmptyValues(og) && NoEmptyValues(nw)
    ensures d.toDelete !! d.toInsert.Keys && d.toDelete !! d.toUpdate.Keys && d.toInsert.Keys !! d.toUpdate.Keys
    ensures forall c :: (c in d.toDelete || c in d.toInsert || c in d.toUpdate) <==> Get(og, c) != Get(nw, c)
    ensures forall c :: c in d.toDelete ==> c in og && Get(nw, c) == ""
    ensures forall c :: c in d.toInsert ==> c in nw && d.toInsert[c] == nw[c] && Get(og, c) == ""
    ensures forall c :: c in d.toUpdate ==> c in nw && d.toUpdate[c] == nw[c] && c in og
  {
    Diff(og.Keys - nw.Keys,
         map c | c in nw.Keys - og.Keys && nw[c] != "" :: nw[c],
         map c | c in nw.Keys * og.Keys && nw[c] != og[c] :: nw[c])
  }

  /** Applying the diff to the baseline gives the staged dictionary. */
  lemma DiffPatches(og: map<Coord, string>, nw: map<Coord, string>)
    requires NoEmptyValues(og) && NoEmptyValues(nw)
    ensures var d := ComputeDiff(og, nw);
      (og - d.toDelete - d.toUpdate.Keys) + d.toInsert + d.toUpdate == nw
  {
    var d := ComputeDiff(og, nw);
    var p := (og - d.toDelete - d.toUpdate.Keys) + d.toInsert + d.toUpdate;
    forall c | c in p
      ensures c in nw && p[c] == nw[c]
    {
      assert Get(og, c) == Get(nw, c) || c in d.toDelete || c in d.toInsert || c in d.toUpdate;
    }
    forall c | c in nw
      ensures c in p
    {
      assert Get(og, c) == Get(nw, c) || c in d.toInsert || c in d.toUpdate;
    }
  }

  /** The diff is empty exactly when nothing was edited. */
  lemma DiffEmptyIff(og: map<Coord, string>, nw: map<Coord, string>)
    requires NoEmptyValues(og) && NoEmptyValues(nw)
    ensures var d := ComputeDiff(og, nw);
      (d.toDelete == {} && d.toInsert == map[] && d.toUpdate == map[]) <==> og == nw
  {
    var d := ComputeDiff(og, nw);
    if d.toDelete == {} && d.toInsert == map[] && d.toUpdate == map[] {
      forall c
        ensures Get(og, c) == Get(nw, c)
      {
        assert c !in d.toDelete && c !in d.toInsert && c !in d.toUpdate;
      }
      forall c | c in og
        ensures c in nw && og[c] == nw[c]
      {
        assert Get(og, c) == Get(nw, c);
      }
      forall c | c in nw
        ensures c in og
      {
        assert Get(og, c) == Get(nw, c);
      }
    }
  }

  // ---------------------------------------------------------------------
  // The writes of `commit`

  /** Each coordinate of keys exactly once: a Python set turned into a list. */
  predicate Enumerates(order: seq<Coord>, keys: set<Coord>) {
    && (forall c :: c in order ==> c in keys)
    && (forall c :: c in keys ==> c in order)
    && (forall a, b :: 0 <= a < b < |order| ==> order[a] != order[b])
  }

  /** `list(keys)`, in whatever order the set yields. */
  method Enumerate(keys: set<Coord>) returns (order: seq<Coord>)
    ensures Enumerates(order, keys)
    ensures |order| == |keys|
  {
    order := [];
    var rest := keys;
    while rest != {}
      invariant rest <= keys
      invariant forall c :: c in order <==> c in keys - rest
      invariant forall a, b :: 0 <= a < b < |order| ==> order[a] != order[b]
      invariant |order| + |rest| == |keys|
      decreases |rest|
    {
      var c :| c in rest;
      forall a | 0 <= a < |order|
        ensures order[a] != c
      {
        assert order[a] in order;
      }
      order := order + [c];
      rest := rest - {c};
    }
  }

  /** `insert into test values (i, j, v, now, datetime.max)` for each
      coordinate of order, in that order. */
  function OpenRecords(order: seq<Coord>, vals: map<Coord, string>, now: int): (r: seq<Record>)
    requires forall c :: c in order ==> c in vals
    ensures |r| == |order|
    ensures forall k :: 0 <= k < |r| ==> r[k].Coord() == order[k] && r[k].value == vals[order[k]]
    ensures forall k :: 0 <= k < |r| ==> r[k].validFrom == now && r[k].validTo == MAX
  {
    seq(|order|, k requires 0 <= k < |order| => Record(order[k].0, order[k].1, vals[order[k]], now, MAX))
  }

  /** `update test set valid_to=now where row=? and column=?` for each
      coordinate of cs: EVERY record at such a coordinate gets valid_to =
      now, the ones already closed included. */
  function Expire(table: seq<Record>, cs: set<Coord>, now: int): (r: seq<Record>)
    ensures |r| == |table|
    ensures forall k :: 0 <= k < |r| ==> r[k].Coord() == table[k].Coord() && r[k].value == table[k].value
    ensures forall k :: 0 <= k < |r| ==> r[k].validFrom == table[k].validFrom
    ensures forall k :: 0 <= k < |r| ==> r[k].validTo == if table[k].Coord() in cs then now else table[k].validTo
  {
    seq(|table|, k requires 0 <= k < |table| => if table[k].Coord() in cs then table[k].(validTo := now) else table[k])
  }

  /** The coordinates a list names. */
  function Elems(order: seq<Coord>): set<Coord> {
    set c | c in order
  }

  lemma ElemsSnoc(order: seq<Coord>, c: Coord)
    ensures Elems(order + [c]) == Elems(order) + {c}
  {
  }

  /** One `update ... where row=? and column=?` after the others: closing
      coordinate c after closing the set cs is closing cs + {c}. */
  lemma ExpireOneMore(table: seq<Record>, cs: set<Coord>, c: Coord, now: int)
    ensures Expire(Expire(table, cs, now), {c}, now) == Expire(table, cs + {c}, now)
  {
  }

  predicate CommitOrders(d: Diff, insOrder: seq<Coord>, updOrder: seq<Coord>) {
    Enumerates(insOrder, d.toInsert.Keys) && Enumerates(updOrder, d.toUpdate.Keys)
  }

  /** The table after the writes of `commit` at time now, in their order:
      insert `to_insert`, close `to_delete`, close `to_update`, insert
      `to_update`. */
  function CommitTable(table: seq<Record>, d: Diff, insOrder: seq<Coord>, updOrder: seq<Coord>, now: int): (r: seq<Record>)
    requires CommitOrders(d, insOrder, updOrder)
    ensures |r| == |table| + |insOrder| + |updOrder|
  {
    var inserted := table + OpenRecords(insOrder, d.toInsert, now);
    var deleted := Expire(inserted, d.toDelete, now);
    var updated := Expire(deleted, d.toUpdate.Keys, now);
    updated + OpenRecords(updOrder, d.toUpdate, now)
  }

  lemma EnumeratesSize(order: seq<Coord>, keys: set<Coord>)
    requires Enumerates(order, keys)
    ensures |order| == |keys|
    decreases |order|
  {
    if order != [] {
      var last := order[|order| - 1];
      var init := order[..|order| - 1];
      assert Enumerates(init, keys - {last}) by {
        forall c
          ensures c in init <==> c in keys - {last}
        {
          if c in init {
            var a :| 0 <= a < |init| && init[a] == c;
            assert order[a] != order[|order| - 1];
          }
          if c in order && c != last {
            var a :| 0 <= a < |order| && order[a] == c;
            assert a < |init|;
          }
        }
      }
      EnumeratesSize(init, keys - {last});
    }
  }

  /** The commit as three blocks: the old records, closed at the diff's
      coordinates; the `to_insert` records; the `to_update` records. */
  lemma CommitBlocks(table: seq<Record>, d: Diff, insOrder: seq<Coord>, updOrder: seq<Coord>, now: int)
    requires CommitOrders(d, insOrder, updOrder)
    requires d.toDelete !! d.toInsert.Keys && d.toInsert.Keys !! d.toUpdate.Keys
    ensures CommitTable(table, d, insOrder, updOrder, now)
         == Expire(table, d.toDelete + d.toUpdate.Keys, now)
            + OpenRecords(insOrder, d.toInsert, now)
            + OpenRecords(updOrder, d.toUpdate, now)
  {
    var ins := OpenRecords(insOrder, d.toInsert, now);
    var r := CommitTable(table, d, insOrder, updOrder, now);
    var want := Expire(table, d.toDelete + d.toUpdate.Keys, now) + ins + OpenRecords(updOrder, d.toUpdate, now);
    forall k | 0 <= k < |table| + |ins|
      ensures r[k] == want[k]
    {
      if k >= |table| {
        assert ins[k - |table|].Coord() in d.toInsert;
      }
    }
  }

  /** What a commit does to the table: it grows by one open record per
      inserted and per updated coordinate, starting at now; no record is
      removed; the old records keep their coordinate, value and start, and
      only those at a deleted or updated coordinate get a new end, now. */
  lemma CommitEffect(table: seq<Record>, d: Diff, insOrder: seq<Coord>, updOrder: seq<Coord>, now: int)
    requires CommitOrders(d, insOrder, updOrder)
    requires d.toDelete !! d.toInsert.Keys && d.toInsert.Keys !! d.toUpdate.Keys
    ensures var r := CommitTable(table, d, insOrder, updOrder, now);
      && |r| == |table| + |d.toInsert| + |d.toUpdate|
      && (forall k :: 0 <= k < |table| ==>
            r[k].Coord() == table[k].Coord() && r[k].value == table[k].value && r[k].validFrom == table[k].validFrom)
      && (forall k :: 0 <= k < |table| ==>
            r[k].validTo == if table[k].Coord() in d.toDelete || table[k].Coord() in d.toUpdate then now else table[k].validTo)
      && (forall k :: |table| <= k < |r| ==> r[k].validFrom == now && r[k].validTo == MAX)
      && (forall k :: |table| <= k < |r| ==>
            (r[k].Coord() in d.toInsert && r[k].value == d.toInsert[r[k].Coord()])
            || (r[k].Coord() in d.toUpdate && r[k].value == d.toUpdate[r[k].Coord()]))
  {
    CommitIsCommitted(table, d, insOrder, updOrder, now);
    CommittedNewDistinct(table, d, insOrder, updOrder, now, CommitTable(table, d, insOrder, updOrder, now));
    EnumeratesSize(insOrder, d.toInsert.Keys);
    EnumeratesSize(updOrder, d.toUpdate.Keys);
  }

  // ---------------------------------------------------------------------
  // What the readers see after a commit

  /** The shape every commit leaves the table in, seen from time t: every
      record has started by t and holds a non-empty value, every record is
      open (valid_to = MAX) or ended before t, and no coordinate has two
      open records. */
  predicate Settled(table: seq<Record>, t: int) {
    && (forall k :: 0 <= k < |table| ==> table[k].validFrom <= t && table[k].value != "")
    && (forall k :: 0 <= k < |table| ==> table[k].validTo == MAX || table[k].validTo < t)
    && (forall a, b :: 0 <= a < b < |table| && table[a].validTo == MAX && table[b].validTo == MAX
          ==> table[a].Coord() != table[b].Coord())
  }

  /** A settled table reads the same at every time from t to MAX. */
  lemma SettledStable(table: seq<Record>, t1: int, t2: int)
    requires Settled(table, t1) && t1 <= t2 <= MAX
    ensures MapOf(Query(table, t1)) == MapOf(Query(table, t2))
  {
    assert Settled(table, t2);
    SettledView(table, t1);
    SettledView(table, t2);
    ShowsUnique(table, MapOf(Query(table, t1)), MapOf(Query(table, t2)));
  }

  /** A read of a settled table yields each coordinate at most once. */
  lemma {:induction false} SettledQueryUnique(table: seq<Record>, t: int)
    requires Settled(table, t) && t <= MAX
    ensures Unique(Query(table, t))
  {
    if table != [] {
      var n := |table|;
      var init, x := table[..n - 1], table[n - 1];
      assert forall k :: 0 <= k < n - 1 ==> table[k] == init[k];
      assert Settled(init, t);
      SettledQueryUnique(init, t);
      var q := Query(init, t);
      if x.ValidAt(t) {
        forall y | y in q
          ensures y.Coord() != x.Coord()
        {
          var k :| 0 <= k < |init| && init[k].ValidAt(t) && init[k].AsCell() == y;
          assert table[k].validTo == MAX && table[n - 1].validTo == MAX;
        }
        UniqueSnoc(q, x.AsCell());
      } else {
        assert Query(table, t) == q + [];
      }
    }
  }

  lemma UniqueSnoc(s: seq<Cell>, c: Cell)
    requires Unique(s)
    requires forall y :: y in s ==> y.Coord() != c.Coord()
    ensures Unique(s + [c])
  {
    forall a, b | 0 <= a < b < |s + [c]|
      ensures (s + [c])[a].Coord() != (s + [c])[b].Coord()
    {
      if b == |s| {
        assert (s + [c])[a] in s;
      } else {
        assert (s + [c])[a] == s[a] && (s + [c])[b] == s[b];
      }
    }
  }

  /** In a settled table no coordinate is current with two values. */
  lemma SettledConsistent(table: seq<Record>, t: int)
    requires Settled(table, t) && t <= MAX
    ensures Consistent(Query(table, t))
  {
    var q := Query(table, t);
    forall x, y | x in q && y in q && x.Coord() == y.Coord()
      ensures x == y
    {
      var a :| 0 <= a < |table| && table[a].ValidAt(t) && table[a].AsCell() == x;
      var b :| 0 <= b < |table| && table[b].ValidAt(t) && table[b].AsCell() == y;
      assert table[a].Coord() == table[b].Coord();
    }
  }

  /** m is what the table shows: the value of each open record at its
      coordinate, and nothing else. */
  ghost predicate Shows(table: seq<Record>, m: map<Coord, string>) {
    && (forall k :: 0 <= k < |table| && table[k].validTo == MAX ==>
          table[k].Coord() in m && m[table[k].Coord()] == table[k].value)
    && (forall c :: c in m ==>
          exists k :: 0 <= k < |table| && table[k].validTo == MAX && table[k].Coord() == c && table[k].value == m[c])
  }

  /** What a settled table shows at t <= MAX: exactly its open records. */
  lemma SettledView(table: seq<Record>, t: int)
    requires Settled(table, t) && t <= MAX
    ensures Shows(table, MapOf(Query(table, t)))
  {
    SettledConsistent(table, t);
    MapOfConsistent(Query(table, t));
    var m := MapOf(Query(table, t));
    forall k | 0 <= k < |table| && table[k].validTo == MAX
      ensures table[k].Coord() in m && m[table[k].Coord()] == table[k].value
    {
      assert table[k].ValidAt(t);
    }
  }

  /** A table shows at most one dictionary. */
  lemma ShowsUnique(table: seq<Record>, m1: map<Coord, string>, m2: map<Coord, string>)
    requires Shows(table, m1) && Shows(table, m2)
    ensures m1 == m2
  {
    forall c | c in m1
      ensures c in m2 && m1[c] == m2[c]
    {
      var k :| 0 <= k < |table| && table[k].validTo == MAX && table[k].Coord() == c && table[k].value == m1[c];
    }
    forall c | c in m2
      ensures c in m1
    {
      var k :| 0 <= k < |table| && table[k].validTo == MAX && table[k].Coord() == c && table[k].value == m2[c];
    }
  }

  /** What the writes of a commit at time now leave in r, record by
      record: the old records, closed at the deleted and updated
      coordinates, then one open record per inserted coordinate, then one
      per updated coordinate. */
  ghost predicate Committed(table: seq<Record>, d: Diff, insOrder: seq<Coord>, updOrder: seq<Coord>, now: int, r: seq<Record>) {
    && CommitOrders(d, insOrder, updOrder)
    && |r| == |table| + |insOrder| + |updOrder|
    && (forall k :: 0 <= k < |table| ==>
          && r[k].Coord() == table[k].Coord() && r[k].value == table[k].value
          && r[k].validFrom == table[k].validFrom
          && r[k].validTo == if table[k].Coord() in d.toDelete || table[k].Coord() in d.toUpdate then now else table[k].validTo)
    && (forall p :: 0 <= p < |insOrder| ==>
          r[|table| + p] == Record(insOrder[p].0, insOrder[p].1, d.toInsert[insOrder[p]], now, MAX))
    && (forall p :: 0 <= p < |updOrder| ==>
          r[|table| + |insOrder| + p] == Record(updOrder[p].0, updOrder[p].1, d.toUpdate[updOrder[p]], now, MAX))
  }

  lemma CommitIsCommitted(table: seq<Record>, d: Diff, insOrder: seq<Coord>, updOrder: seq<Coord>, now: int)
    requires CommitOrders(d, insOrder, updOrder)
    requires d.toDelete !! d.toInsert.Keys && d.toInsert.Keys !! d.toUpdate.Keys
    ensures Committed(table, d, insOrder, updOrder, now, CommitTable(table, d, insOrder, updOrder, now))
  {
    CommitBlocks(table, d, insOrder, updOrder, now);
    var r := CommitTable(table, d, insOrder, updOrder, now);
    var oi, ou := OpenRecords(insOrder, d.toInsert, now), OpenRecords(updOrder, d.toUpdate, now);
    assert forall p :: 0 <= p < |insOrder| ==> r[|table| + p] == oi[p];
    assert forall p :: 0 <= p < |updOrder| ==> r[|table| + |insOrder| + p] == ou[p];
  }

  /** The contract of ComputeDiff(og, nw), as facts about d. */
  ghost predicate IsDiff(og: map<Coord, string>, nw: map<Coord, string>, d: Diff) {
    && d.toDelete !! d.toInsert.Keys && d.toDelete !! d.toUpdate.Keys && d.toInsert.Keys !! d.toUpdate.Keys
    && (forall c :: (c in d.toDelete || c in d.toInsert || c in d.toUpdate) <==> Get(og, c) != Get(nw, c))
    && (forall c :: c in d.toDelete ==> c in og && Get(nw, c) == "")
    && (forall c :: c in d.toInsert ==> c in nw && d.toInsert[c] == nw[c] && Get(og, c) == "")
    && (forall c :: c in d.toUpdate ==> c in nw && d.toUpdate[c] == nw[c] && c in og)
  }

  /** A settled table showing the baseline og, non-empty staged values nw,
      and their diff d. */
  ghost predicate Baseline(table: seq<Record>, og: map<Coord, string>, nw: map<Coord, string>, d: Diff, readAt: int) {
    && Settled(table, readAt) && Shows(table, og) && NoEmptyValues(nw) && IsDiff(og, nw, d)
  }

  lemma BaselineOf(table: seq<Record>, nw: map<Coord, string>, readAt: int)
    requires Settled(table, readAt) && readAt <= MAX && NoEmptyValues(nw)
    ensures var og := MapOf(Query(table, readAt));
      Baseline(table, og, nw, ComputeDiff(og, nw), readAt)
  {
    SettledView(table, readAt);
  }

  /** Committing staged values against the view of a settled table leaves
      the table settled, seen from any later time. */
  lemma CommitSettles(table: seq<Record>, nw: map<Coord, string>, insOrder: seq<Coord>, updOrder: seq<Coord>,
                      readAt: int, writeAt: int, t: int)
    requires Settled(table, readAt) && readAt <= writeAt < t <= MAX
    requires NoEmptyValues(nw)
    requires CommitOrders(ComputeDiff(MapOf(Query(table, readAt)), nw), insOrder, updOrder)
    ensures Settled(CommitTable(table, ComputeDiff(MapOf(Query(table, readAt)), nw), insOrder, updOrder, writeAt), t)
  {
    var og := MapOf(Query(table, readAt));
    var d := ComputeDiff(og, nw);
    BaselineOf(table, nw, readAt);
    CommitIsCommitted(table, d, insOrder, updOrder, writeAt);
    CommittedSettles(table, og, nw, d, insOrder, updOrder, readAt, writeAt, t,
                     CommitTable(table, d, insOrder, updOrder, writeAt));
  }

  lemma CommittedSettles(table: seq<Record>, og: map<Coord, string>, nw: map<Coord, string>, d: Diff,
                         insOrder: seq<Coord>, updOrder: seq<Coord>, readAt: int, writeAt: int, t: int, r: seq<Record>)
    requires Baseline(table, og, nw, d, readAt) && readAt <= writeAt < t <= MAX
    requires Committed(table, d, insOrder, updOrder, writeAt, r)
    ensures Settled(r, t)
  {
    CommittedFields(table, og, nw, d, insOrder, updOrder, readAt, writeAt, t, r);
    CommittedOldOpen(table, og, nw, d, insOrder, updOrder, readAt, writeAt, r);
    CommittedNewDistinct(table, d, insOrder, updOrder, writeAt, r);
    forall a, b | 0 <= a < b < |r| && r[a].validTo == MAX && r[b].validTo == MAX
      ensures r[a].Coord() != r[b].Coord()
    {
      if b < |table| {
        assert table[a].Coord() != table[b].Coord();
      }
    }
  }

  lemma CommittedFields(table: seq<Record>, og: map<Coord, string>, nw: map<Coord, string>, d: Diff,
                        insOrder: seq<Coord>, updOrder: seq<Coord>, readAt: int, writeAt: int, t: int, r: seq<Record>)
    requires Baseline(table, og, nw, d, readAt) && readAt <= writeAt < t <= MAX
    requires Committed(table, d, insOrder, updOrder, writeAt, r)
    ensures forall k :: 0 <= k < |r| ==> r[k].validFrom <= t && r[k].value != ""
    ensures forall k :: 0 <= k < |r| ==> r[k].validTo == MAX || r[k].validTo < t
  {
    CommittedNewDistinct(table, d, insOrder, updOrder, writeAt, r);
    forall k | 0 <= k < |r|
      ensures r[k].validFrom <= t && r[k].value != ""
      ensures r[k].validTo == MAX || r[k].validTo < t
    {
      if k < |table| {
        assert r[k].validFrom == table[k].validFrom && r[k].value == table[k].value;
      }
    }
  }

  /** An old record still open after the commit was open before, at a
      coordinate of the baseline that the commit does not touch. */
  lemma CommittedOldOpen(table: seq<Record>, og: map<Coord, string>, nw: map<Coord, string>, d: Diff,
                         insOrder: seq<Coord>, updOrder: seq<Coord>, readAt: int, writeAt: int, r: seq<Record>)
    requires Baseline(table, og, nw, d, readAt) && writeAt < MAX
    requires Committed(table, d, insOrder, updOrder, writeAt, r)
    ensures forall k :: 0 <= k < |table| && r[k].validTo == MAX ==>
        && r[k] == table[k] && table[k].validTo == MAX
        && table[k].Coord() in og && og[table[k].Coord()] == table[k].value
        && table[k].Coord() !in d.toInsert && table[k].Coord() !in d.toUpdate && table[k].Coord() !in d.toDelete
  {
  }

  /** The appended records are open, at the inserted and updated
      coordinates with the staged values, each coordinate once. */
  lemma CommittedNewDistinct(table: seq<Record>, d: Diff, insOrder: seq<Coord>, updOrder: seq<Coord>, now: int, r: seq<Record>)
    requires Committed(table, d, insOrder, updOrder, now, r)
    requires d.toInsert.Keys !! d.toUpdate.Keys
    ensures forall k :: |table| <= k < |r| ==> r[k].validFrom == now && r[k].validTo == MAX
    ensures forall k :: |table| <= k < |r| ==>
      (r[k].Coord() in d.toInsert && r[k].value == d.toInsert[r[k].Coord()])
      || (r[k].Coord() in d.toUpdate && r[k].value == d.toUpdate[r[k].Coord()])
    ensures forall a, b :: |table| <= a < b < |r| ==> r[a].Coord() != r[b].Coord()
  {
    var n, ni := |table|, |insOrder|;
    forall k | n <= k < |r|
      ensures r[k].validFrom == now && r[k].validTo == MAX
      ensures (r[k].Coord() in d.toInsert && r[k].value == d.toInsert[r[k].Coord()])
        || (r[k].Coord() in d.toUpdate && r[k].value == d.toUpdate[r[k].Coord()])
    {
      if k < n + ni {
        assert r[k] == Record(insOrder[k - n].0, insOrder[k - n].1, d.toInsert[insOrder[k - n]], now, MAX);
      } else {
        var p := k - n - ni;
        assert r[k] == Record(updOrder[p].0, updOrder[p].1, d.toUpdate[updOrder[p]], now, MAX);
      }
    }
    forall a, b | n <= a < b < |r|
      ensures r[a].Coord() != r[b].Coord()
    {
      if b < n + ni {
        assert r[a].Coord() == insOrder[a - n] && r[b].Coord() == insOrder[b - n];
      } else if a < n + ni {
        assert r[a].Coord() == insOrder[a - n] && r[b].Coord() == updOrder[b - n - ni];
      } else {
        assert r[a].Coord() == updOrder[a - n - ni] && r[b].Coord() == updOrder[b - n - ni];
      }
    }
  }

  /** After a commit of staged values against the view of a settled table,
      every later reader up to `datetime.max` sees exactly the staged
      values. */
  lemma CommitReproduces(table: seq<Record>, nw: map<Coord, string>, insOrder: seq<Coord>, updOrder: seq<Coord>,
                         readAt: int, writeAt: int, t: int)
    requires Settled(table, readAt) && readAt <= writeAt < t <= MAX
    requires NoEmptyValues(nw)
    requires CommitOrders(ComputeDiff(MapOf(Query(table, readAt)), nw), insOrder, updOrder)
    ensures MapOf(Query(CommitTable(table, ComputeDiff(MapOf(Query(table, readAt)), nw), insOrder, updOrder, writeAt), t)) == nw
  {
    var og := MapOf(Query(table, readAt));
    var d := ComputeDiff(og, nw);
    var r := CommitTable(table, d, insOrder, updOrder, writeAt);
    BaselineOf(table, nw, readAt);
    CommitIsCommitted(table, d, insOrder, updOrder, writeAt);
    CommittedSettles(table, og, nw, d, insOrder, updOrder, readAt, writeAt, t, r);
    CommittedShows(table, og, nw, d, insOrder, updOrder, readAt, writeAt, r);
    SettledView(r, t);
    ShowsUnique(r, MapOf(Query(r, t)), nw);
  }

  /** After the commit the table shows the staged values. */
  lemma CommittedShows(table: seq<Record>, og: map<Coord, string>, nw: map<Coord, string>, d: Diff,
                       insOrder: seq<Coord>, updOrder: seq<Coord>, readAt: int, writeAt: int, r: seq<Record>)
    requires Baseline(table, og, nw, d, readAt) && writeAt < MAX
    requires Committed(table, d, insOrder, updOrder, writeAt, r)
    ensures Shows(r, nw)
  {
    CommittedOldOpen(table, og, nw, d, insOrder, updOrder, readAt, writeAt, r);
    CommittedNewDistinct(table, d, insOrder, updOrder, writeAt, r);
    forall k | 0 <= k < |r| && r[k].validTo == MAX
      ensures r[k].Coord() in nw && nw[r[k].Coord()] == r[k].value
    {
      if k < |table| {
        var c := r[k].Coord();
        assert Get(og, c) == Get(nw, c);
      }
    }
    forall c | c in nw
      ensures exists k :: 0 <= k < |r| && r[k].validTo == MAX && r[k].Coord() == c && r[k].value == nw[c]
    {
      var k := CommittedOpenAt(table, og, nw, d, insOrder, updOrder, readAt, writeAt, r, c);
    }
  }

  /** An open record holding a staged value after the commit. */
  lemma CommittedOpenAt(table: seq<Record>, og: map<Coord, string>, nw: map<Coord, string>, d: Diff,
                        insOrder: seq<Coord>, updOrder: seq<Coord>, readAt: int, writeAt: int, r: seq<Record>, c: Coord)
      returns (k: nat)
    requires Baseline(table, og, nw, d, readAt) && writeAt < MAX
    requires Committed(table, d, insOrder, updOrder, writeAt, r)
    requires c in nw
    ensures k < |r| && r[k].validTo == MAX && r[k].Coord() == c && r[k].value == nw[c]
  {
    if c in d.toInsert {
      k := CommittedInsertedOpen(table, d, insOrder, updOrder, writeAt, r, c);
    } else if c in d.toUpdate {
      k := CommittedUpdatedOpen(table, d, insOrder, updOrder, writeAt, r, c);
    } else {
      assert Get(og, c) == Get(nw, c);
      k :| 0 <= k < |table| && table[k].validTo == MAX && table[k].Coord() == c && table[k].value == og[c];
      CommittedKeeps(table, d, insOrder, updOrder, writeAt, r, k);
    }
  }

  lemma CommittedInsertedOpen(table: seq<Record>, d: Diff, insOrder: seq<Coord>, updOrder: seq<Coord>, now: int,
                              r: seq<Record>, c: Coord) returns (k: nat)
    requires Committed(table, d, insOrder, updOrder, now, r)
    requires c in d.toInsert
    ensures k < |r| && r[k].validTo == MAX && r[k].Coord() == c && r[k].value == d.toInsert[c]
  {
    var p :| 0 <= p < |insOrder| && insOrder[p] == c;
    k := |table| + p;
  }

  lemma CommittedUpdatedOpen(table: seq<Record>, d: Diff, insOrder: seq<Coord>, updOrder: seq<Coord>, now: int,
                             r: seq<Record>, c: Coord) returns (k: nat)
    requires Committed(table, d, insOrder, updOrder, now, r)
    requires c in d.toUpdate
    ensures k < |r| && r[k] == Record(c.0, c.1, d.toUpdate[c], now, MAX)
  {
    var p :| 0 <= p < |updOrder| && updOrder[p] == c;
    k := |table| + |insOrder| + p;
  }

  /** An old record at a coordinate the diff does not touch is unchanged. */
  lemma CommittedKeeps(table: seq<Record>, d: Diff, insOrder: seq<Coord>, updOrder: seq<Coord>, now: int,
                       r: seq<Record>, k: nat)
    requires Committed(table, d, insOrder, updOrder, now, r)
    requires k < |table| && table[k].Coord() !in d.toDelete && table[k].Coord() !in d.toUpdate
    ensures k < |r| && r[k] == table[k]
  {
  }

  // ---------------------------------------------------------------------
  // Commits that change nothing, the commit instant, and the expiry quirk

  lemma EnumeratesNothing(order: seq<Coord>)
    requires Enumerates(order, {})
    ensures order == []
  {
    EnumeratesSize(order, {});
  }

  /** Committing with no edits since the baseline writes nothing: the
      table is left as it was. */
  lemma CommitUnchangedIsNoop(table: seq<Record>, insOrder: seq<Coord>, updOrder: seq<Coord>, readAt: int, writeAt: int)
    requires var og := MapOf(Query(table, readAt)); CommitOrders(ComputeDiff(og, og), insOrder, updOrder)
    ensures var og := MapOf(Query(table, readAt));
      CommitTable(table, ComputeDiff(og, og), insOrder, updOrder, writeAt) == table
  {
    var og := MapOf(Query(table, readAt));
    var d := ComputeDiff(og, og);
    DiffEmptyIff(og, og);
    assert d.toInsert.Keys == {} && d.toUpdate.Keys == {};
    EnumeratesNothing(insOrder);
    EnumeratesNothing(updOrder);
    CommitBlocks(table, d, insOrder, updOrder, writeAt);
    assert d.toDelete + d.toUpdate.Keys == {};
  }

  /** Committing again, with nothing edited since, writes nothing: the
      second read sees exactly the staged values, so its diff is empty. */
  lemma RecommitIsNoop(table: seq<Record>, nw: map<Coord, string>, insOrder: seq<Coord>, updOrder: seq<Coord>,
                       readAt: int, writeAt: int, readAgain: int, ins2: seq<Coord>, upd2: seq<Coord>, writeAgain: int)
    requires Settled(table, readAt) && readAt <= writeAt < readAgain <= MAX
    requires NoEmptyValues(nw)
    requires CommitOrders(ComputeDiff(MapOf(Query(table, readAt)), nw), insOrder, updOrder)
    requires var r := CommitTable(table, ComputeDiff(MapOf(Query(table, readAt)), nw), insOrder, updOrder, writeAt);
      CommitOrders(ComputeDiff(MapOf(Query(r, readAgain)), nw), ins2, upd2)
    ensures var r := CommitTable(table, ComputeDiff(MapOf(Query(table, readAt)), nw), insOrder, updOrder, writeAt);
      CommitTable(r, ComputeDiff(MapOf(Query(r, readAgain)), nw), ins2, upd2, writeAgain) == r
  {
    var r := CommitTable(table, ComputeDiff(MapOf(Query(table, readAt)), nw), insOrder, updOrder, writeAt);
    CommitReproduces(table, nw, insOrder, updOrder, readAt, writeAt, readAgain);
    CommitUnchangedIsNoop(r, ins2, upd2, readAgain, writeAgain);
  }

  /** Validity is inclusive at both ends, so at the very instant of the
      writes an updated coordinate shows both its old and its new value. */
  lemma CommitInstantShowsBoth(table: seq<Record>, nw: map<Coord, string>, insOrder: seq<Coord>, updOrder: seq<Coord>,
                               readAt: int, writeAt: int, c: Coord)
    requires Settled(table, readAt) && readAt <= writeAt < MAX
    requires NoEmptyValues(nw)
    requires CommitOrders(ComputeDiff(MapOf(Query(table, readAt)), nw), insOrder, updOrder)
    requires c in ComputeDiff(MapOf(Query(table, readAt)), nw).toUpdate
    ensures var og := MapOf(Query(table, readAt));
      var q := Query(CommitTable(table, ComputeDiff(og, nw), insOrder, updOrder, writeAt), writeAt);
      && Cell(c.0, c.1, og[c]) in q && Cell(c.0, c.1, nw[c]) in q && og[c] != nw[c]
  {
    var og := MapOf(Query(table, readAt));
    var d := ComputeDiff(og, nw);
    var r := CommitTable(table, d, insOrder, updOrder, writeAt);
    BaselineOf(table, nw, readAt);
    CommitIsCommitted(table, d, insOrder, updOrder, writeAt);
    var k, j := CommittedBothAt(table, og, nw, d, insOrder, updOrder, readAt, writeAt, r, c);
  }

  /** The old and the new record of an updated coordinate, both current at
      the instant of the writes. */
  lemma CommittedBothAt(table: seq<Record>, og: map<Coord, string>, nw: map<Coord, string>, d: Diff,
                        insOrder: seq<Coord>, updOrder: seq<Coord>, readAt: int, writeAt: int, r: seq<Record>, c: Coord)
      returns (k: nat, j: nat)
    requires Baseline(table, og, nw, d, readAt) && readAt <= writeAt < MAX
    requires Committed(table, d, insOrder, updOrder, writeAt, r)
    requires c in d.toUpdate
    ensures k < |r| && r[k].ValidAt(writeAt) && r[k].AsCell() == Cell(c.0, c.1, og[c])
    ensures j < |r| && r[j].ValidAt(writeAt) && r[j].AsCell() == Cell(c.0, c.1, nw[c])
    ensures og[c] != nw[c]
  {
    k :| 0 <= k < |table| && table[k].validTo == MAX && table[k].Coord() == c && table[k].value == og[c];
    assert r[k].validFrom == table[k].validFrom && r[k].validTo == writeAt;
    j := CommittedUpdatedOpen(table, d, insOrder, updOrder, writeAt, r, c);
  }

  /** Closing a coordinate rewrites the end of every record there, so a
      record already closed long ago becomes current again for the times
      between its old end and the commit: at time 7 the history below
      showed only "b" and afterwards shows "a" as well. */
  lemma ExpiryRewritesHistory()
    ensures var before := [Record(0, 0, "a", 1, 3), Record(0, 0, "b", 4, MAX)];
      var after := Expire(before, {(0, 0)}, 10);
      && Query(before, 7) == [Cell(0, 0, "b")]
      && Query(after, 7) == [Cell(0, 0, "a"), Cell(0, 0, "b")]
  {
    var before := [Record(0, 0, "a", 1, 3), Record(0, 0, "b", 4, MAX)];
    var after := Expire(before, {(0, 0)}, 10);
    assert before[..1] == [Record(0, 0, "a", 1, 3)] && before[..1][..0] == [];
    assert after == [Record(0, 0, "a", 1, 10), Record(0, 0, "b", 4, 10)];
    assert after[..1] == [Record(0, 0, "a", 1, 10)] && after[..1][..0] == [];
  }

  // ---------------------------------------------------------------------
  // The table as created with `primary key (row asc, column asc)`

  datatype Option<T> = None | Some(value: T)

  /** No two records share a coordinate. */
  predicate KeyUnique(table: seq<Record>) {
    forall a, b :: 0 <= a < b < |table| ==> table[a].Coord() != table[b].Coord()
  }

  /** `executemany('insert ...')` into the keyed table: the first record
      whose coordinate is already taken makes the statement fail. */
  function KeyedInsert(table: seq<Record>, recs: seq<Record>): (r: Option<seq<Record>>)
    ensures r.Some? ==> r.value == table + recs
    ensures r.Some? ==> forall a, k :: 0 <= a < |recs| && 0 <= k < |table| ==> recs[a].Coord() != table[k].Coord()
    ensures KeyUnique(table + recs) ==> r.Some?
    decreases |recs|
  {
    if recs == [] then
      assert table + recs == table;
      Some(table)
    else if exists k :: 0 <= k < |table| && table[k].Coord() == recs[0].Coord() then
      assert !KeyUnique(table + recs) by {
        var k :| 0 <= k < |table| && table[k].Coord() == recs[0].Coord();
        assert (table + recs)[k] == table[k] && (table + recs)[|table|] == recs[0];
      }
      None
    else
      var longer := table + [recs[0]];
      assert table + recs == longer + recs[1..];
      assert forall a :: 1 <= a < |recs| ==> recs[a] == recs[1..][a - 1];
      assert forall k :: 0 <= k < |table| ==> longer[k] == table[k];
      KeyedInsert(longer, recs[1..])
  }

  /** The writes of `commit` against the keyed table, failing as a whole
      when an insert fails. */
  function KeyedCommitTable(table: seq<Record>, d: Diff, insOrder: seq<Coord>, updOrder: seq<Coord>, now: int): Option<seq<Record>>
    requires CommitOrders(d, insOrder, updOrder)
  {
    match KeyedInsert(table, OpenRecords(insOrder, d.toInsert, now))
    case None => None
    case Some(inserted) =>
      var updated := Expire(Expire(inserted, d.toDelete, now), d.toUpdate.Keys, now);
      KeyedInsert(updated, OpenRecords(updOrder, d.toUpdate, now))
  }

  /** With the key, every commit that changes the value of a cell already
      in the table fails: the superseding record is inserted while the
      closed one still holds the coordinate. */
  lemma KeyedCommitRejectsUpdate(table: seq<Record>, nw: map<Coord, string>, insOrder: seq<Coord>, updOrder: seq<Coord>,
                                 readAt: int, writeAt: int)
    requires Settled(table, readAt) && readAt <= MAX
    requires NoEmptyValues(nw)
    requires CommitOrders(ComputeDiff(MapOf(Query(table, readAt)), nw), insOrder, updOrder)
    requires ComputeDiff(MapOf(Query(table, readAt)), nw).toUpdate != map[]
    ensures KeyedCommitTable(table, ComputeDiff(MapOf(Query(table, readAt)), nw), insOrder, updOrder, writeAt).None?
  {
    var og := MapOf(Query(table, readAt));
    var d := ComputeDiff(og, nw);
    BaselineOf(table, nw, readAt);
    var c :| c in d.toUpdate;
    var k :| 0 <= k < |table| && table[k].validTo == MAX && table[k].Coord() == c && table[k].value == og[c];
    var p :| 0 <= p < |updOrder| && updOrder[p] == c;
    KeyedRejects(table, d, insOrder, updOrder, writeAt, k, p);
  }

  lemma KeyedRejects(table: seq<Record>, d: Diff, insOrder: seq<Coord>, updOrder: seq<Coord>, now: int, k: nat, p: nat)
    requires CommitOrders(d, insOrder, updOrder)
    requires k < |table| && p < |updOrder| && table[k].Coord() == updOrder[p]
    ensures KeyedCommitTable(table, d, insOrder, updOrder, now).None?
  {
    var first := KeyedInsert(table, OpenRecords(insOrder, d.toInsert, now));
    if first.Some? {
      var updated := Expire(Expire(first.value, d.toDelete, now), d.toUpdate.Keys, now);
      assert updated[k].Coord() == table[k].Coord();
      assert OpenRecords(updOrder, d.toUpdate, now)[p].Coord() == updOrder[p];
    }
  }
}
