/**
 * Sparse/dense converter of the spreadsheet prototype.
 *
 * `indexed_to_array` sorts (row, column, value) triples and walks them in
 * order, building a ragged row-major array: a row index that no triple uses
 * becomes an empty row `[]`, while a column gap inside a populated row is
 * filled with empty strings, and each row ends at its last populated column.
 * `array_to_indexed` lists the non-empty values of an array with their
 * coordinates, in row-major order.
 */
module Grid {

  /** One (row, column, value) triple of the sparse form. */
  datatype Cell = Cell(row: nat, col: nat, value: string) {
    function Coord(): (nat, nat) {
      (row, col)
    }
  }

  /** The dense form: a list of rows, each a list of values. */
  type Rows = seq<seq<string>>

  // ---------------------------------------------------------------------
  // The order `sorted` uses: tuples compare field by field, strings by code
  // point.

  predicate StrLe(a: string, b: string)
    decreases |a|
  {
    a == [] || (b != [] && (a[0] < b[0] || (a[0] == b[0] && StrLe(a[1..], b[1..]))))
  }

  lemma {:induction false} StrLeTotal(a: string, b: string)
    ensures StrLe(a, b) || StrLe(b, a)
    decreases |a|
  {
    if a != [] && b != [] && a[0] == b[0] {
      StrLeTotal(a[1..], b[1..]);
    }
  }

  predicate CellLe(a: Cell, b: Cell) {
    a.row < b.row || (a.row == b.row && (a.col < b.col || (a.col == b.col && StrLe(a.value, b.value))))
  }

  /** a's coordinate comes strictly before b's in row-major order. */
  predicate Before(a: Cell, b: Cell) {
    a.row < b.row || (a.row == b.row && a.col < b.col)
  }

  predicate Sorted(s: seq<Cell>) {
    forall k :: 0 < k < |s| ==> CellLe(s[k - 1], s[k])
  }

  /** Sorted by coordinate with no coordinate twice. */
  predicate StrictlySorted(s: seq<Cell>) {
    forall i, j :: 0 <= i < j < |s| ==> Before(s[i], s[j])
  }

  /** No coordinate occurs twice. */
  predicate Unique(s: seq<Cell>) {
    forall i, j :: 0 <= i < j < |s| ==> s[i].Coord() != s[j].Coord()
  }

  function Insert(x: Cell, s: seq<Cell>): (r: seq<Cell>)
    requires Sorted(s)
    ensures |r| == |s| + 1 && Sorted(r)
    ensures multiset(r) == multiset(s) + multiset{x}
    ensures r[0] == x || (s != [] && r[0] == s[0])
  {
    if s == [] then [x]
    else if CellLe(x, s[0]) then [x] + s
    else
      StrLeTotal(x.value, s[0].value);
      assert s == [s[0]] + s[1..];
      [s[0]] + Insert(x, s[1..])
  }

  /** `sorted(rows)`: the ascending permutation of the triples. */
  function Sort(s: seq<Cell>): (r: seq<Cell>)
    ensures Sorted(r) && multiset(r) == multiset(s)
  {
    if s == [] then []
    else
      assert s == s[..|s| - 1] + [s[|s| - 1]];
      Insert(s[|s| - 1], Sort(s[..|s| - 1]))
  }

  lemma {:induction false} InsertStrict(x: Cell, s: seq<Cell>)
    requires Sorted(s) && StrictlySorted(s)
    requires forall k :: 0 <= k < |s| ==> s[k].Coord() != x.Coord()
    ensures StrictlySorted(Insert(x, s))
  {
    if s != [] && !CellLe(x, s[0]) {
      StrLeTotal(x.value, s[0].value);
      InsertStrict(x, s[1..]);
      var tail := Insert(x, s[1..]);
      forall y | y in tail
        ensures Before(s[0], y)
      {
        assert y in multiset(tail);
      }
    }
  }

  /** Sorting triples whose coordinates are distinct orders them strictly by
      coordinate. */
  lemma {:induction false} SortStrict(s: seq<Cell>)
    requires Unique(s)
    ensures StrictlySorted(Sort(s))
  {
    if s != [] {
      var init, x := s[..|s| - 1], s[|s| - 1];
      SortStrict(init);
      var sorted := Sort(init);
      forall k | 0 <= k < |sorted|
        ensures sorted[k].Coord() != x.Coord()
      {
        assert sorted[k] in multiset(init);
      }
      InsertStrict(x, sorted);
    }
  }

  lemma {:induction false} InsertAtEnd(x: Cell, s: seq<Cell>)
    requires Sorted(s)
    requires forall k :: 0 <= k < |s| ==> Before(s[k], x)
    ensures Insert(x, s) == s + [x]
  {
    if s != [] {
      InsertAtEnd(x, s[1..]);
    }
  }

  /** Sorting leaves a strictly sorted list as it is. */
  lemma {:induction false} SortKeepsSorted(s: seq<Cell>)
    requires StrictlySorted(s)
    ensures Sort(s) == s
  {
    if s != [] {
      var init := s[..|s| - 1];
      SortKeepsSorted(init);
      InsertAtEnd(s[|s| - 1], init);
    }
  }

  // ---------------------------------------------------------------------
  // What a dense array says about a list of triples.

  /** Every triple is shown at its row and column. */
  ghost predicate ShowsAll(g: Rows, s: seq<Cell>) {
    forall t :: t in s ==> t.row < |g| && t.col < |g[t.row]| && g[t.row][t.col] == t.value
  }

  /** Every slot that is not "" shows a triple. */
  ghost predicate ShowsOnly(g: Rows, s: seq<Cell>) {
    forall i, j :: 0 <= i < |g| && 0 <= j < |g[i]| ==> g[i][j] == "" || Cell(i, j, g[i][j]) in s
  }

  /** Every non-empty row ends at a triple. */
  ghost predicate RowsEndAtCells(g: Rows, s: seq<Cell>) {
    forall i :: 0 <= i < |g| && |g[i]| > 0 ==> Cell(i, |g[i]| - 1, g[i][|g[i]| - 1]) in s
  }

  /** The array g is the dense form of the triples s: every triple is shown
      at its row and column, every other slot is "", every non-empty row
      ends at a triple, the last row is non-empty, and no triples give [[]]. */
  ghost predicate Represents(g: Rows, s: seq<Cell>) {
    && |g| > 0
    && (s == [] ==> g == [[]])
    && (s != [] ==> |g[|g| - 1]| > 0)
    && ShowsAll(g, s)
    && ShowsOnly(g, s)
    && RowsEndAtCells(g, s)
  }

  /** At most one array represents a list of triples. */
  lemma RepresentsDetermines(g1: Rows, g2: Rows, s: seq<Cell>)
    requires Represents(g1, s) && Represents(g2, s)
    ensures g1 == g2
  {
    if s != [] {
      assert Cell(|g1| - 1, |g1[|g1| - 1]| - 1, g1[|g1| - 1][|g1[|g1| - 1]| - 1]) in s;
      assert Cell(|g2| - 1, |g2[|g2| - 1]| - 1, g2[|g2| - 1][|g2[|g2| - 1]| - 1]) in s;
      forall i | 0 <= i < |g1|
        ensures g1[i] == g2[i]
      {
        if |g1[i]| > 0 {
          assert Cell(i, |g1[i]| - 1, g1[i][|g1[i]| - 1]) in s;
        }
        if |g2[i]| > 0 {
          assert Cell(i, |g2[i]| - 1, g2[i][|g2[i]| - 1]) in s;
        }
        forall j | 0 <= j < |g1[i]|
          ensures g1[i][j] == g2[i][j]
        {
          if g1[i][j] != "" {
            assert Cell(i, j, g1[i][j]) in s;
          } else if g2[i][j] != "" {
            assert Cell(i, j, g2[i][j]) in s;
          }
        }
      }
    }
  }

  /** Representation depends only on which triples there are. */
  lemma RepresentsPermutation(g: Rows, s: seq<Cell>, s': seq<Cell>)
    requires multiset(s) == multiset(s')
    requires Represents(g, s)
    ensures Represents(g, s')
  {
    forall x
      ensures x in s <==> x in s'
    {
      assert x in s <==> x in multiset(s);
      assert x in s' <==> x in multiset(s');
    }
    assert s == [] <==> s' == [] by {
      assert |s| == |multiset(s)| && |s'| == |multiset(s')|;
    }
  }

  // ---------------------------------------------------------------------
  // indexed_to_array

  /** `[''] * n`, which is empty for n <= 0. */
  function Blanks(n: int): (r: seq<string>)
    ensures |r| == (if n > 0 then n else 0)
    ensures forall k :: 0 <= k < |r| ==> r[k] == ""
  {
    seq(if n > 0 then n else 0, _ => "")
  }

  /** `[[] for _ in range(lo, hi)]` */
  function EmptyRows(lo: int, hi: int): (r: Rows)
    ensures |r| == (if hi > lo then hi - lo else 0)
    ensures forall k :: 0 <= k < |r| ==> r[k] == []
  {
    seq(if hi > lo then hi - lo else 0, _ => [])
  }

  /** The loop state of `indexed_to_array`: `result`, `this_row` and
      `previous_row_number`. */
  datatype Walk = Walk(done: Rows, current: seq<string>, previous: nat)

  /** One iteration of the loop body on triple c. */
  function Step(w: Walk, c: Cell): Walk {
    var w1 :=
      if c.row != w.previous then Walk(w.done + [w.current] + EmptyRows(w.previous + 1, c.row), [], c.row)
      else w;
    w1.(current := w1.current + Blanks(c.col - |w1.current|) + [c.value])
  }

  /** The loop state after the triples s. */
  function Walked(s: seq<Cell>): Walk {
    if s == [] then Walk([], [], 0) else Step(Walked(s[..|s| - 1]), s[|s| - 1])
  }

  /** The final `result.append(this_row)`. */
  function Finish(w: Walk): Rows {
    w.done + [w.current]
  }

  /** What `indexed_to_array(rows)` returns. */
  function ArrayOf(rows: seq<Cell>): Rows {
    Finish(Walked(Sort(rows)))
  }

  /** `indexed_to_array`: sort the triples, walk them, and append the row
      being built. */
  method IndexedToArray(rows: seq<Cell>) returns (result: Rows)
    ensures result == ArrayOf(rows)
  {
    var sorted := Sort(rows);
    var thisRow, previousRow;
    result, thisRow, previousRow := WalkCells(sorted);
    result := result + [thisRow];
  }

  /** The loop of `indexed_to_array` over the sorted triples: `result`,
      `this_row` and `previous_row_number` after the last triple. */
  method WalkCells(sorted: seq<Cell>) returns (result: Rows, thisRow: seq<string>, previousRow: nat)
    ensures Walk(result, thisRow, previousRow) == Walked(sorted)
  {
    result := [];
    thisRow, previousRow := [], 0;
    for k := 0 to |sorted|
      invariant Walk(result, thisRow, previousRow) == Walked(sorted[..k])
    {
      var c := sorted[k];
      assert sorted[..k + 1] == sorted[..k] + [c];
      WalkedSnoc(sorted[..k], c);
      if c.row != previousRow {
        result := result + [thisRow] + EmptyRows(previousRow + 1, c.row);
        thisRow, previousRow := [], c.row;
      }
      thisRow := thisRow + Blanks(c.col - |thisRow|) + [c.value];
    }
    assert sorted[..|sorted|] == sorted;
  }

  /** Facts about g' when triple t is appended to the last row of g after
      padding it with blanks up to t's column. */
  ghost predicate ExtendsLastRow(g: Rows, t: Cell, g': Rows) {
    && |g| > 0 && t.row == |g| - 1 && |g[t.row]| <= t.col
    && |g'| == |g| && g'[t.row] == g[t.row] + Blanks(t.col - |g[t.row]|) + [t.value]
    && (forall i :: 0 <= i < t.row ==> g'[i] == g[i])
  }

  lemma ExtendShowsAll(g: Rows, p: seq<Cell>, t: Cell, g': Rows)
    requires ExtendsLastRow(g, t, g') && ShowsAll(g, p)
    ensures ShowsAll(g', p + [t])
  {
    forall x | x in p + [t]
      ensures x.row < |g'| && x.col < |g'[x.row]| && g'[x.row][x.col] == x.value
    {
      if x != t {
        assert x in p;
      }
    }
  }

  lemma ExtendShowsOnly(g: Rows, p: seq<Cell>, t: Cell, g': Rows)
    requires ExtendsLastRow(g, t, g') && ShowsOnly(g, p)
    ensures ShowsOnly(g', p + [t])
  {
    forall i, j | 0 <= i < |g'| && 0 <= j < |g'[i]|
      ensures g'[i][j] == "" || Cell(i, j, g'[i][j]) in p + [t]
    {
      if i < t.row || j < |g[t.row]| {
        assert g'[i][j] == g[i][j];
      }
    }
  }

  lemma ExtendRowsEnd(g: Rows, p: seq<Cell>, t: Cell, g': Rows)
    requires ExtendsLastRow(g, t, g') && RowsEndAtCells(g, p)
    ensures RowsEndAtCells(g', p + [t])
  {
  }

  /** Facts about g' when triple t opens row t.row of g, with an empty row
      for every row index skipped. */
  ghost predicate AppendsRow(g: Rows, t: Cell, g': Rows) {
    && t.row >= |g| && |g'| == t.row + 1
    && (forall i :: 0 <= i < |g| ==> g'[i] == g[i])
    && (forall i :: |g| <= i < t.row ==> g'[i] == [])
    && g'[t.row] == Blanks(t.col) + [t.value]
  }

  lemma AppendShowsAll(g: Rows, p: seq<Cell>, t: Cell, g': Rows)
    requires AppendsRow(g, t, g') && ShowsAll(g, p)
    ensures ShowsAll(g', p + [t])
  {
    forall x | x in p + [t]
      ensures x.row < |g'| && x.col < |g'[x.row]| && g'[x.row][x.col] == x.value
    {
      if x != t {
        assert x in p;
      }
    }
  }

  lemma AppendShowsOnly(g: Rows, p: seq<Cell>, t: Cell, g': Rows)
    requires AppendsRow(g, t, g') && ShowsOnly(g, p)
    ensures ShowsOnly(g', p + [t])
  {
    forall i, j | 0 <= i < |g'| && 0 <= j < |g'[i]|
      ensures g'[i][j] == "" || Cell(i, j, g'[i][j]) in p + [t]
    {
      if i < |g| {
        assert g'[i][j] == g[i][j];
      }
    }
  }

  lemma AppendRowsEnd(g: Rows, p: seq<Cell>, t: Cell, g': Rows)
    requires AppendsRow(g, t, g') && RowsEndAtCells(g, p)
    ensures RowsEndAtCells(g', p + [t])
  {
  }

  /** A triple in the row being built, at or past its end. */
  lemma SameRowStep(w: Walk, p: seq<Cell>, t: Cell)
    requires |w.done| == w.previous == t.row && |w.current| <= t.col
    requires Represents(Finish(w), p)
    ensures Represents(Finish(Step(w, t)), p + [t])
  {
    var g, g' := Finish(w), Finish(Step(w, t));
    assert g' == w.done + [w.current + Blanks(t.col - |w.current|) + [t.value]];
    assert ExtendsLastRow(g, t, g');
    ExtendShowsAll(g, p, t, g');
    ExtendShowsOnly(g, p, t, g');
    ExtendRowsEnd(g, p, t, g');
  }

  /** A triple that opens a later row. */
  lemma NewRowStep(w: Walk, p: seq<Cell>, t: Cell)
    requires |w.done| == w.previous < t.row
    requires Represents(Finish(w), p)
    ensures Represents(Finish(Step(w, t)), p + [t])
  {
    var g := Finish(w);
    var w1 := Walk(g + EmptyRows(w.previous + 1, t.row), [], t.row);
    assert [] + Blanks(t.col - |w1.current|) == Blanks(t.col);
    assert Step(w, t) == w1.(current := Blanks(t.col) + [t.value]);
    var g' := Finish(Step(w, t));
    assert AppendsRow(g, t, g');
    AppendShowsAll(g, p, t, g');
    AppendShowsOnly(g, p, t, g');
    AppendRowsEnd(g, p, t, g');
  }

  /** The loop state after a strictly sorted prefix: one finished row per
      row index before the current one, and the dense form of the prefix. */
  lemma {:induction false} WalkedShape(p: seq<Cell>)
    requires StrictlySorted(p)
    ensures |Walked(p).done| == Walked(p).previous
    ensures Represents(Finish(Walked(p)), p)
    ensures p != [] ==> Walked(p).previous == p[|p| - 1].row && |Walked(p).current| == p[|p| - 1].col + 1
  {
    if p != [] {
      var init, t := p[..|p| - 1], p[|p| - 1];
      assert p == init + [t];
      assert StrictlySorted(init);
      WalkedShape(init);
      var w := Walked(init);
      assert Walked(p) == Step(w, t);
      if init != [] {
        assert Before(init[|init| - 1], t);
      }
      if t.row == w.previous {
        SameRowStep(w, init, t);
      } else {
        NewRowStep(w, init, t);
      }
    }
  }

  /** `indexed_to_array` of coordinate-unique triples, in any order, is
      their dense form. */
  lemma ArrayOfRepresents(rows: seq<Cell>)
    requires Unique(rows)
    ensures Represents(ArrayOf(rows), rows)
  {
    SortStrict(rows);
    WalkedShape(Sort(rows));
    RepresentsPermutation(ArrayOf(rows), Sort(rows), rows);
  }

  /** The shape promised for coordinate-unique input: max-row + 1 rows (or
      [[]] for no triples), each row as long as its largest column + 1 (or
      empty), each triple at its place and "" everywhere else. */
  lemma ArrayOfShape(rows: seq<Cell>)
    requires Unique(rows)
    ensures var g := ArrayOf(rows);
      && (rows == [] ==> g == [[]])
      && (forall t :: t in rows ==> t.row < |g| && t.col < |g[t.row]| && g[t.row][t.col] == t.value)
      && (rows != [] ==> exists t :: t in rows && t.row == |g| - 1)
      && (forall i :: 0 <= i < |g| && |g[i]| > 0 ==> exists t :: t in rows && t.row == i && t.col == |g[i]| - 1)
      && (forall i, j :: 0 <= i < |g| && 0 <= j < |g[i]| && g[i][j] != "" ==> Cell(i, j, g[i][j]) in rows)
  {
    ArrayOfRepresents(rows);
    var g := ArrayOf(rows);
    if rows != [] {
      var last := |g| - 1;
      assert Cell(last, |g[last]| - 1, g[last][|g[last]| - 1]) in rows;
    }
    forall i | 0 <= i < |g| && |g[i]| > 0
      ensures exists t :: t in rows && t.row == i && t.col == |g[i]| - 1
    {
      assert Cell(i, |g[i]| - 1, g[i][|g[i]| - 1]) in rows;
    }
  }

  // ---------------------------------------------------------------------
  // array_to_indexed

  lemma ConcatStrict(a: seq<Cell>, b: seq<Cell>)
    requires StrictlySorted(a) && StrictlySorted(b)
    requires forall x, y :: x in a && y in b ==> Before(x, y)
    ensures StrictlySorted(a + b)
  {
    forall i, j | 0 <= i < j < |a + b|
      ensures Before((a + b)[i], (a + b)[j])
    {
      if j < |a| {
        assert (a + b)[i] == a[i] && (a + b)[j] == a[j];
      } else if i >= |a| {
        assert (a + b)[i] == b[i - |a|] && (a + b)[j] == b[j - |a|];
      } else {
        assert (a + b)[i] in a && (a + b)[j] in b;
      }
    }
  }

  /** The triples of one row: its non-empty values with their columns. */
  function RowCells(i: nat, row: seq<string>): (r: seq<Cell>)
    ensures forall t :: t in r ==> t.row == i && t.value != "" && t.col < |row| && row[t.col] == t.value
    ensures forall j :: 0 <= j < |row| && row[j] != "" ==> Cell(i, j, row[j]) in r
    ensures StrictlySorted(r)
  {
    if row == [] then []
    else
      var init, v := row[..|row| - 1], row[|row| - 1];
      var prefix := RowCells(i, init);
      var last := if v != "" then [Cell(i, |row| - 1, v)] else [];
      ConcatStrict(prefix, last);
      prefix + last
  }

  /** `array_to_indexed(rows)`: every non-empty value with its coordinates,
      in row-major order. */
  function ArrayToIndexed(g: Rows): (r: seq<Cell>)
    ensures forall t :: t in r ==> t.value != "" && t.row < |g| && t.col < |g[t.row]| && g[t.row][t.col] == t.value
    ensures forall i, j :: 0 <= i < |g| && 0 <= j < |g[i]| && g[i][j] != "" ==> Cell(i, j, g[i][j]) in r
    ensures StrictlySorted(r)
  {
    if g == [] then []
    else
      var init := g[..|g| - 1];
      var prefix := ArrayToIndexed(init);
      var last := RowCells(|g| - 1, g[|g| - 1]);
      ConcatStrict(prefix, last);
      prefix + last
  }

  /** Two strictly sorted lists with the same elements are equal. */
  lemma {:induction false} SameElementsSorted(a: seq<Cell>, b: seq<Cell>)
    requires StrictlySorted(a) && StrictlySorted(b)
    requires forall x :: x in a <==> x in b
    ensures a == b
  {
    if a != [] {
      assert a[0] in b;
    }
    if b != [] {
      assert b[0] in a;
    }
    if a != [] && b != [] {
      forall x
        ensures x in a[1..] <==> x in b[1..]
      {
        assert x in a[1..] <==> x in a && x != a[0];
        assert x in b[1..] <==> x in b && x != b[0];
      }
      SameElementsSorted(a[1..], b[1..]);
      assert a == [a[0]] + a[1..] && b == [b[0]] + b[1..];
    }
  }

  /** The round trip: for triples sorted by coordinate, coordinate-unique
      and with non-empty values (including none at all), converting to the
      dense form and back gives the same triples. */
  lemma RoundTrip(a: seq<Cell>)
    requires StrictlySorted(a)
    requires forall k :: 0 <= k < |a| ==> a[k].value != ""
    ensures ArrayToIndexed(ArrayOf(a)) == a
  {
    var g := ArrayOf(a);
    ArrayOfRepresents(a);
    var r := ArrayToIndexed(g);
    forall x
      ensures x in r <==> x in a
    {
      if x in a {
        assert Cell(x.row, x.col, g[x.row][x.col]) == x;
      }
      if x in r {
        assert Cell(x.row, x.col, g[x.row][x.col]) == x;
      }
    }
    SameElementsSorted(r, a);
  }

  /** The converse does not hold: empty trailing slots and rows, and "" in
      general, carry no triple, so they do not come back. */
  lemma NotAnInverse()
    ensures ArrayToIndexed([["", "x", ""], [""]]) == [Cell(0, 1, "x")]
    ensures ArrayOf([Cell(0, 1, "x")]) == [["", "x"]]
  {
    var g := [["", "x", ""], [""]];
    assert g[..1] == [["", "x", ""]];
    assert [["", "x", ""]][..0] == [];
    NotAnInverseRow();
    BlankRowCells(1);
    NotAnInverseBack();
  }

  lemma BlankRowCells(i: nat)
    ensures RowCells(i, [""]) == []
  {
    assert [""][..0] == [];
  }

  lemma NotAnInverseRow()
    ensures RowCells(0, ["", "x", ""]) == [Cell(0, 1, "x")]
  {
    assert ["", "x", ""][..2] == ["", "x"];
    assert ["", "x"][..1] == [""];
    BlankRowCells(0);
    assert RowCells(0, ["", "x"]) == [Cell(0, 1, "x")];
  }

  lemma NotAnInverseBack()
    ensures ArrayOf([Cell(0, 1, "x")]) == [["", "x"]]
  {
    var s := [Cell(0, 1, "x")];
    assert s[..0] == [];
    assert Sort(s) == s;
    assert Blanks(1) == [""];
    assert Walked(s) == Walk([], ["", "x"], 0);
  }

  lemma WalkedSnoc(s: seq<Cell>, x: Cell)
    ensures Walked(s + [x]) == Step(Walked(s), x)
  {
    assert (s + [x])[..|s|] == s;
  }

  /** The examples the converter's tests check: a full 2 x 2 block.
      The triples are a parameter fixed by the precondition rather than a
      literal, and the walk is taken one prefix at a time (BlockWalk2,
      BlockWalk3, BlockWalk): a literal argument lets the verifier unfold
      Sort and Walked on it all at once, which costs far more than these
      few steps. */
  lemma ArrayOfBlockExample(s: seq<Cell>)
    requires s == [Cell(0, 0, "foo"), Cell(0, 1, "bar"), Cell(1, 0, "baz"), Cell(1, 1, "boo")]
    ensures ArrayOf(s) == [["foo", "bar"], ["baz", "boo"]]
  {
    BlockSorted(s);
    BlockWalk(s);
  }

  lemma BlockSorted(s: seq<Cell>)
    requires s == [Cell(0, 0, "foo"), Cell(0, 1, "bar"), Cell(1, 0, "baz"), Cell(1, 1, "boo")]
    ensures Sort(s) == s
  {
    forall i, j | 0 <= i < j < |s|
      ensures Before(s[i], s[j])
    {
    }
    SortKeepsSorted(s);
  }

  lemma BlockWalk(s: seq<Cell>)
    requires s == [Cell(0, 0, "foo"), Cell(0, 1, "bar"), Cell(1, 0, "baz"), Cell(1, 1, "boo")]
    ensures Walked(s) == Walk([["foo", "bar"]], ["baz", "boo"], 1)
  {
    BlockWalk3(s);
    assert s[..3] + [s[3]] == s;
    WalkedSnoc(s[..3], s[3]);
    StepAtRowEnd(Walk([["foo", "bar"]], ["baz"], 1), s[3]);
    assert ["baz"] + ["boo"] == ["baz", "boo"];
  }

  lemma BlockWalk3(s: seq<Cell>)
    requires s == [Cell(0, 0, "foo"), Cell(0, 1, "bar"), Cell(1, 0, "baz"), Cell(1, 1, "boo")]
    ensures Walked(s[..3]) == Walk([["foo", "bar"]], ["baz"], 1)
  {
    BlockWalk2(s);
    assert s[..2] + [s[2]] == s[..3];
    WalkedSnoc(s[..2], s[2]);
    StepToNextRow(Walk([], ["foo", "bar"], 0), s[2]);
    assert [] + [["foo", "bar"]] == [["foo", "bar"]];
  }

  lemma BlockWalk2(s: seq<Cell>)
    requires s == [Cell(0, 0, "foo"), Cell(0, 1, "bar"), Cell(1, 0, "baz"), Cell(1, 1, "boo")]
    ensures Walked(s[..2]) == Walk([], ["foo", "bar"], 0)
  {
    assert [] + [s[0]] == s[..1];
    WalkedSnoc([], s[0]);
    StepAtRowEnd(Walk([], [], 0), s[0]);
    assert [] + ["foo"] == ["foo"];
    assert s[..1] + [s[1]] == s[..2];
    WalkedSnoc(s[..1], s[1]);
    StepAtRowEnd(Walk([], ["foo"], 0), s[1]);
    assert ["foo"] + ["bar"] == ["foo", "bar"];
  }

  /** A triple in the current row, just after its last slot, is appended. */
  lemma StepAtRowEnd(w: Walk, c: Cell)
    requires c.row == w.previous && c.col == |w.current|
    ensures Step(w, c) == Walk(w.done, w.current + [c.value], w.previous)
  {
    assert Blanks(c.col - |w.current|) == [];
  }

  /** A triple at the start of the next row closes the current one. */
  lemma StepToNextRow(w: Walk, c: Cell)
    requires c.row == w.previous + 1 && c.col == 0
    ensures Step(w, c) == Walk(w.done + [w.current], [c.value], c.row)
  {
    assert EmptyRows(w.previous + 1, c.row) == [];
    assert Blanks(0) == [];
  }

  /** The examples the converter's tests check: a skipped row becomes [] and
      a column gap becomes "". */
  lemma ArrayOfGapExample()
    ensures ArrayOf([Cell(1, 3, "foo")]) == [[], ["", "", "", "foo"]]
  {
    var s := [Cell(1, 3, "foo")];
    assert s[..0] == [];
    assert Sort(s) == s;
    assert EmptyRows(1, 1) == [];
    assert Blanks(3) == ["", "", ""];
    assert Walked(s) == Walk([[]], ["", "", "", "foo"], 1);
  }
}
