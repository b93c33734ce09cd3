/**
 * The staged triples of the spreadsheet prototype (`ExcelButBetter._data`)
 * and the edits made to them: `update_cell` strips the new value, ignores it
 * when nothing is left, and otherwise overwrites the first triple at the
 * coordinate or appends a new one. `MapOf` is the dictionary
 * `{(i, j): v for i, j, v in triples if v}` that `commit` builds from them.
 */
module Staging {
  import opened Grid

  type Coord = (nat, nat)

  // ---------------------------------------------------------------------
  // str.strip()

  /** The characters Python's `str.isspace` accepts. */
  predicate IsSpace(c: char) {
    var n := c as int;
    || n == 0x20 || 0x09 <= n <= 0x0D || 0x1C <= n <= 0x1F
    || n == 0x85 || n == 0xA0 || n == 0x1680 || 0x2000 <= n <= 0x200A
    || n == 0x2028 || n == 0x2029 || n == 0x202F || n == 0x205F || n == 0x3000
  }

  predicate AllSpace(s: string) {
    forall k :: 0 <= k < |s| ==> IsSpace(s[k])
  }

  /** `s.lstrip()`: the suffix left after the leading whitespace. */
  function TrimStart(s: string): (r: string)
    ensures |r| <= |s| && r == s[|s| - |r|..]
    ensures forall k :: 0 <= k < |s| - |r| ==> IsSpace(s[k])
    ensures r == [] || !IsSpace(r[0])
  {
    if s != [] && IsSpace(s[0]) then TrimStart(s[1..]) else s
  }

  /** `s.rstrip()`: the prefix left before the trailing whitespace. */
  function TrimEnd(s: string): (r: string)
    ensures |r| <= |s| && r == s[..|r|]
    ensures forall k :: |r| <= k < |s| ==> IsSpace(s[k])
    ensures r == [] || !IsSpace(r[|r| - 1])
  {
    if s != [] && IsSpace(s[|s| - 1]) then TrimEnd(s[..|s| - 1]) else s
  }

  /** `s.strip()`: nothing is left exactly when s is all whitespace, and
      what is left neither starts nor ends with whitespace. */
  function Strip(s: string): (r: string)
    ensures |r| <= |s|
    ensures r == [] <==> AllSpace(s)
    ensures r != [] ==> !IsSpace(r[0]) && !IsSpace(r[|r| - 1])
  {
    var t := TrimStart(s);
    assert t != [] ==> t[0] == s[|s| - |t|];
    TrimEnd(t)
  }

  lemma {:induction false} TrimStartPadded(pre: string, x: string)
    requires AllSpace(pre)
    requires x == [] || !IsSpace(x[0])
    ensures TrimStart(pre + x) == x
  {
    if pre != [] {
      assert (pre + x)[1..] == pre[1..] + x;
      TrimStartPadded(pre[1..], x);
    }
  }

  lemma {:induction false} TrimEndPadded(x: string, post: string)
    requires AllSpace(post)
    requires x == [] || !IsSpace(x[|x| - 1])
    ensures TrimEnd(x + post) == x
  {
    if post != [] {
      assert (x + post)[..|x + post| - 1] == x + post[..|post| - 1];
      TrimEndPadded(x, post[..|post| - 1]);
    }
  }

  /** Strip removes exactly the surrounding whitespace: a text that neither
      starts nor ends with whitespace comes back from any padding. */
  lemma StripPadded(pre: string, mid: string, post: string)
    requires AllSpace(pre) && AllSpace(post)
    requires mid == [] || (!IsSpace(mid[0]) && !IsSpace(mid[|mid| - 1]))
    ensures Strip(pre + mid + post) == mid
  {
    if mid == [] {
      assert pre + mid + post == pre + post;
      assert AllSpace(pre + post);
    } else {
      assert pre + mid + post == pre + (mid + post);
      TrimStartPadded(pre, mid + post);
      TrimEndPadded(mid, post);
    }
  }

  /** Stripping twice is stripping once. */
  lemma StripIdempotent(s: string)
    ensures Strip(Strip(s)) == Strip(s)
  {
    var r := Strip(s);
    assert [] + r + [] == r;
    StripPadded([], r, []);
  }

  // ---------------------------------------------------------------------
  // update_cell

  /** The position of the first triple at (i, j), or |s| when there is none:
      `[(i, j) == (i_, j_) for (i_, j_, v) in s].index(True)`. */
  function FirstAt(s: seq<Cell>, i: nat, j: nat): (k: nat)
    ensures k <= |s|
    ensures k < |s| ==> s[k].Coord() == (i, j)
    ensures forall m :: 0 <= m < k ==> s[m].Coord() != (i, j)
  {
    if s == [] then 0
    else if s[0].Coord() == (i, j) then 0
    else 1 + FirstAt(s[1..], i, j)
  }

  /** Overwrite the first triple at (i, j) with value v, or append one. */
  function Upsert(s: seq<Cell>, i: nat, j: nat, v: string): (r: seq<Cell>)
    ensures |r| == |s| || |r| == |s| + 1
    ensures |r| == |s| + 1 <==> forall m :: 0 <= m < |s| ==> s[m].Coord() != (i, j)
    ensures Cell(i, j, v) in r
    ensures forall m :: 0 <= m < |s| && s[m].Coord() != (i, j) ==> r[m] == s[m]
    ensures forall m :: 0 <= m < |r| && r[m].Coord() != (i, j) ==> m < |s| && r[m] == s[m]
    ensures FirstAt(s, i, j) < |r| && r[FirstAt(s, i, j)] == Cell(i, j, v)
    ensures forall m :: 0 <= m < |s| && m != FirstAt(s, i, j) ==> r[m] == s[m]
  {
    var k := FirstAt(s, i, j);
    if k < |s| then
      var r := s[k := Cell(i, j, v)];
      assert r[k] == Cell(i, j, v);
      r
    else
      var r := s + [Cell(i, j, v)];
      assert r[|s|] == Cell(i, j, v);
      r
  }

  /** What `update_cell(i, j, value)` leaves in `_data`. */
  function UpdateCell(s: seq<Cell>, i: nat, j: nat, value: string): (r: seq<Cell>)
    ensures AllSpace(value) ==> r == s
    ensures !AllSpace(value) ==> Cell(i, j, Strip(value)) in r && Strip(value) != ""
    ensures |s| <= |r| <= |s| + 1
    ensures forall m :: 0 <= m < |s| && s[m].Coord() != (i, j) ==> r[m] == s[m]
    ensures forall m :: 0 <= m < |r| && r[m].Coord() != (i, j) ==> m < |s| && r[m] == s[m]
  {
    var v := Strip(value);
    if v == "" then s else Upsert(s, i, j, v)
  }

  /** On coordinate-unique triples the edit keeps them unique, and the only
      triple at (i, j) holds the new value. */
  lemma UpsertUnique(s: seq<Cell>, i: nat, j: nat, v: string)
    requires Unique(s)
    ensures Unique(Upsert(s, i, j, v))
    ensures forall m :: 0 <= m < |Upsert(s, i, j, v)| && Upsert(s, i, j, v)[m].Coord() == (i, j)
              ==> Upsert(s, i, j, v)[m] == Cell(i, j, v)
  {
    var k := FirstAt(s, i, j);
    var r := Upsert(s, i, j, v);
    assert k < |r| && r[k] == Cell(i, j, v);
  }

  /** Editing the same cell twice with the same value is editing it once. */
  lemma UpsertIdempotent(s: seq<Cell>, i: nat, j: nat, v: string)
    ensures Upsert(Upsert(s, i, j, v), i, j, v) == Upsert(s, i, j, v)
  {
    var k := FirstAt(s, i, j);
    var r := Upsert(s, i, j, v);
    assert FirstAt(r, i, j) == k;
  }

  /** On coordinate-unique triples, `update_cell` with a value that is not
      all whitespace is the dictionary update `d[(i, j)] = value.strip()`. */
  lemma UpdateCellMap(s: seq<Cell>, i: nat, j: nat, value: string)
    requires Unique(s)
    ensures !AllSpace(value) ==> MapOf(UpdateCell(s, i, j, value)) == MapOf(s)[(i, j) := Strip(value)]
  {
    if !AllSpace(value) {
      UpsertMap(s, i, j, Strip(value));
    }
  }

  lemma UpdateCellIdempotent(s: seq<Cell>, i: nat, j: nat, value: string)
    ensures UpdateCell(UpdateCell(s, i, j, value), i, j, value) == UpdateCell(s, i, j, value)
  {
    if Strip(value) != "" {
      UpsertIdempotent(s, i, j, Strip(value));
    }
  }

  // ---------------------------------------------------------------------
  // The dictionary `{(i, j): v for i, j, v in triples if v}`

  /** Later triples overwrite earlier ones at the same coordinate, and
      triples with an empty value are skipped. */
  function MapOf(s: seq<Cell>): (m: map<Coord, string>)
    ensures forall c :: c in m ==> m[c] != "" && Cell(c.0, c.1, m[c]) in s
    ensures forall x :: x in s && x.value != "" ==> x.Coord() in m
  {
    if s == [] then map[]
    else
      var init, x := s[..|s| - 1], s[|s| - 1];
      assert s == init + [x];
      var m := MapOf(init);
      if x.value != "" then m[x.Coord() := x.value] else m
  }

  /** The last triple with a non-empty value at a coordinate is the one the
      dictionary keeps, whatever came before it. */
  lemma {:induction false} MapOfLastWins(s: seq<Cell>, k: nat)
    requires k < |s| && s[k].value != ""
    requires forall m :: k < m < |s| && s[m].Coord() == s[k].Coord() ==> s[m].value == ""
    ensures s[k].Coord() in MapOf(s) && MapOf(s)[s[k].Coord()] == s[k].value
  {
    var init, x := s[..|s| - 1], s[|s| - 1];
    if k < |s| - 1 {
      assert init[k] == s[k];
      forall m | k < m < |init| && init[m].Coord() == init[k].Coord()
        ensures init[m].value == ""
      {
        assert init[m] == s[m];
      }
      MapOfLastWins(init, k);
    }
  }

  /** No coordinate carries two different non-empty values. */
  predicate Consistent(s: seq<Cell>) {
    forall x, y :: x in s && y in s && x.Coord() == y.Coord() && x.value != "" && y.value != "" ==> x == y
  }

  lemma UniqueConsistent(s: seq<Cell>)
    requires Unique(s)
    ensures Consistent(s)
  {
    forall x, y | x in s && y in s && x.Coord() == y.Coord()
      ensures x == y
    {
      var a :| 0 <= a < |s| && s[a] == x;
      var b :| 0 <= b < |s| && s[b] == y;
    }
  }

  /** When no coordinate is ambiguous, the dictionary holds every non-empty
      value at its coordinate. */
  /** The dictionary fixes the dense form: two coordinate-unique lists of
      non-empty triples with the same dictionary convert to the same rows. */
  lemma SameMapSameGrid(s1: seq<Cell>, s2: seq<Cell>)
    requires Unique(s1) && Unique(s2)
    requires forall x :: x in s1 ==> x.value != ""
    requires forall x :: x in s2 ==> x.value != ""
    requires MapOf(s1) == MapOf(s2)
    ensures ArrayOf(s1) == ArrayOf(s2)
  {
    UniqueConsistent(s1);
    UniqueConsistent(s2);
    MapOfConsistent(s1);
    MapOfConsistent(s2);
    forall x
      ensures x in s1 <==> x in s2
    {
      if x in s1 {
        assert Cell(x.row, x.col, MapOf(s2)[x.Coord()]) in s2;
      }
      if x in s2 {
        assert Cell(x.row, x.col, MapOf(s1)[x.Coord()]) in s1;
      }
    }
    if s1 != [] {
      assert s1[0] in s2;
    }
    if s2 != [] {
      assert s2[0] in s1;
    }
    ArrayOfRepresents(s1);
    ArrayOfRepresents(s2);
    assert Represents(ArrayOf(s1), s2);
    RepresentsDetermines(ArrayOf(s1), ArrayOf(s2), s2);
  }

  lemma MapOfConsistent(s: seq<Cell>)
    requires Consistent(s)
    ensures forall x :: x in s && x.value != "" ==> MapOf(s)[x.Coord()] == x.value
  {
    forall x | x in s && x.value != ""
      ensures MapOf(s)[x.Coord()] == x.value
    {
      var m := MapOf(s);
      assert Cell(x.row, x.col, m[x.Coord()]) in s;
    }
  }

  /** The dictionary depends only on which triples there are, not on their
      order or repetition. */
  lemma MapOfSameElements(a: seq<Cell>, b: seq<Cell>)
    requires forall x :: x in a <==> x in b
    requires Consistent(a)
    ensures MapOf(a) == MapOf(b)
  {
    assert Consistent(b);
    MapOfConsistent(a);
    MapOfConsistent(b);
    var ma, mb := MapOf(a), MapOf(b);
    forall c | c in ma
      ensures c in mb
    {
      assert Cell(c.0, c.1, ma[c]) in b;
    }
    forall c | c in mb
      ensures c in ma
    {
      assert Cell(c.0, c.1, mb[c]) in a;
    }
    forall c | c in ma
      ensures ma[c] == mb[c]
    {
      assert Cell(c.0, c.1, ma[c]) in b;
    }
  }

  /** Editing a cell of coordinate-unique triples sets that one entry of the
      dictionary and no other. */
  lemma UpsertMap(s: seq<Cell>, i: nat, j: nat, v: string)
    requires Unique(s) && v != ""
    ensures MapOf(Upsert(s, i, j, v)) == MapOf(s)[(i, j) := v]
  {
    var r := Upsert(s, i, j, v);
    UpsertUnique(s, i, j, v);
    UniqueConsistent(s);
    UniqueConsistent(r);
    UpsertMapIncluded(s, r, i, j, v);
    UpsertMapCovers(s, r, i, j, v);
  }

  lemma UpsertMapIncluded(s: seq<Cell>, r: seq<Cell>, i: nat, j: nat, v: string)
    requires Consistent(s) && Consistent(r) && v != "" && Cell(i, j, v) in r
    requires forall m :: 0 <= m < |r| && r[m].Coord() != (i, j) ==> m < |s| && r[m] == s[m]
    ensures forall c :: c in MapOf(r) ==> c in MapOf(s)[(i, j) := v] && MapOf(r)[c] == MapOf(s)[(i, j) := v][c]
  {
    MapOfConsistent(s);
    MapOfConsistent(r);
    var mr := MapOf(r);
    forall c | c in mr
      ensures c in MapOf(s)[(i, j) := v] && mr[c] == MapOf(s)[(i, j) := v][c]
    {
      if c != (i, j) {
        var m :| 0 <= m < |r| && r[m] == Cell(c.0, c.1, mr[c]);
        assert s[m] == r[m];
      }
    }
  }

  lemma UpsertMapCovers(s: seq<Cell>, r: seq<Cell>, i: nat, j: nat, v: string)
    requires Consistent(s) && v != "" && r == Upsert(s, i, j, v)
    ensures forall c :: c in MapOf(s)[(i, j) := v] ==> c in MapOf(r)
  {
    var ms := MapOf(s);
    forall c | c in ms[(i, j) := v]
      ensures c in MapOf(r)
    {
      if c != (i, j) {
        var m :| 0 <= m < |s| && s[m] == Cell(c.0, c.1, ms[c]);
        assert r[m] == s[m];
      }
    }
  }

  /** An edit never takes a coordinate out of the dictionary: a staged cell
      cannot be cleared through `update_cell`. */
  lemma UpdateCellKeepsKeys(s: seq<Cell>, i: nat, j: nat, value: string)
    ensures MapOf(s).Keys <= MapOf(UpdateCell(s, i, j, value)).Keys
  {
    var r := UpdateCell(s, i, j, value);
    if !AllSpace(value) {
      forall c | c in MapOf(s)
        ensures c in MapOf(r)
      {
        var m :| 0 <= m < |s| && s[m] == Cell(c.0, c.1, MapOf(s)[c]);
        if c == (i, j) {
          assert Cell(i, j, Strip(value)) in r;
        } else {
          assert r[m] == s[m];
        }
      }
    }
  }
}
