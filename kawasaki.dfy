/** Conserved-magnetisation pair-exchange sweep (kawasaki.py).

    The lattice is updated in place together with two coordinate tables,
    `up` (sites holding +1) and `down` (sites holding -1), which must stay in
    step with it. The random generator is an input: `picks[t]` is the pair of
    table indices drawn for attempt t and `random(k)` is the k-th uniform
    float drawn. The sixteen-entry acceptance table `exponent`
    (exp(-k beta) for k = 1..16 in the source) is given as a table of reals. */
module Kawasaki {
  import opened Lattice
  import Wolff

  // ---------------------------------------------------------------------
  // Coordinate tables and their agreement with the lattice
  // ---------------------------------------------------------------------

  predicate Distinct(s: seq<Coord>) {
    forall a, b :: 0 <= a < b < |s| ==> s[a] != s[b]
  }

  /** `up` lists exactly the +1 sites of g and `down` exactly the -1 sites,
      each site once, and together they have N^2 entries. */
  ghost predicate Synced(g: Grid, up: seq<Coord>, down: seq<Coord>) {
    && Square(g) && SpinGrid(g)
    && |up| + |down| == |g| * |g|
    && (forall k :: 0 <= k < |up| ==> InGrid(g, up[k]) && At(g, up[k]) == 1)
    && (forall k :: 0 <= k < |down| ==> InGrid(g, down[k]) && At(g, down[k]) == -1)
    && Distinct(up) && Distinct(down)
    && (forall p :: InGrid(g, p) ==> p in up || p in down)
  }

  /** Row-major order on coordinates. */
  predicate Before(p: Coord, q: Coord) {
    p.row < q.row || (p.row == q.row && p.col < q.col)
  }

  predicate RowMajor(s: seq<Coord>) {
    forall a, b :: 0 <= a < b < |s| ==> Before(s[a], s[b])
  }

  /** Cells (i, 0), ..., (i, j - 1) of row i, whose values are `row`, that
      hold +1 (when `up`) or anything else (otherwise), in column order. */
  function RowScan(row: seq<int>, i: int, j: nat, up: bool): seq<Coord>
    requires j <= |row|
    decreases j
  {
    if j == 0 then []
    else RowScan(row, i, j - 1, up) + (if (row[j - 1] == 1) == up then [Coord(i, j - 1)] else [])
  }

  /** Cells of rows 0, ..., i - 1 that hold +1 (when `up`) or anything else
      (otherwise), in row-major order. */
  function Scan(g: Grid, i: nat, up: bool): seq<Coord>
    requires Rect(g) && i <= |g|
    decreases i
  {
    if i == 0 then [] else Scan(g, i - 1, up) + RowScan(g[i - 1], i - 1, Width(g), up)
  }

  /** One more column of a row scan. */
  lemma RowScanStep(row: seq<int>, i: int, j: nat, up: bool)
    requires j < |row|
    ensures RowScan(row, i, j + 1, up)
      == if (row[j] == 1) == up then RowScan(row, i, j, up) + [Coord(i, j)] else RowScan(row, i, j, up)
  {
  }

  /** A row scan holds exactly the matching cells of its row prefix. */
  lemma {:induction false} RowScanMembers(row: seq<int>, i: int, j: nat, up: bool)
    requires j <= |row|
    ensures forall p :: p in RowScan(row, i, j, up) <==> p.row == i && 0 <= p.col < j && (row[p.col] == 1) == up
    decreases j
  {
    if j > 0 {
      RowScanMembers(row, i, j - 1, up);
      RowScanStep(row, i, j - 1, up);
    }
  }

  /** Matching cells of a row prefix. */
  predicate RowEntry(row: seq<int>, i: int, j: nat, up: bool, p: Coord)
    requires j <= |row|
  {
    p.row == i && 0 <= p.col < j && (row[p.col] == 1) == up
  }

  /** Every entry of a row scan is a matching cell of the row prefix. */
  lemma {:induction false} RowScanEntries(row: seq<int>, i: int, j: nat, up: bool)
    requires j <= |row|
    ensures forall k :: 0 <= k < |RowScan(row, i, j, up)| ==> RowEntry(row, i, j, up, RowScan(row, i, j, up)[k])
    decreases j
  {
    if j > 0 {
      RowScanEntries(row, i, j - 1, up);
      RowScanStep(row, i, j - 1, up);
      var prev, r := RowScan(row, i, j - 1, up), RowScan(row, i, j, up);
      forall k | 0 <= k < |r|
        ensures RowEntry(row, i, j, up, r[k])
      {
        if k < |prev| {
          assert r[k] == prev[k];
        }
      }
    }
  }

  /** A row scan is in column order. */
  lemma {:induction false} RowScanOrdered(row: seq<int>, i: int, j: nat, up: bool)
    requires j <= |row|
    ensures RowMajor(RowScan(row, i, j, up))
    decreases j
  {
    if j > 0 {
      RowScanEntries(row, i, j - 1, up);
      RowScanOrdered(row, i, j - 1, up);
      RowScanStep(row, i, j - 1, up);
      var prev, r := RowScan(row, i, j - 1, up), RowScan(row, i, j, up);
      forall a, b | 0 <= a < b < |r|
        ensures Before(r[a], r[b])
      {
        assert r[a] == prev[a];
        if b < |prev| {
          assert r[b] == prev[b];
        }
      }
    }
  }

  /** Matching cells of the first i rows. */
  ghost predicate ScanCell(g: Grid, i: nat, up: bool, p: Coord)
    requires Rect(g)
  {
    0 <= p.row < i && 0 <= p.col < Width(g) && p.row < |g| && (g[p.row][p.col] == 1) == up
  }

  /** A scan holds exactly the matching cells of its first i rows. */
  lemma {:induction false} ScanMembers(g: Grid, i: nat, up: bool)
    requires Rect(g) && i <= |g|
    ensures forall p :: p in Scan(g, i, up) <==> ScanCell(g, i, up, p)
    decreases i
  {
    if i > 0 {
      ScanMembers(g, i - 1, up);
      RowScanMembers(g[i - 1], i - 1, Width(g), up);
    }
  }

  /** Every entry of a scan is a matching cell of its first i rows. */
  lemma {:induction false} ScanEntries(g: Grid, i: nat, up: bool)
    requires Rect(g) && i <= |g|
    ensures forall k :: 0 <= k < |Scan(g, i, up)| ==> ScanCell(g, i, up, Scan(g, i, up)[k])
    decreases i
  {
    if i > 0 {
      ScanEntries(g, i - 1, up);
      RowScanEntries(g[i - 1], i - 1, Width(g), up);
      var a, b := Scan(g, i - 1, up), RowScan(g[i - 1], i - 1, Width(g), up);
      var r := Scan(g, i, up);
      assert r == a + b;
      forall k | 0 <= k < |r|
        ensures ScanCell(g, i, up, r[k])
      {
        if k < |a| {
          assert r[k] == a[k];
          assert ScanCell(g, i - 1, up, a[k]);
        } else {
          var m := k - |a|;
          assert r[k] == b[m];
          assert RowEntry(g[i - 1], i - 1, Width(g), up, b[m]);
        }
      }
    }
  }

  /** A scan is in row-major order. */
  lemma {:induction false} ScanOrdered(g: Grid, i: nat, up: bool)
    requires Rect(g) && i <= |g|
    ensures RowMajor(Scan(g, i, up))
    decreases i
  {
    if i > 0 {
      ScanEntries(g, i - 1, up);
      ScanOrdered(g, i - 1, up);
      RowScanEntries(g[i - 1], i - 1, Width(g), up);
      RowScanOrdered(g[i - 1], i - 1, Width(g), up);
      var a, b := Scan(g, i - 1, up), RowScan(g[i - 1], i - 1, Width(g), up);
      var r := Scan(g, i, up);
      assert r == a + b;
      forall x, y | 0 <= x < y < |r|
        ensures Before(r[x], r[y])
      {
        if y < |a| {
          assert r[x] == a[x] && r[y] == a[y];
        } else if x < |a| {
          assert r[x] == a[x] && r[y] == b[y - |a|];
          assert ScanCell(g, i - 1, up, a[x]);
        } else {
          assert r[x] == b[x - |a|] && r[y] == b[y - |a|];
        }
      }
    }
  }

  /** Both row scans together have j entries, the +1 scan one per +1 cell. */
  lemma {:induction false} RowScanLengths(row: seq<int>, i: int, j: nat)
    requires j <= |row|
    ensures |RowScan(row, i, j, true)| + |RowScan(row, i, j, false)| == j
    ensures |RowScan(row, i, j, true)| == Sums.Sum1(c => if 0 <= c < |row| && row[c] == 1 then 1 else 0, j)
    decreases j
  {
    if j > 0 {
      RowScanLengths(row, i, j - 1);
      RowScanStep(row, i, j - 1, true);
      RowScanStep(row, i, j - 1, false);
    }
  }

  /** The two scans of the first i rows together have i * width entries. */
  lemma {:induction false} ScanLengths(g: Grid, i: nat)
    requires Rect(g) && i <= |g|
    ensures |Scan(g, i, true)| + |Scan(g, i, false)| == i * Width(g)
    decreases i
  {
    if i > 0 {
      var w := Width(g);
      ScanLengths(g, i - 1);
      RowScanLengths(g[i - 1], i - 1, w);
      assert |Scan(g, i, true)| == |Scan(g, i - 1, true)| + |RowScan(g[i - 1], i - 1, w, true)|;
      assert |Scan(g, i, false)| == |Scan(g, i - 1, false)| + |RowScan(g[i - 1], i - 1, w, false)|;
      Sums.MulStep(i, w);
    }
  }

  /** The +1 scan of the first i rows has one entry per +1 cell in them. */
  lemma {:induction false} ScanUpCount(g: Grid, i: nat)
    requires Rect(g) && i <= |g|
    ensures |Scan(g, i, true)| == Sums.Sum1(r => Sums.RowSum((a, b) => UpAt(g, a, b), r, Width(g)), i)
    decreases i
  {
    if i > 0 {
      var w, row := Width(g), g[i - 1];
      ScanUpCount(g, i - 1);
      RowScanLengths(row, i - 1, w);
      assert |Scan(g, i, true)| == |Scan(g, i - 1, true)| + |RowScan(row, i - 1, w, true)|;
      var f := (a, b) => UpAt(g, a, b);
      var rows := r => Sums.RowSum(f, r, w);
      Sums.Sum1Ext(c => if 0 <= c < |row| && row[c] == 1 then 1 else 0, c => f(i - 1, c), w);
      assert Sums.Sum1(rows, i) == Sums.Sum1(rows, i - 1) + Sums.RowSum(f, i - 1, w);
    }
  }

  /** The tables `get_lists` builds match the grid, and `up` has as many
      entries as there are +1 cells. */
  lemma GetListsSynced(g: Grid)
    requires Square(g) && SpinGrid(g)
    ensures Synced(g, Scan(g, |g|, true), Scan(g, |g|, false))
    ensures |Scan(g, |g|, true)| == UpCount(g)
  {
    var up, down := Scan(g, |g|, true), Scan(g, |g|, false);
    ScanLengths(g, |g|);
    ScanUpCount(g, |g|);
    ScanMembers(g, |g|, true);
    ScanMembers(g, |g|, false);
    ScanEntries(g, |g|, true);
    ScanEntries(g, |g|, false);
    ScanOrdered(g, |g|, true);
    ScanOrdered(g, |g|, false);
    forall p | InGrid(g, p)
      ensures p in up || p in down
    {
    }
  }

  /** Remove the rows left at their fill value (-1, -1), as
      `up[~np.all(up == -1, axis=1)]` does. */
  function DropUnfilled(s: seq<Coord>): (r: seq<Coord>)
    ensures |r| <= |s|
    ensures forall k :: 0 <= k < |r| ==> r[k] != Coord(-1, -1) && r[k] in s
    ensures forall x :: x in s && x != Coord(-1, -1) ==> x in r
    decreases |s|
  {
    if s == [] then []
    else if s[0] == Coord(-1, -1) then DropUnfilled(s[1..])
    else [s[0]] + DropUnfilled(s[1..])
  }

  /** Dropping unfilled rows from a filled prefix followed by fill rows leaves
      exactly the prefix: no real coordinate equals the fill value. */
  lemma {:induction false} DropUnfilledPrefix(a: seq<Coord>, b: seq<Coord>)
    requires forall k :: 0 <= k < |a| ==> a[k].row >= 0
    requires forall k :: 0 <= k < |b| ==> b[k] == Coord(-1, -1)
    ensures DropUnfilled(a + b) == a
    decreases |a| + |b|
  {
    if a != [] {
      assert (a + b)[0] == a[0] && (a + b)[1..] == a[1..] + b;
      DropUnfilledPrefix(a[1..], b);
      assert a == [a[0]] + a[1..];
    } else if b != [] {
      assert a + b == b && a + b[1..] == b[1..];
      DropUnfilledPrefix(a, b[1..]);
    } else {
      assert a + b == [];
    }
  }

  /** A buffer whose first m rows are real coordinates and whose remaining
      rows still hold the fill value loses exactly its tail. */
  lemma DropUnfilledBuffer(buf: seq<Coord>, m: nat, g: Grid, up: bool)
    requires Rect(g) && m <= |buf| && buf[..m] == Scan(g, |g|, up)
    requires forall k :: m <= k < |buf| ==> buf[k] == Coord(-1, -1)
    ensures DropUnfilled(buf) == Scan(g, |g|, up)
  {
    ScanEntries(g, |g|, up);
    assert forall k :: 0 <= k < m ==> buf[k] == buf[..m][k];
    assert buf == buf[..m] + buf[m..];
    DropUnfilledPrefix(buf[..m], buf[m..]);
  }

  /** Cell (i, j) of the `np.ndindex` scan in `get_lists`: a +1 cell is
      written to `upBuf` at counter iu, any other to `downBuf` at counter id,
      and that counter advances. */
  method ScanOne(state: array2<int>, i: int, j: int, upBuf: array<Coord>, downBuf: array<Coord>, iu0: nat, id0: nat)
    returns (iu: nat, id: nat)
    requires 0 <= i < state.Length0 && 0 <= j < state.Length1
    requires upBuf != downBuf && iu0 < upBuf.Length && id0 < downBuf.Length
    modifies upBuf, downBuf
    ensures iu + id == iu0 + id0 + 1 && iu <= upBuf.Length && id <= downBuf.Length
    ensures upBuf[..iu] == old(upBuf[..iu0]) + if state[i, j] == 1 then [Coord(i, j)] else []
    ensures downBuf[..id] == old(downBuf[..id0]) + if state[i, j] == 1 then [] else [Coord(i, j)]
    ensures forall k :: iu <= k < upBuf.Length ==> upBuf[k] == old(upBuf[k])
    ensures forall k :: id <= k < downBuf.Length ==> downBuf[k] == old(downBuf[k])
  {
    iu, id := iu0, id0;
    if state[i, j] == 1 {
      upBuf[iu] := Coord(i, j);
      iu := iu + 1;
    } else {
      downBuf[id] := Coord(i, j);
      id := id + 1;
    }
  }

  /** One row of the `np.ndindex` scan in `get_lists`: row i is appended to
      the buffers at the counters, which advance by the number of cells
      written to each. */
  method ScanRow(state: array2<int>, i: int, ghost row: seq<int>, upBuf: array<Coord>, downBuf: array<Coord>, iu0: nat, id0: nat)
    returns (iu: nat, id: nat)
    requires 0 <= i < state.Length0 && |row| == state.Length1
    requires forall j :: 0 <= j < |row| ==> row[j] == state[i, j]
    requires upBuf != downBuf && iu0 + id0 + state.Length1 <= upBuf.Length == downBuf.Length
    modifies upBuf, downBuf
    ensures iu + id == iu0 + id0 + state.Length1
    ensures upBuf[..iu] == old(upBuf[..iu0]) + RowScan(row, i, state.Length1, true)
    ensures downBuf[..id] == old(downBuf[..id0]) + RowScan(row, i, state.Length1, false)
    ensures forall k :: iu <= k < upBuf.Length ==> upBuf[k] == old(upBuf[k])
    ensures forall k :: id <= k < downBuf.Length ==> downBuf[k] == old(downBuf[k])
  {
    ghost var ups, downs := upBuf[..], downBuf[..];
    iu, id := iu0, id0;
    for j := 0 to state.Length1
      invariant iu + id == iu0 + id0 + j
      invariant upBuf[..iu] == ups[..iu0] + RowScan(row, i, j, true)
      invariant downBuf[..id] == downs[..id0] + RowScan(row, i, j, false)
      invariant forall k :: iu <= k < upBuf.Length ==> upBuf[k] == ups[k]
      invariant forall k :: id <= k < downBuf.Length ==> downBuf[k] == downs[k]
    {
      RowScanStep(row, i, j, true);
      RowScanStep(row, i, j, false);
      assert row[j] == state[i, j];
      ghost var pu, pd := upBuf[..iu], downBuf[..id];
      iu, id := ScanOne(state, i, j, upBuf, downBuf, iu, id);
      AppendAssoc(ups[..iu0], RowScan(row, i, j, true), upBuf[..iu], pu);
      AppendAssoc(downs[..id0], RowScan(row, i, j, false), downBuf[..id], pd);
    }
  }

  /** Appending to a buffer prefix that is a + b appends to b. */
  lemma AppendAssoc(a: seq<Coord>, b: seq<Coord>, ext: seq<Coord>, pre: seq<Coord>)
    requires pre == a + b && |ext| >= |pre| && ext[..|pre|] == pre
    ensures ext == a + (b + ext[|pre|..])
  {
    assert ext == ext[..|pre|] + ext[|pre|..];
  }

  /** The `np.ndindex` scan of `get_lists` over all rows, writing into buffers
      of N^2 rows that hold the fill value (-1, -1): afterwards the first iu
      rows of `upBuf` are the +1 sites and the first id rows of `downBuf` the
      others, in row-major order, and the rest still hold the fill value. */
  method ScanRows(state: array2<int>, upBuf: array<Coord>, downBuf: array<Coord>) returns (iu: nat, id: nat)
    requires state.Length0 == state.Length1 && upBuf != downBuf
    requires upBuf.Length == downBuf.Length == state.Length0 * state.Length0
    requires forall k :: 0 <= k < upBuf.Length ==> upBuf[k] == Coord(-1, -1)
    requires forall k :: 0 <= k < downBuf.Length ==> downBuf[k] == Coord(-1, -1)
    modifies upBuf, downBuf
    ensures iu <= upBuf.Length && id <= downBuf.Length
    ensures upBuf[..iu] == Scan(Cells(state), state.Length0, true)
    ensures downBuf[..id] == Scan(Cells(state), state.Length0, false)
    ensures forall k :: iu <= k < upBuf.Length ==> upBuf[k] == Coord(-1, -1)
    ensures forall k :: id <= k < downBuf.Length ==> downBuf[k] == Coord(-1, -1)
  {
    var n := state.Length0;
    ghost var g := Cells(state);
    iu, id := 0, 0;
    for i := 0 to n
      invariant iu + id == i * n <= n * n
      invariant upBuf[..iu] == Scan(g, i, true) && downBuf[..id] == Scan(g, i, false)
      invariant forall k :: iu <= k < n * n ==> upBuf[k] == Coord(-1, -1)
      invariant forall k :: id <= k < n * n ==> downBuf[k] == Coord(-1, -1)
    {
      Sums.MulStep(i + 1, n);
      Sums.MulMono(i + 1, n, n);
      assert Width(g) == n;
      assert Scan(g, i + 1, true) == Scan(g, i, true) + RowScan(g[i], i, n, true);
      assert Scan(g, i + 1, false) == Scan(g, i, false) + RowScan(g[i], i, n, false);
      iu, id := ScanRow(state, i, g[i], upBuf, downBuf, iu, id);
    }
  }

  /** kawasaki.py `get_lists`: scan the lattice in row-major order, writing each
      +1 site into `up` and every other site into `down` at running counters,
      in buffers of N^2 rows prefilled with (-1, -1), then drop the unused
      rows. */
  method GetLists(state: array2<int>) returns (up: array<Coord>, down: array<Coord>)
    requires state.Length0 == state.Length1
    ensures fresh(up) && fresh(down)
    ensures up[..] == Scan(Cells(state), state.Length0, true)
    ensures down[..] == Scan(Cells(state), state.Length0, false)
  {
    var n := state.Length0;
    var upBuf := new Coord[n * n](_ => Coord(-1, -1));
    var downBuf := new Coord[n * n](_ => Coord(-1, -1));
    ghost var g := Cells(state);
    var iu, id := ScanRows(state, upBuf, downBuf);
    var su, sd := DropUnfilled(upBuf[..]), DropUnfilled(downBuf[..]);
    DropUnfilledBuffer(upBuf[..], iu, g, true);
    DropUnfilledBuffer(downBuf[..], id, g, false);
    up := new Coord[|su|](k requires 0 <= k < |su| => su[k]);
    down := new Coord[|sd|](k requires 0 <= k < |sd| => sd[k]);
    assert up[..] == su by {
      assert forall k :: 0 <= k < |su| ==> up[k] == su[k];
    }
    assert down[..] == sd by {
      assert forall k :: 0 <= k < |sd| ==> down[k] == sd[k];
    }
    assert Cells(state) == g && |g| == n;
  }

  // ---------------------------------------------------------------------
  // Table entry exchange
  // ---------------------------------------------------------------------

  /** kawasaki.py `coord_swap_2`: exchange two values through a temporary. */
  method CoordSwap2(x1: int, y1: int) returns (x: int, y: int)
    ensures x == y1 && y == x1
  {
    var temp := x1;
    x := y1;
    y := temp;
  }

  /** kawasaki.py `coord_swap`: exchange row p1 of `up` with row p2 of `down`,
      one coordinate component at a time. */
  method CoordSwap(up: array<Coord>, down: array<Coord>, p1: int, p2: int)
    requires up != down && 0 <= p1 < up.Length && 0 <= p2 < down.Length
    modifies up, down
    ensures up[..] == old(up[..])[p1 := old(down[p2])]
    ensures down[..] == old(down[..])[p2 := old(up[p1])]
  {
    var r1, r2 := CoordSwap2(up[p1].row, down[p2].row);
    up[p1], down[p2] := up[p1].(row := r1), down[p2].(row := r2);
    var c1, c2 := CoordSwap2(up[p1].col, down[p2].col);
    up[p1], down[p2] := up[p1].(col := c1), down[p2].(col := c2);
  }

  // ---------------------------------------------------------------------
  // One exchange attempt
  // ---------------------------------------------------------------------

  /** s(p) times the sum of the four neighbour spins of p. On a spin grid it
      is even and between -4 and 4. */
  function Local(g: Grid, p: Coord): (e: int)
    requires SpinGrid(g) && InGrid(g, p)
    ensures -4 <= e <= 4 && e % 2 == 0
  {
    var s, nb := At(g, p), NeighbourSum(g, p);
    assert s == 1 || s == -1;
    if s == 1 then nb else -nb
  }

  /** `dEu` / `dEv` of `update_state_kawasaki`: the local terms of the two
      chosen sites added. */
  function PairTerm(g: Grid, u: Coord, d: Coord): (e: int)
    requires SpinGrid(g) && InGrid(g, u) && InGrid(g, d)
    ensures -8 <= e <= 8 && e % 2 == 0
  {
    var a, b := Local(g, u), Local(g, d);
    EvenDifference(a, -b);
    a + b
  }

  /** The lattice with both chosen spins negated. */
  function SwapSpins(g: Grid, u: Coord, d: Coord): (t: Grid)
    requires SpinGrid(g) && InGrid(g, u) && InGrid(g, d)
    ensures SpinGrid(t) && |t| == |g| && Width(t) == Width(g)
  {
    Flip(Flip(g, u), d)
  }

  /** The energy change of the exchange, `dEu - dEv`: even and between -16
      and 16, so a positive one selects entry delta - 1 of the sixteen-entry
      table. */
  function Delta(g: Grid, u: Coord, d: Coord): (delta: int)
    requires SpinGrid(g) && InGrid(g, u) && InGrid(g, d)
    ensures -16 <= delta <= 16 && delta % 2 == 0
  {
    var before, after := PairTerm(g, u, d), PairTerm(SwapSpins(g, u, d), u, d);
    EvenDifference(before, after);
    before - after
  }

  lemma EvenDifference(a: int, b: int)
    requires a % 2 == 0 && b % 2 == 0
    ensures (a - b) % 2 == 0
  {
    assert a == 2 * (a / 2) && b == 2 * (b / 2);
    assert a - b == 2 * (a / 2 - b / 2);
  }

  /** Lattice, tables and number of uniform floats drawn after some attempts. */
  datatype Exchange = Exchange(grid: Grid, up: seq<Coord>, down: seq<Coord>, draws: nat)

  /** The Metropolis rule for an exchange: accepted at once when the energy
      does not rise, otherwise when the next float falls below the table
      entry for the rise. */
  predicate Accepts(delta: int, random: nat -> real, k: nat, exponent: seq<real>)
    requires -16 <= delta <= 16 && |exponent| == 16
  {
    delta <= 0 || random(k) < exponent[delta - 1]
  }

  /** The indices drawn pick a site of each table, on the lattice. */
  predicate Drawable(g: Grid, up: seq<Coord>, down: seq<Coord>, p1: int, p2: int) {
    && SpinGrid(g) && 0 <= p1 < |up| && 0 <= p2 < |down|
    && InGrid(g, up[p1]) && InGrid(g, down[p2])
  }

  /** One attempt of `update_state_kawasaki` on values: exchange the +1 at
      up[p1] with the -1 at down[p2]; keep the exchange and swap the table
      rows when the Metropolis rule accepts, otherwise negate both spins back.
      A float is drawn only when the energy change is positive. */
  function Attempt(g: Grid, up: seq<Coord>, down: seq<Coord>, p1: int, p2: int,
                   random: nat -> real, k: nat, exponent: seq<real>): (r: Exchange)
    requires Drawable(g, up, down, p1, p2) && |exponent| == 16
    ensures SpinGrid(r.grid) && |r.grid| == |g| && Width(r.grid) == Width(g)
    ensures |r.up| == |up| && |r.down| == |down|
    ensures k <= r.draws <= k + 1
  {
    var u, d := up[p1], down[p2];
    var t := SwapSpins(g, u, d);
    var delta := Delta(g, u, d);
    var drawn := if delta <= 0 then k else k + 1;
    if Accepts(delta, random, k, exponent) then Exchange(t, up[p1 := d], down[p2 := u], drawn)
    else Exchange(Flip(Flip(t, u), d), up, down, drawn)
  }

  /** Replacing entry i of a sequence keeps every other member. */
  lemma InUpdate(s: seq<Coord>, i: int, v: Coord, p: Coord)
    requires 0 <= i < |s| && p in s && p != s[i]
    ensures p in s[i := v]
  {
    var k :| 0 <= k < |s| && s[k] == p;
    assert s[i := v][k] == p;
  }

  /** A table entry other than the chosen one survives the swap. */
  lemma SwapKeepsSpins(g: Grid, u: Coord, d: Coord)
    requires SpinGrid(g) && InGrid(g, u) && InGrid(g, d) && u != d
    ensures var t := SwapSpins(g, u, d);
      && At(t, u) == -At(g, u) && At(t, d) == -At(g, d)
      && forall i, j :: 0 <= i < |g| && 0 <= j < Width(g) && Coord(i, j) != u && Coord(i, j) != d ==>
           t[i][j] == g[i][j]
  {
  }

  /** An accepted exchange keeps the tables in step with the lattice: the old
      -1 site d now holds +1 and sits in `up` at p1, the old +1 site u now
      holds -1 and sits in `down` at p2. A rejected one restores the lattice
      and leaves the tables as they were. */
  lemma AttemptKeepsSynced(g: Grid, up: seq<Coord>, down: seq<Coord>, p1: int, p2: int,
                           random: nat -> real, k: nat, exponent: seq<real>)
    requires Synced(g, up, down) && 0 <= p1 < |up| && 0 <= p2 < |down| && |exponent| == 16
    ensures var r := Attempt(g, up, down, p1, p2, random, k, exponent);
      Synced(r.grid, r.up, r.down) && |r.up| == |up| && |r.down| == |down|
  {
    var u, d := up[p1], down[p2];
    var r := Attempt(g, up, down, p1, p2, random, k, exponent);
    var t := SwapSpins(g, u, d);
    assert u != d by {
      assert At(g, u) == 1 && At(g, d) == -1;
    }
    SwapKeepsSpins(g, u, d);
    if Accepts(Delta(g, u, d), random, k, exponent) {
      var up', down' := up[p1 := d], down[p2 := u];
      assert r.grid == t && r.up == up' && r.down == down';
      forall k | 0 <= k < |up'|
        ensures InGrid(t, up'[k]) && At(t, up'[k]) == 1
      {
        if k != p1 {
          assert up[k] != u && up[k] != d;
        }
      }
      forall k | 0 <= k < |down'|
        ensures InGrid(t, down'[k]) && At(t, down'[k]) == -1
      {
        if k != p2 {
          assert down[k] != u && down[k] != d;
        }
      }
      assert Distinct(up') by {
        forall a, b | 0 <= a < b < |up'|
          ensures up'[a] != up'[b]
        {
          if a == p1 || b == p1 {
            assert At(g, d) == -1;
          }
        }
      }
      assert Distinct(down') by {
        forall a, b | 0 <= a < b < |down'|
          ensures down'[a] != down'[b]
        {
          if a == p2 || b == p2 {
            assert At(g, u) == 1;
          }
        }
      }
      forall p | InGrid(t, p)
        ensures p in up' || p in down'
      {
        if p == u {
          assert down'[p2] == p;
        } else if p == d {
          assert up'[p1] == p;
        } else if p in up {
          InUpdate(up, p1, d, p);
        } else {
          InUpdate(down, p2, u, p);
        }
      }
    } else {
      FlipTwiceBack(g, u, d);
      assert r.grid == g;
    }
  }

  /** The exchange conserves the number of +1 spins, hence the magnetisation
      (kawasaki.py's conserved order parameter). */
  lemma AttemptConserves(g: Grid, up: seq<Coord>, down: seq<Coord>, p1: int, p2: int,
                         random: nat -> real, k: nat, exponent: seq<real>)
    requires Synced(g, up, down) && 0 <= p1 < |up| && 0 <= p2 < |down| && |exponent| == 16
    ensures UpCount(Attempt(g, up, down, p1, p2, random, k, exponent).grid) == UpCount(g)
    ensures Magnetisation(Attempt(g, up, down, p1, p2, random, k, exponent).grid) == Magnetisation(g)
  {
    var u, d := up[p1], down[p2];
    var r := Attempt(g, up, down, p1, p2, random, k, exponent);
    assert At(g, u) == 1 && At(g, d) == -1;
    var h := Flip(g, u);
    FlipUpCount(g, u);
    assert At(h, d) == -1;
    FlipUpCount(h, d);
    if !Accepts(Delta(g, u, d), random, k, exponent) {
      FlipTwiceBack(g, u, d);
    }
    assert UpCount(r.grid) == UpCount(g);
    AttemptKeepsSynced(g, up, down, p1, p2, random, k, exponent);
    MagnetisationFromUpCount(g);
    MagnetisationFromUpCount(r.grid);
  }

  /** What an attempt does: the exchange is kept exactly when the Metropolis
      rule accepts the energy change; then the two sites have traded spins and
      table places and nothing else changed; otherwise lattice and tables
      are as before. A float is drawn exactly when the change is positive. */
  lemma AttemptOutcome(g: Grid, up: seq<Coord>, down: seq<Coord>, p1: int, p2: int,
                       random: nat -> real, k: nat, exponent: seq<real>)
    requires Synced(g, up, down) && 0 <= p1 < |up| && 0 <= p2 < |down| && |exponent| == 16
    ensures var r := Attempt(g, up, down, p1, p2, random, k, exponent);
      var u, d, delta := up[p1], down[p2], Delta(g, up[p1], down[p2]);
      && (r.draws == if delta > 0 then k + 1 else k)
      && (Accepts(delta, random, k, exponent) ==>
            r.grid == Set(Set(g, u, -1), d, 1) && r.up == up[p1 := d] && r.down == down[p2 := u])
      && (!Accepts(delta, random, k, exponent) ==> r.grid == g && r.up == up && r.down == down)
  {
    var u, d := up[p1], down[p2];
    assert At(g, u) == 1 && At(g, d) == -1;
    if Accepts(Delta(g, u, d), random, k, exponent) {
      GridExt(SwapSpins(g, u, d), Set(Set(g, u, -1), d, 1));
    } else {
      FlipTwiceBack(g, u, d);
    }
  }

  /** The neighbour sum of p depends only on the four neighbour cells. */
  lemma NeighbourSumFrame(g: Grid, h: Grid, p: Coord)
    requires Square(g) && Square(h) && |g| == |h| && InGrid(g, p)
    requires forall m :: 0 <= m < 4 ==>
      At(h, PosNeighbourhood(|g|, p)[m]) == At(g, PosNeighbourhood(|g|, p)[m])
    ensures NeighbourSum(h, p) == NeighbourSum(g, p)
  {
    NeighbourSumIsSlots(g, p);
    NeighbourSumIsSlots(h, p);
  }

  /** On a torus of side at least 2 no site is its own neighbour. */
  lemma NotOwnNeighbour(n: int, p: Coord)
    requires 0 <= p.row < n && 0 <= p.col < n && n >= 2
    ensures p !in PosNeighbourhood(n, p)
  {
    PosNeighbourhoodWraps(n, p);
  }

  /** Negating p and a site that is neither p's neighbour nor p negates the
      local term of p. */
  lemma LocalNegated(g: Grid, u: Coord, d: Coord)
    requires SpinGrid(g) && Square(g) && InGrid(g, u) && InGrid(g, d) && u != d && |g| >= 2
    requires d !in PosNeighbourhood(|g|, u)
    ensures Local(SwapSpins(g, u, d), u) == -Local(g, u)
  {
    var t := SwapSpins(g, u, d);
    var nu := PosNeighbourhood(|g|, u);
    SwapKeepsSpins(g, u, d);
    NotOwnNeighbour(|g|, u);
    forall m | 0 <= m < 4
      ensures At(t, nu[m]) == At(g, nu[m])
    {
      assert nu[m] != u && nu[m] != d;
    }
    NeighbourSumFrame(g, t, u);
  }

  /** Neighbourhood is symmetric: d is a neighbour of u iff u is one of d. */
  lemma NeighbourSymmetric(n: int, u: Coord, d: Coord)
    requires 0 <= u.row < n && 0 <= u.col < n && 0 <= d.row < n && 0 <= d.col < n
    requires d !in PosNeighbourhood(n, u)
    ensures u !in PosNeighbourhood(n, d)
  {
    PosNeighbourhoodSymmetric(n, d);
    if u in PosNeighbourhood(n, d) {
      assert false;
    }
  }

  /** For two sites that are not neighbours the energy change needs only the
      current lattice: negating both spins negates both local terms, so
      dEu - dEv = 2 * dEu (the far-apart form the comment in
      `update_state_kawasaki` refers to). */
  lemma FarApartDelta(g: Grid, u: Coord, d: Coord)
    requires SpinGrid(g) && Square(g) && InGrid(g, u) && InGrid(g, d) && u != d
    requires d !in PosNeighbourhood(|g|, u) && |g| >= 2
    ensures Delta(g, u, d) == 2 * PairTerm(g, u, d)
  {
    LocalNegated(g, u, d);
    NeighbourSymmetric(|g|, u, d);
    LocalNegated(g, d, u);
    FlipsCommute(g, u, d);
  }

  /** Negating two different sites in either order gives one lattice. */
  lemma FlipsCommute(g: Grid, u: Coord, d: Coord)
    requires SpinGrid(g) && InGrid(g, u) && InGrid(g, d)
    ensures SwapSpins(g, u, d) == SwapSpins(g, d, u)
  {
    GridExt(SwapSpins(g, u, d), SwapSpins(g, d, u));
  }

  /** The local term is the spin times its neighbour sum. */
  lemma LocalProduct(g: Grid, p: Coord)
    requires SpinGrid(g) && InGrid(g, p)
    ensures Local(g, p) == At(g, p) * NeighbourSum(g, p)
  {
  }

  /** Negating p negates its own local term (its neighbours are other sites). */
  lemma LocalFlipSelf(g: Grid, p: Coord)
    requires SpinGrid(g) && Square(g) && |g| >= 2 && InGrid(g, p)
    ensures Local(Flip(g, p), p) == -Local(g, p)
  {
    var h := Flip(g, p);
    var nb := PosNeighbourhood(|g|, p);
    NotOwnNeighbour(|g|, p);
    forall m | 0 <= m < 4
      ensures At(h, nb[m]) == At(g, nb[m])
    {
      assert nb[m] != p;
    }
    NeighbourSumFrame(g, h, p);
  }

  /** Negating p lowers the sum of s * n over all sites by 4 * Local(g, p). */
  lemma LinkEnergyFlipLocal(g: Grid, p: Coord)
    requires SpinGrid(g) && Square(g) && |g| >= 2 && InGrid(g, p)
    ensures Wolff.LinkEnergy(Flip(g, p)) == Wolff.LinkEnergy(g) - 4 * Local(g, p)
  {
    Wolff.LinkEnergyFlip(g, p);
    LocalProduct(g, p);
  }

  /** `dEu - dEv` is the energy change of the exchange: the negated pair
      lowers the sum of s * n over all sites by exactly 2 * delta, so the
      Metropolis energy -(sum of s * n) / 2 rises by delta, whether or not the
      two sites are neighbours. */
  lemma ExchangeEnergy(g: Grid, u: Coord, d: Coord)
    requires SpinGrid(g) && Square(g) && |g| >= 2 && InGrid(g, u) && InGrid(g, d)
    ensures Wolff.LinkEnergy(SwapSpins(g, u, d)) == Wolff.LinkEnergy(g) - 2 * Delta(g, u, d)
  {
    var g1, g2 := Flip(g, u), Flip(g, d);
    var t := SwapSpins(g, u, d);
    FlipsCommute(g, u, d);
    assert t == Flip(g1, d) && t == Flip(g2, u);
    // Both orders of negation reach t.
    LinkEnergyFlipLocal(g, u);
    LinkEnergyFlipLocal(g1, d);
    LinkEnergyFlipLocal(g, d);
    LinkEnergyFlipLocal(g2, u);
    // The local terms after the exchange are those of the last negation, negated.
    LocalFlipSelf(g1, d);
    LocalFlipSelf(g2, u);
  }

  // ---------------------------------------------------------------------
  // The sweep
  // ---------------------------------------------------------------------

  /** Every drawn pair of table indices is in range. */
  predicate PicksInRange(picks: seq<(int, int)>, ups: int, downs: int) {
    forall t :: 0 <= t < |picks| ==> 0 <= picks[t].0 < ups && 0 <= picks[t].1 < downs
  }

  /** The attempts at the drawn index pairs `picks`, in order. */
  function SweepFrom(g: Grid, up: seq<Coord>, down: seq<Coord>, picks: seq<(int, int)>,
                     random: nat -> real, exponent: seq<real>): (r: Exchange)
    requires Synced(g, up, down) && |exponent| == 16
    requires PicksInRange(picks, |up|, |down|)
    ensures Synced(r.grid, r.up, r.down) && |r.up| == |up| && |r.down| == |down|
    ensures |r.grid| == |g| && r.draws <= |picks|
    decreases |picks|
  {
    if picks == [] then Exchange(g, up, down, 0)
    else
      var last := picks[|picks| - 1];
      var prev := SweepFrom(g, up, down, picks[..|picks| - 1], random, exponent);
      AttemptKeepsSynced(prev.grid, prev.up, prev.down, last.0, last.1, random, prev.draws, exponent);
      Attempt(prev.grid, prev.up, prev.down, last.0, last.1, random, prev.draws, exponent)
  }

  /** In the zero-temperature limit (every table entry 0, every draw
      non-negative) an exchange is kept only when delta <= 0, so an attempt
      never lowers the sum of s * n and never raises the Metropolis energy. */
  lemma AttemptZeroTemperatureEnergy(g: Grid, up: seq<Coord>, down: seq<Coord>, p1: int, p2: int,
                                     random: nat -> real, k: nat, exponent: seq<real>)
    requires Synced(g, up, down) && |g| >= 2 && 0 <= p1 < |up| && 0 <= p2 < |down|
    requires |exponent| == 16 && forall i :: 0 <= i < 16 ==> exponent[i] == 0.0
    requires forall k :: random(k) >= 0.0
    ensures Wolff.LinkEnergy(Attempt(g, up, down, p1, p2, random, k, exponent).grid) >= Wolff.LinkEnergy(g)
  {
    var u, d := up[p1], down[p2];
    var delta := Delta(g, u, d);
    AttemptOutcome(g, up, down, p1, p2, random, k, exponent);
    if Accepts(delta, random, k, exponent) {
      assert delta <= 0;
      ExchangeEnergy(g, u, d);
    }
  }

  /** A whole zero-temperature sweep never lowers the sum of s * n. */
  lemma {:induction false} SweepZeroTemperature(g: Grid, up: seq<Coord>, down: seq<Coord>, picks: seq<(int, int)>,
                                               random: nat -> real, exponent: seq<real>)
    requires Synced(g, up, down) && |g| >= 2 && PicksInRange(picks, |up|, |down|)
    requires |exponent| == 16 && forall i :: 0 <= i < 16 ==> exponent[i] == 0.0
    requires forall k :: random(k) >= 0.0
    ensures Wolff.LinkEnergy(SweepFrom(g, up, down, picks, random, exponent).grid) >= Wolff.LinkEnergy(g)
    decreases |picks|
  {
    if picks != [] {
      var last := picks[|picks| - 1];
      var prev := SweepFrom(g, up, down, picks[..|picks| - 1], random, exponent);
      SweepZeroTemperature(g, up, down, picks[..|picks| - 1], random, exponent);
      AttemptZeroTemperatureEnergy(prev.grid, prev.up, prev.down, last.0, last.1, random, prev.draws, exponent);
    }
  }

  /** A whole sweep conserves the number of +1 spins and the magnetisation. */
  lemma {:induction false} SweepConserves(g: Grid, up: seq<Coord>, down: seq<Coord>, picks: seq<(int, int)>,
                                         random: nat -> real, exponent: seq<real>)
    requires Synced(g, up, down) && |exponent| == 16
    requires PicksInRange(picks, |up|, |down|)
    ensures UpCount(SweepFrom(g, up, down, picks, random, exponent).grid) == UpCount(g)
    ensures Magnetisation(SweepFrom(g, up, down, picks, random, exponent).grid) == Magnetisation(g)
    decreases |picks|
  {
    if picks != [] {
      var last := picks[|picks| - 1];
      var prev := SweepFrom(g, up, down, picks[..|picks| - 1], random, exponent);
      SweepConserves(g, up, down, picks[..|picks| - 1], random, exponent);
      AttemptConserves(prev.grid, prev.up, prev.down, last.0, last.1, random, prev.draws, exponent);
    }
  }

  /** `dEu` / `dEv` read from the array lattice. */
  function PairTermOf(state: array2<int>, u: Coord, d: Coord): (e: int)
    reads state
    requires state.Length0 == state.Length1 && SpinGrid(Cells(state))
    requires 0 <= u.row < state.Length0 && 0 <= u.col < state.Length0
    requires 0 <= d.row < state.Length0 && 0 <= d.col < state.Length0
    ensures e == PairTerm(Cells(state), u, d)
  {
    state[u.row, u.col] * GetNeighborhood(state, u) + state[d.row, d.col] * GetNeighborhood(state, d)
  }

  /** Negate the spins at u and at d in place (kawasaki.py:149-150, 158-159). */
  method NegateBoth(state: array2<int>, u: Coord, d: Coord)
    requires SpinGrid(Cells(state))
    requires 0 <= u.row < state.Length0 && 0 <= u.col < state.Length1
    requires 0 <= d.row < state.Length0 && 0 <= d.col < state.Length1
    modifies state
    ensures Cells(state) == SwapSpins(old(Cells(state)), u, d)
  {
    Assign(state, u, -state[u.row, u.col]);
    Assign(state, d, -state[d.row, d.col]);
  }

  /** The loop body of `update_state_kawasaki` (kawasaki.py:147-159) in place,
      for the drawn indices p1 and p2 with k floats drawn so far. */
  method AttemptInPlace(up: array<Coord>, down: array<Coord>, state: array2<int>, p1: int, p2: int,
                        random: nat -> real, k: nat, exponent: seq<real>) returns (draws: nat)
    requires up != down && state.Length0 == state.Length1
    requires Drawable(Cells(state), up[..], down[..], p1, p2) && |exponent| == 16
    modifies up, down, state
    ensures Exchange(Cells(state), up[..], down[..], draws)
         == Attempt(old(Cells(state)), old(up[..]), old(down[..]), p1, p2, random, k, exponent)
  {
    ghost var g, ups, downs := Cells(state), up[..], down[..];
    var u, d := up[p1], down[p2];
    assert u == ups[p1] && d == downs[p2];
    assert InGrid(g, u) && InGrid(g, d);
    var dEu := PairTermOf(state, u, d);
    NegateBoth(state, u, d);
    ghost var t := Cells(state);
    var dEv := PairTermOf(state, u, d);
    var delta := dEu - dEv;
    assert delta == Delta(g, u, d);
    draws := k;
    var accept := delta <= 0;
    if !accept {
      var x := random(draws);
      draws := draws + 1;
      accept := x < exponent[delta - 1];
    }
    assert accept == Accepts(delta, random, k, exponent);
    if accept {
      CoordSwap(up, down, p1, p2);
    } else {
      NegateBoth(state, up[p1], down[p2]);
    }
  }

  /** The N^2 attempts of `update_state_kawasaki` (kawasaki.py:132-159) in
      place, for index pairs that are all in range. */
  method SweepInPlace(up: array<Coord>, down: array<Coord>, state: array2<int>, exponent: seq<real>,
                      picks: seq<(int, int)>, random: nat -> real) returns (draws: nat)
    requires up != down && state.Length0 == state.Length1
    requires Synced(Cells(state), up[..], down[..]) && |exponent| == 16
    requires PicksInRange(picks, up.Length, down.Length)
    modifies up, down, state
    ensures Exchange(Cells(state), up[..], down[..], draws)
      == SweepFrom(old(Cells(state)), old(up[..]), old(down[..]), picks, random, exponent)
  {
    ghost var g0, up0, down0 := Cells(state), up[..], down[..];
    draws := 0;
    for t := 0 to |picks|
      invariant Exchange(Cells(state), up[..], down[..], draws) == SweepFrom(g0, up0, down0, picks[..t], random, exponent)
    {
      SweepStep(g0, up0, down0, picks, t, random, exponent);
      draws := AttemptInPlace(up, down, state, picks[t].0, picks[t].1, random, draws, exponent);
    }
    assert picks[..|picks|] == picks;
  }

  /** A sweep over one more index pair is one more attempt. */
  lemma SweepStep(g: Grid, up: seq<Coord>, down: seq<Coord>, picks: seq<(int, int)>, t: nat,
                  random: nat -> real, exponent: seq<real>)
    requires Synced(g, up, down) && |exponent| == 16
    requires PicksInRange(picks, |up|, |down|) && t < |picks|
    ensures PicksInRange(picks[..t], |up|, |down|) && PicksInRange(picks[..t + 1], |up|, |down|)
    ensures var prev := SweepFrom(g, up, down, picks[..t], random, exponent);
      && Drawable(prev.grid, prev.up, prev.down, picks[t].0, picks[t].1)
      && SweepFrom(g, up, down, picks[..t + 1], random, exponent)
         == Attempt(prev.grid, prev.up, prev.down, picks[t].0, picks[t].1, random, prev.draws, exponent)
  {
    var prefix := picks[..t + 1];
    assert prefix[..t] == picks[..t] && prefix[t] == picks[t];
  }

  /** How a call of `update_state_kawasaki` ends: after N^2 attempts with the
      given number of floats drawn, or with the error `rng.integers(0, 0)`
      raises when a table is empty on a non-empty lattice. */
  datatype Status = Swept(draws: nat) | EmptyTable

  /** kawasaki.py `update_state_kawasaki`: N^2 exchange attempts in place on
      the lattice and on the two tables. With both tables non-empty the final
      lattice, tables and float count are those of SweepFrom on the drawn
      index pairs; with a table empty and N > 0 the first draw fails and
      nothing changes. */
  method UpdateStateKawasaki(up: array<Coord>, down: array<Coord>, state: array2<int>, exponent: seq<real>,
                             picks: seq<(int, int)>, random: nat -> real) returns (status: Status)
    requires up != down && state.Length0 == state.Length1
    requires Synced(Cells(state), up[..], down[..]) && |exponent| == 16
    requires |picks| == state.Length0 * state.Length0
    requires up.Length > 0 && down.Length > 0 ==> PicksInRange(picks, up.Length, down.Length)
    modifies up, down, state
    ensures status == EmptyTable <==> state.Length0 > 0 && (up.Length == 0 || down.Length == 0)
    ensures status == EmptyTable ==>
      Cells(state) == old(Cells(state)) && up[..] == old(up[..]) && down[..] == old(down[..])
    ensures status.Swept? ==>
      Exchange(Cells(state), up[..], down[..], status.draws)
        == SweepFrom(old(Cells(state)), old(up[..]), old(down[..]), picks, random, exponent)
  {
    var n := state.Length0;
    var steps := n * n;
    if steps > 0 && (up.Length == 0 || down.Length == 0) {
      return EmptyTable;
    }
    if n == 0 {
      assert picks == [];
    }
    var draws := SweepInPlace(up, down, state, exponent, picks, random);
    return Swept(draws);
  }
}
