/** The periodic square lattice shared by every engine: coordinates, grids of
    spins, the four toroidal neighbours of a site and their spin sum, and the
    counts (number of +1 cells, magnetisation) the engines conserve or shrink.

    At run time a lattice is an `array2<int>` that the engines update in place;
    its contents at one moment are the value `Cells(state)`, a row-major
    sequence of rows, over which every specification is written. */
module Lattice {
  import opened Sums

  /** A lattice site (row, column). */
  datatype Coord = Coord(row: int, col: int)

  /** A lattice as a sequence of rows. */
  type Grid = seq<seq<int>>

  /** A lattice after some attempts of a sweep, and the number of uniform
      floats the sweep has drawn so far. */
  datatype Sweep = Sweep(grid: Grid, draws: nat)

  predicate IsSpin(v: int) {
    v == 1 || v == -1
  }

  /** Length of the first row (0 for an empty grid). */
  function Width(g: Grid): nat {
    if |g| == 0 then 0 else |g[0]|
  }

  /** All rows have the same length. */
  predicate Rect(g: Grid) {
    forall i :: 0 <= i < |g| ==> |g[i]| == Width(g)
  }

  /** An N x N grid (N = |g|, possibly 0). */
  predicate Square(g: Grid) {
    Rect(g) && Width(g) == |g|
  }

  predicate InGrid(g: Grid, p: Coord) {
    0 <= p.row < |g| && 0 <= p.col < Width(g)
  }

  /** Every cell of a rectangular grid holds +1 or -1. */
  predicate SpinGrid(g: Grid) {
    Rect(g) && forall i, j :: 0 <= i < |g| && 0 <= j < Width(g) ==> IsSpin(g[i][j])
  }

  /** Every cell of a rectangular grid holds the value v. */
  predicate Uniform(g: Grid, v: int) {
    Rect(g) && forall i, j :: 0 <= i < |g| && 0 <= j < Width(g) ==> g[i][j] == v
  }

  /** The N x N grid with every cell equal to v. */
  function Filled(n: nat, v: int): (g: Grid)
    ensures |g| == n && Square(g) && Uniform(g, v)
  {
    seq(n, i => seq(n, j => v))
  }

  function At(g: Grid, p: Coord): int
    requires Rect(g) && InGrid(g, p)
  {
    g[p.row][p.col]
  }

  /** The grid with the cell at p replaced by v. */
  function Set(g: Grid, p: Coord, v: int): (h: Grid)
    requires Rect(g) && InGrid(g, p)
    ensures |h| == |g| && Width(h) == Width(g) && Rect(h)
    ensures forall i, j :: 0 <= i < |g| && 0 <= j < Width(g) ==>
              h[i][j] == if i == p.row && j == p.col then v else g[i][j]
  {
    g[p.row := g[p.row][p.col := v]]
  }

  /** The grid with the spin at p negated. */
  function Flip(g: Grid, p: Coord): (h: Grid)
    requires Rect(g) && InGrid(g, p)
    ensures |h| == |g| && Width(h) == Width(g) && Rect(h)
    ensures SpinGrid(g) ==> SpinGrid(h)
  {
    Set(g, p, -At(g, p))
  }

  /** Two grids of one shape that agree on every cell are equal. */
  lemma GridExt(g: Grid, h: Grid)
    requires Rect(g) && Rect(h) && |g| == |h| && Width(g) == Width(h)
    requires forall i, j :: 0 <= i < |g| && 0 <= j < Width(g) ==> g[i][j] == h[i][j]
    ensures g == h
  {
    forall i | 0 <= i < |g|
      ensures g[i] == h[i]
    {
      assert |g[i]| == |h[i]|;
    }
  }

  /** Flipping two sites and then flipping both back restores the grid. */
  lemma FlipTwiceBack(g: Grid, u: Coord, d: Coord)
    requires Rect(g) && InGrid(g, u) && InGrid(g, d)
    ensures Flip(Flip(Flip(Flip(g, u), d), u), d) == g
  {
    var h := Flip(Flip(Flip(Flip(g, u), d), u), d);
    GridExt(h, g);
  }

  /** The contents of an array lattice, row by row. */
  ghost function Cells(a: array2<int>): (g: Grid)
    reads a
    ensures |g| == a.Length0 && Rect(g) && (a.Length0 > 0 ==> Width(g) == a.Length1)
    ensures forall i, j :: 0 <= i < a.Length0 && 0 <= j < a.Length1 ==> g[i][j] == a[i, j]
  {
    seq(a.Length0, i requires 0 <= i < a.Length0 reads a =>
      seq(a.Length1, j requires 0 <= j < a.Length1 reads a => a[i, j]))
  }

  /** Item assignment `state[p] = v` on an array lattice. */
  method Assign(state: array2<int>, p: Coord, v: int)
    requires 0 <= p.row < state.Length0 && 0 <= p.col < state.Length1
    modifies state
    ensures Cells(state) == Set(old(Cells(state)), p, v)
  {
    ghost var before := Cells(state);
    state[p.row, p.col] := v;
    GridExt(Cells(state), Set(before, p, v));
  }

  /** The four neighbours of p on an n x n torus, in the fixed order
      (row + 1, col), (row - 1, col), (row, col + 1), (row, col - 1), each index
      taken modulo n. Python's `%` with a positive modulus agrees with Dafny's. */
  function PosNeighbourhood(n: int, p: Coord): (nb: seq<Coord>)
    requires 0 <= p.row < n && 0 <= p.col < n
    ensures |nb| == 4
    ensures forall k :: 0 <= k < 4 ==> 0 <= nb[k].row < n && 0 <= nb[k].col < n
  {
    [Coord((p.row + 1) % n, p.col),
     Coord((p.row - 1) % n, p.col),
     Coord(p.row, (p.col + 1) % n),
     Coord(p.row, (p.col - 1) % n)]
  }

  /** Step one place along an index of the torus without using `%`. */
  function Succ(x: int, n: int): int {
    if x == n - 1 then 0 else x + 1
  }

  function Pred(x: int, n: int): int {
    if x == 0 then n - 1 else x - 1
  }

  /** The neighbours wrap around the border: the successor of the last row
      or column is 0 and the predecessor of 0 is the last. */
  lemma PosNeighbourhoodWraps(n: int, p: Coord)
    requires 0 <= p.row < n && 0 <= p.col < n
    ensures PosNeighbourhood(n, p) ==
      [Coord(Succ(p.row, n), p.col), Coord(Pred(p.row, n), p.col),
       Coord(p.row, Succ(p.col, n)), Coord(p.row, Pred(p.col, n))]
  {
    SuccMod(p.row, n);
    PredMod(p.row, n);
    SuccMod(p.col, n);
    PredMod(p.col, n);
  }

  lemma SuccMod(x: int, n: int)
    requires 0 <= x < n
    ensures (x + 1) % n == Succ(x, n)
  {
    if x == n - 1 {
      assert x + 1 == n;
    } else {
      assert 0 <= x + 1 < n;
    }
  }

  lemma PredMod(x: int, n: int)
    requires 0 <= x < n
    ensures (x - 1) % n == Pred(x, n)
  {
    if x == 0 {
      assert x - 1 == -1 == (n - 1) - n;
    } else {
      assert 0 <= x - 1 < n;
    }
  }

  /** The neighbour relation is symmetric: one step down from p and back up
      returns to p, and likewise right and left. */
  lemma PosNeighbourhoodSymmetric(n: int, p: Coord)
    requires 0 <= p.row < n && 0 <= p.col < n
    ensures PosNeighbourhood(n, PosNeighbourhood(n, p)[0])[1] == p
    ensures PosNeighbourhood(n, PosNeighbourhood(n, p)[1])[0] == p
    ensures PosNeighbourhood(n, PosNeighbourhood(n, p)[2])[3] == p
    ensures PosNeighbourhood(n, PosNeighbourhood(n, p)[3])[2] == p
  {
    var nb := PosNeighbourhood(n, p);
    PosNeighbourhoodWraps(n, p);
    PosNeighbourhoodWraps(n, nb[0]);
    PosNeighbourhoodWraps(n, nb[1]);
    PosNeighbourhoodWraps(n, nb[2]);
    PosNeighbourhoodWraps(n, nb[3]);
  }

  /** On a torus of side at least 3 the four neighbours are four distinct
      sites other than p; on sides 1 and 2 the row neighbours coincide. */
  lemma PosNeighbourhoodDistinct(n: int, p: Coord)
    requires 0 <= p.row < n && 0 <= p.col < n
    ensures n >= 3 <==>
      (forall k, l :: 0 <= k < l < 4 ==> PosNeighbourhood(n, p)[k] != PosNeighbourhood(n, p)[l])
    ensures n >= 3 ==> p !in PosNeighbourhood(n, p)
  {
    var nb := PosNeighbourhood(n, p);
    PosNeighbourhoodWraps(n, p);
    if n < 3 {
      assert nb[0] == nb[1];
    }
  }

  /** Sum of the four toroidal neighbour spins of p (rows wrap modulo the
      number of rows, columns modulo the number of columns). */
  function NeighbourSum(g: Grid, p: Coord): (s: int)
    requires Rect(g) && InGrid(g, p)
    ensures SpinGrid(g) ==> -4 <= s <= 4 && s % 2 == 0
  {
    var rows, cols := |g|, Width(g);
    g[(p.row + 1) % rows][p.col] + g[(p.row - 1) % rows][p.col]
    + g[p.row][(p.col + 1) % cols] + g[p.row][(p.col - 1) % cols]
  }

  /** On a square grid the neighbour sum is the sum of the spins at the four
      coordinates PosNeighbourhood lists. */
  lemma NeighbourSumIsSlots(g: Grid, p: Coord)
    requires Square(g) && InGrid(g, p)
    ensures var nb := PosNeighbourhood(|g|, p);
      NeighbourSum(g, p) == At(g, nb[0]) + At(g, nb[1]) + At(g, nb[2]) + At(g, nb[3])
  {
  }

  /** Four-neighbour spin sum read from an array lattice with side
      `state.shape[0]` (kawasaki.py `get_neighborhood`, ising.py
      `_get_neighborhood`). */
  function GetNeighborhood(state: array2<int>, pos: Coord): (s: int)
    reads state
    requires state.Length0 == state.Length1
    requires 0 <= pos.row < state.Length0 && 0 <= pos.col < state.Length1
    ensures s == NeighbourSum(Cells(state), pos)
  {
    var n := state.Length0;
    state[(pos.row + 1) % n, pos.col] + state[(pos.row - 1) % n, pos.col]
    + state[pos.row, (pos.col + 1) % n] + state[pos.row, (pos.col - 1) % n]
  }

  /** 1 if cell (i, j) exists and holds +1, else 0. */
  function UpAt(g: Grid, i: int, j: int): int {
    if 0 <= i < |g| && 0 <= j < |g[i]| && g[i][j] == 1 then 1 else 0
  }

  /** The value of cell (i, j), or 0 outside the grid. */
  function ValueAt(g: Grid, i: int, j: int): int {
    if 0 <= i < |g| && 0 <= j < |g[i]| then g[i][j] else 0
  }

  /** Number of +1 cells. */
  function UpCount(g: Grid): int {
    Sum2((i, j) => UpAt(g, i, j), |g|, Width(g))
  }

  /** Total magnetisation: the sum of all cells. */
  function Magnetisation(g: Grid): int {
    Sum2((i, j) => ValueAt(g, i, j), |g|, Width(g))
  }

  lemma UpCountBounds(g: Grid)
    ensures 0 <= UpCount(g) <= |g| * Width(g)
  {
    Sum2Bounds((i, j) => UpAt(g, i, j), |g|, Width(g), 0, 1);
  }

  /** Writing v at p changes the number of +1 cells only by what p held and
      what it holds now. */
  lemma UpCountSet(g: Grid, p: Coord, v: int)
    requires Rect(g) && InGrid(g, p)
    ensures UpCount(Set(g, p, v)) == UpCount(g) - UpAt(g, p.row, p.col) + (if v == 1 then 1 else 0)
  {
    var h := Set(g, p, v);
    Sum2Point((i, j) => UpAt(g, i, j), (i, j) => UpAt(h, i, j), |g|, Width(g), p.row, p.col);
  }

  lemma MagnetisationSet(g: Grid, p: Coord, v: int)
    requires Rect(g) && InGrid(g, p)
    ensures Magnetisation(Set(g, p, v)) == Magnetisation(g) - At(g, p) + v
  {
    var h := Set(g, p, v);
    Sum2Point((i, j) => ValueAt(g, i, j), (i, j) => ValueAt(h, i, j), |g|, Width(g), p.row, p.col);
  }

  /** On a spin grid flipping the spin at p changes the number of +1 cells by
      one, in the direction of the spin's new value. */
  lemma FlipUpCount(g: Grid, p: Coord)
    requires SpinGrid(g) && InGrid(g, p)
    ensures UpCount(Flip(g, p)) == UpCount(g) + (if At(g, p) == 1 then -1 else 1)
  {
    UpCountSet(g, p, -At(g, p));
  }

  /** On a spin grid the magnetisation is (number of +1) - (number of -1). */
  lemma MagnetisationFromUpCount(g: Grid)
    requires SpinGrid(g)
    ensures Magnetisation(g) == 2 * UpCount(g) - |g| * Width(g)
  {
    var rows, cols := |g|, Width(g);
    var up := (i, j) => UpAt(g, i, j);
    var twice := (i, j) => 2 * UpAt(g, i, j);
    var minusOne := (i: int, j: int) => -1;
    Sum2Add(twice, minusOne, (i, j) => ValueAt(g, i, j), rows, cols);
    Sum2Bounds(minusOne, rows, cols, -1, -1);
    Sum2Scale(up, twice, 2, rows, cols);
  }

  /** op of the value at (a, b) with its toroidal neighbour one row down, one
      row up, one column right and one column left (0 off the grid). */
  function DownPair(g: Grid, op: (int, int) -> int, a: int, b: int): int {
    if Rect(g) && 0 <= a < |g| && 0 <= b < Width(g) then op(g[a][b], g[(a + 1) % |g|][b]) else 0
  }

  function UpPair(g: Grid, op: (int, int) -> int, a: int, b: int): int {
    if Rect(g) && 0 <= a < |g| && 0 <= b < Width(g) then op(g[a][b], g[(a - 1) % |g|][b]) else 0
  }

  function RightPair(g: Grid, op: (int, int) -> int, a: int, b: int): int {
    if Rect(g) && 0 <= a < |g| && 0 <= b < Width(g) then op(g[a][b], g[a][(b + 1) % Width(g)]) else 0
  }

  function LeftPair(g: Grid, op: (int, int) -> int, a: int, b: int): int {
    if Rect(g) && 0 <= a < |g| && 0 <= b < Width(g) then op(g[a][b], g[a][(b - 1) % Width(g)]) else 0
  }

  /** op over the four neighbour slots of (a, b), in neighbourhood order. */
  function SlotPairs(g: Grid, op: (int, int) -> int, a: int, b: int): int {
    (DownPair(g, op, a, b) + UpPair(g, op, a, b)) + (RightPair(g, op, a, b) + LeftPair(g, op, a, b))
  }

  /** On the torus every neighbour pair is met once from each end: for a
      symmetric op, the sum over all sites and slots is twice the sum over
      the down and right pairs, and so even. */
  lemma SlotPairsTwice(g: Grid, op: (int, int) -> int)
    requires Rect(g) && forall x, y :: op(x, y) == op(y, x)
    ensures Sum2((a, b) => SlotPairs(g, op, a, b), |g|, Width(g)) ==
      2 * (Sum2((a, b) => DownPair(g, op, a, b), |g|, Width(g)) + Sum2((a, b) => RightPair(g, op, a, b), |g|, Width(g)))
  {
    var rows, cols := |g|, Width(g);
    var vertical := (a, b) => DownPair(g, op, a, b) + UpPair(g, op, a, b);
    var horizontal := (a, b) => RightPair(g, op, a, b) + LeftPair(g, op, a, b);
    Sum2Add((a, b) => DownPair(g, op, a, b), (a, b) => UpPair(g, op, a, b), vertical, rows, cols);
    Sum2Add((a, b) => RightPair(g, op, a, b), (a, b) => LeftPair(g, op, a, b), horizontal, rows, cols);
    Sum2Add(vertical, horizontal, (a, b) => SlotPairs(g, op, a, b), rows, cols);
    UpPairsAreDownPairs(g, op);
    LeftPairsAreRightPairs(g, op);
  }

  lemma Symmetric(op: (int, int) -> int, x: int, y: int)
    requires forall x, y :: op(x, y) == op(y, x)
    ensures op(x, y) == op(y, x)
  {
  }

  lemma UpPairsAreDownPairs(g: Grid, op: (int, int) -> int)
    requires Rect(g) && forall x, y :: op(x, y) == op(y, x)
    ensures Sum2((a, b) => UpPair(g, op, a, b), |g|, Width(g)) == Sum2((a, b) => DownPair(g, op, a, b), |g|, Width(g))
  {
    var rows, cols := |g|, Width(g);
    var dn := (a, b) => DownPair(g, op, a, b);
    var up := (a, b) => UpPair(g, op, a, b);
    if rows > 0 {
      Sum2ShiftRows(up, rows, cols);
      forall a, b | 0 <= a < rows && 0 <= b < cols
        ensures up((a + 1) % rows, b) == dn(a, b)
      {
        SuccMod(a, rows);
        PredMod(Succ(a, rows), rows);
        var a1 := (a + 1) % rows;
        assert up(a1, b) == op(g[a1][b], g[a][b]);
        Symmetric(op, g[a1][b], g[a][b]);
      }
      Sum2Ext((a, b) => up((a + 1) % rows, b), dn, rows, cols);
    }
  }

  lemma LeftPairsAreRightPairs(g: Grid, op: (int, int) -> int)
    requires Rect(g) && forall x, y :: op(x, y) == op(y, x)
    ensures Sum2((a, b) => LeftPair(g, op, a, b), |g|, Width(g)) == Sum2((a, b) => RightPair(g, op, a, b), |g|, Width(g))
  {
    var rows, cols := |g|, Width(g);
    var rt := (a, b) => RightPair(g, op, a, b);
    var lt := (a, b) => LeftPair(g, op, a, b);
    if cols > 0 {
      Sum2ShiftCols(lt, rows, cols);
      forall a, b | 0 <= a < rows && 0 <= b < cols
        ensures lt(a, (b + 1) % cols) == rt(a, b)
      {
        SuccMod(b, cols);
        PredMod(Succ(b, cols), cols);
        var b1 := (b + 1) % cols;
        assert lt(a, b1) == op(g[a][b1], g[a][b]);
        Symmetric(op, g[a][b1], g[a][b]);
      }
      Sum2Ext((a, b) => lt(a, (b + 1) % cols), rt, rows, cols);
    } else {
      Sum2Ext(lt, rt, rows, cols);
    }
  }
}
