/** Noisy voter model (voter.py).

    At each of N^2 attempts a site is drawn; with probability `prob` it takes
    a fresh random opinion, otherwise it copies one of its four neighbours
    chosen by two coins. The positions are the input `sites`, and `random(k)`
    is the k-th uniform float drawn; a coin `[x, y][rng.random() < 0.5]`
    picks y exactly when its draw is below 0.5. */
module Voter {
  import opened Lattice

  /** voter.py `initialize_state`: an aligned N x N grid, all -1 when the
      draw u is below 0.5 and all +1 otherwise. */
  function InitializeState(n: nat, u: real): (g: Grid)
    ensures |g| == n && Square(g) && SpinGrid(g)
    ensures u < 0.5 ==> Uniform(g, -1)
    ensures u >= 0.5 ==> Uniform(g, 1)
  {
    if u < 0.5 then Filled(n, -1) else Filled(n, 1)
  }

  /** The aligned start is fully magnetised, with the sign chosen by u. */
  lemma InitializeStateMagnetised(n: nat, u: real)
    ensures Magnetisation(InitializeState(n, u)) == if u < 0.5 then -(n * n) else n * n
  {
    var g := InitializeState(n, u);
    var v := if u < 0.5 then -1 else 1;
    Sums.Sum2Bounds((i, j) => ValueAt(g, i, j), n, n, v, v);
  }

  /** The neighbour `_get_neighbor` picks: the first coin chooses the axis
      (a draw below 0.5 picks the column), the second the step (+1 below
      0.5, -1 otherwise), wrapping modulo N. */
  function NeighborCoord(n: int, pos: Coord, axisDraw: real, dirDraw: real): (q: Coord)
    requires 0 <= pos.row < n && 0 <= pos.col < n
    ensures q in PosNeighbourhood(n, pos)
  {
    var dir := if dirDraw < 0.5 then 1 else -1;
    if axisDraw < 0.5 then Coord(pos.row, (pos.col + dir) % n)
    else Coord((pos.row + dir) % n, pos.col)
  }

  /** The neighbourhood slot the two coins select: every slot is selected by
      exactly one of the four outcomes. */
  function Slot(axisDraw: real, dirDraw: real): (l: nat)
    ensures l < 4
  {
    (if axisDraw < 0.5 then 2 else 0) + (if dirDraw < 0.5 then 0 else 1)
  }

  lemma NeighborCoordIsSlot(n: int, pos: Coord, axisDraw: real, dirDraw: real)
    requires 0 <= pos.row < n && 0 <= pos.col < n
    ensures NeighborCoord(n, pos, axisDraw, dirDraw) == PosNeighbourhood(n, pos)[Slot(axisDraw, dirDraw)]
    ensures forall a: real, d: real :: Slot(a, d) == Slot(axisDraw, dirDraw) <==>
      ((a < 0.5) == (axisDraw < 0.5) && (d < 0.5) == (dirDraw < 0.5))
  {
  }

  /** voter.py `_get_neighbor`: the value of the picked neighbour. */
  function GetNeighbor(state: array2<int>, pos: Coord, axisDraw: real, dirDraw: real): (v: int)
    reads state
    requires state.Length0 == state.Length1
    requires 0 <= pos.row < state.Length0 && 0 <= pos.col < state.Length0
    ensures v == At(Cells(state), NeighborCoord(state.Length0, pos, axisDraw, dirDraw))
  {
    var n := state.Length0;
    var axis := if axisDraw < 0.5 then 1 else 0;
    var dir := if dirDraw < 0.5 then 1 else -1;
    if axis == 0 then state[(pos.row + dir) % n, pos.col]
    else state[pos.row, (pos.col + dir) % n]
  }

  /** One attempt at p with k floats drawn: a first draw below prob sets the
      cell by a coin (+1 below 0.5), using two draws; otherwise the cell
      copies the current value of the neighbour picked by two more coins,
      using three draws. */
  function Attempt(g: Grid, p: Coord, prob: real, random: nat -> real, k: nat): (r: Sweep)
    requires Square(g) && InGrid(g, p)
    ensures Square(r.grid) && |r.grid| == |g|
    ensures k + 2 <= r.draws <= k + 3
  {
    if random(k) < prob then Sweep(Set(g, p, if random(k + 1) < 0.5 then 1 else -1), k + 2)
    else Sweep(Set(g, p, At(g, NeighborCoord(|g|, p, random(k + 1), random(k + 2)))), k + 3)
  }

  /** An attempt changes only the chosen cell: in the noise branch to the
      coin's value, otherwise to a neighbour's old value, so a spin grid stays
      a spin grid. */
  lemma AttemptEffect(g: Grid, p: Coord, prob: real, random: nat -> real, k: nat)
    requires Square(g) && InGrid(g, p)
    ensures var r := Attempt(g, p, prob, random, k);
      && Square(r.grid) && |r.grid| == |g|
      && (forall i, j :: 0 <= i < |g| && 0 <= j < |g| && (i != p.row || j != p.col) ==> r.grid[i][j] == g[i][j])
      && (random(k) < prob ==> r.draws == k + 2 && At(r.grid, p) == if random(k + 1) < 0.5 then 1 else -1)
      && (random(k) >= prob ==>
            r.draws == k + 3 && exists q :: q in PosNeighbourhood(|g|, p) && At(r.grid, p) == At(g, q))
      && (SpinGrid(g) ==> SpinGrid(r.grid))
  {
    if random(k) >= prob {
      var q := NeighborCoord(|g|, p, random(k + 1), random(k + 2));
      assert q in PosNeighbourhood(|g|, p);
    }
  }

  /** The attempts at `sites`, in order, from grid g. */
  function SweepFrom(g: Grid, sites: seq<Coord>, prob: real, random: nat -> real): (r: Sweep)
    requires Square(g)
    requires forall t :: 0 <= t < |sites| ==> InGrid(g, sites[t])
    ensures Square(r.grid) && |r.grid| == |g|
    ensures SpinGrid(g) ==> SpinGrid(r.grid)
    ensures 2 * |sites| <= r.draws <= 3 * |sites|
    decreases |sites|
  {
    if sites == [] then Sweep(g, 0)
    else
      var last := sites[|sites| - 1];
      assert InGrid(g, last);
      var prev := SweepFrom(g, sites[..|sites| - 1], prob, random);
      AttemptEffect(prev.grid, last, prob, random, prev.draws);
      Attempt(prev.grid, last, prob, random, prev.draws)
  }

  /** Without noise a uniform grid stays as it is: when the noise draw of
      every attempt (at index 3t, each copying attempt using three draws) is
      at least prob, each attempt copies a neighbour equal to the cell. */
  lemma {:induction false} SweepKeepsConsensus(g: Grid, sites: seq<Coord>, prob: real, random: nat -> real, v: int)
    requires Square(g) && Uniform(g, v)
    requires forall t :: 0 <= t < |sites| ==> InGrid(g, sites[t])
    requires forall t :: 0 <= t < |sites| ==> random(3 * t) >= prob
    ensures SweepFrom(g, sites, prob, random) == Sweep(g, 3 * |sites|)
    decreases |sites|
  {
    if sites != [] {
      var t := |sites| - 1;
      var last := sites[t];
      SweepKeepsConsensus(g, sites[..t], prob, random, v);
      var q := NeighborCoord(|g|, last, random(3 * t + 1), random(3 * t + 2));
      GridExt(Set(g, last, At(g, q)), g);
    }
  }

  /** One attempt of `update_state_voter` (voter.py:56-61) in place. The
      neighbour is read before the cell is assigned. */
  method AttemptInPlace(state: array2<int>, pos: Coord, prob: real, random: nat -> real, k: nat)
    returns (draws: nat)
    requires state.Length0 == state.Length1
    requires 0 <= pos.row < state.Length0 && 0 <= pos.col < state.Length0
    modifies state
    ensures Sweep(Cells(state), draws) == Attempt(old(Cells(state)), pos, prob, random, k)
  {
    if random(k) < prob {
      var v := if random(k + 1) < 0.5 then 1 else -1;
      Assign(state, pos, v);
      draws := k + 2;
    } else {
      var v := GetNeighbor(state, pos, random(k + 1), random(k + 2));
      Assign(state, pos, v);
      draws := k + 3;
    }
  }

  /** voter.py `update_state_voter`: N^2 attempts in place. Its final
      contents and the floats drawn are those of SweepFrom on the drawn
      positions. */
  method UpdateStateVoter(state: array2<int>, prob: real, sites: seq<Coord>, random: nat -> real)
    returns (draws: nat)
    requires state.Length0 == state.Length1
    requires |sites| == state.Length0 * state.Length0
    requires forall t :: 0 <= t < |sites| ==> 0 <= sites[t].row < state.Length0 && 0 <= sites[t].col < state.Length0
    modifies state
    ensures Sweep(Cells(state), draws) == SweepFrom(old(Cells(state)), sites, prob, random)
  {
    var n := state.Length0;
    var steps := n * n;
    ghost var g0 := Cells(state);
    draws := 0;
    for t := 0 to steps
      invariant Sweep(Cells(state), draws) == SweepFrom(g0, sites[..t], prob, random)
    {
      ghost var prefix := sites[..t + 1];
      assert prefix[..t] == sites[..t] && prefix[t] == sites[t];
      assert SweepFrom(g0, prefix, prob, random) == Attempt(Cells(state), sites[t], prob, random, draws);
      draws := AttemptInPlace(state, sites[t], prob, random, draws);
    }
    assert sites[..steps] == sites;
  }
}
