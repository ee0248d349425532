/** Single-spin-flip sweep with the Metropolis acceptance rule (ising.py).

    The random generator is an input: `sites[t]` is the position drawn for
    attempt t and `random(k)` is the k-th uniform float drawn. The two-entry
    acceptance table `exponent` (exp(-4 beta), exp(-8 beta) in the source) is
    given as a table of reals; comparing a draw against an entry is the exact
    comparison `random(k) < exponent[i]`. */
module Ising {
  import opened Lattice
  import Wolff

  /** ising.py `initialize_state`: an N x N grid of +1. */
  function InitializeState(n: nat): (g: Grid)
    ensures |g| == n && Square(g) && SpinGrid(g) && Uniform(g, 1)
  {
    Filled(n, 1)
  }

  /** The aligned start is fully magnetised: all N^2 cells are +1. */
  lemma InitializeStateMagnetised(n: nat)
    ensures UpCount(InitializeState(n)) == n * n
    ensures Magnetisation(InitializeState(n)) == n * n
  {
    var g := InitializeState(n);
    Sums.Sum2Bounds((i, j) => UpAt(g, i, j), n, n, 1, 1);
    MagnetisationFromUpCount(g);
  }

  /** Energy change of flipping the spin at p: 2 * s * (neighbour sum). On a
      spin grid it is a multiple of 4 between -8 and 8. */
  function DeltaE(g: Grid, p: Coord): (dE: int)
    requires SpinGrid(g) && InGrid(g, p)
    ensures dE % 4 == 0 && -8 <= dE <= 8
  {
    2 * At(g, p) * NeighbourSum(g, p)
  }

  /** Index `int(dE / 4 - 1)` into the acceptance table for a positive energy
      change: it is 0 or 1, and the entry it selects is the one computed for
      exactly this dE (entry k holds exp(-4 (k + 1) beta)). */
  function TableIndex(dE: int): (k: int)
    requires 0 < dE <= 8 && dE % 4 == 0
    ensures 0 <= k < 2 && dE == 4 * (k + 1)
  {
    dE / 4 - 1
  }

  /** One Metropolis attempt at p with k floats already drawn: a non-positive
      energy change flips at once without drawing; otherwise one float is
      drawn and the flip happens when it falls below the table entry. */
  function Attempt(g: Grid, p: Coord, random: nat -> real, k: nat, exponent: seq<real>): (r: Sweep)
    requires SpinGrid(g) && InGrid(g, p) && |exponent| == 2
    ensures SpinGrid(r.grid) && |r.grid| == |g| && Width(r.grid) == Width(g)
    ensures r.grid == g || r.grid == Flip(g, p)
    ensures k <= r.draws <= k + 1
  {
    var dE := DeltaE(g, p);
    if dE <= 0 then Sweep(Flip(g, p), k)
    else if random(k) < exponent[TableIndex(dE)] then Sweep(Flip(g, p), k + 1)
    else Sweep(g, k + 1)
  }

  /** The attempts at `sites`, in order, from grid g. */
  function SweepFrom(g: Grid, sites: seq<Coord>, random: nat -> real, exponent: seq<real>): (r: Sweep)
    requires SpinGrid(g) && |exponent| == 2
    requires forall t :: 0 <= t < |sites| ==> InGrid(g, sites[t])
    ensures SpinGrid(r.grid) && |r.grid| == |g| && Width(r.grid) == Width(g)
    ensures r.draws <= |sites|
    decreases |sites|
  {
    if sites == [] then Sweep(g, 0)
    else
      var last := sites[|sites| - 1];
      assert InGrid(g, last);
      var prev := SweepFrom(g, sites[..|sites| - 1], random, exponent);
      Attempt(prev.grid, last, random, prev.draws, exponent)
  }

  /** An attempt changes at most the chosen cell: that cell is negated exactly
      when the Metropolis rule accepts, a float is drawn exactly when the
      energy change is positive, and every other cell is unchanged. */
  lemma AttemptEffect(g: Grid, p: Coord, random: nat -> real, k: nat, exponent: seq<real>)
    requires SpinGrid(g) && InGrid(g, p) && |exponent| == 2
    ensures var r := Attempt(g, p, random, k, exponent);
      var dE := DeltaE(g, p);
      && SpinGrid(r.grid) && |r.grid| == |g| && Width(r.grid) == Width(g)
      && (At(r.grid, p) == -At(g, p) <==> (dE <= 0 || random(k) < exponent[TableIndex(dE)]))
      && (r.draws == if dE > 0 then k + 1 else k)
      && (forall i, j :: 0 <= i < |g| && 0 <= j < Width(g) && (i != p.row || j != p.col) ==>
            r.grid[i][j] == g[i][j])
  {
  }

  /** The grid obtained by flipping every site of `sites` in turn. */
  function FlipAll(g: Grid, sites: seq<Coord>): (h: Grid)
    requires SpinGrid(g)
    requires forall t :: 0 <= t < |sites| ==> InGrid(g, sites[t])
    ensures SpinGrid(h) && |h| == |g| && Width(h) == Width(g)
    decreases |sites|
  {
    if sites == [] then g
    else
      var last := sites[|sites| - 1];
      assert InGrid(g, last);
      Flip(FlipAll(g, sites[..|sites| - 1]), last)
  }

  /** At infinite temperature (every table entry 1, every draw below 1) every
      attempt flips, so a sweep flips each drawn site in turn. */
  lemma {:induction false} SweepInfiniteTemperature(g: Grid, sites: seq<Coord>, random: nat -> real, exponent: seq<real>)
    requires SpinGrid(g) && exponent == [1.0, 1.0]
    requires forall k :: random(k) < 1.0
    requires forall t :: 0 <= t < |sites| ==> InGrid(g, sites[t])
    ensures SweepFrom(g, sites, random, exponent).grid == FlipAll(g, sites)
    decreases |sites|
  {
    if sites != [] {
      SweepInfiniteTemperature(g, sites[..|sites| - 1], random, exponent);
    }
  }

  /** In the zero-temperature limit (every table entry 0, every draw
      non-negative) a positive energy change is always rejected: only
      attempts with dE <= 0 flip, and each such attempt draws nothing. */
  lemma AttemptZeroTemperature(g: Grid, p: Coord, random: nat -> real, k: nat, exponent: seq<real>)
    requires SpinGrid(g) && InGrid(g, p) && exponent == [0.0, 0.0]
    requires forall k :: random(k) >= 0.0
    ensures Attempt(g, p, random, k, exponent).grid == if DeltaE(g, p) <= 0 then Flip(g, p) else g
  {
  }

  /** dE is the energy change that goes with the sum of s * n over all sites:
      flipping p lowers that sum by exactly 2 * dE, so the Metropolis
      energy -(sum of s * n) / 2 rises by dE. On a side of 1 the site is its
      own neighbour and the identity fails, so the side is at least 2. */
  lemma FlipEnergy(g: Grid, p: Coord)
    requires Square(g) && SpinGrid(g) && |g| >= 2 && InGrid(g, p)
    ensures Wolff.LinkEnergy(Flip(g, p)) == Wolff.LinkEnergy(g) - 2 * DeltaE(g, p)
  {
    Wolff.LinkEnergyFlip(g, p);
    Quadruple(At(g, p), NeighbourSum(g, p));
  }

  lemma Quadruple(s: int, n: int)
    ensures 2 * (2 * s * n) == 4 * (s * n)
  {
  }

  /** At zero temperature an attempt never lowers the sum of s * n, so it
      never raises the Metropolis energy. */
  lemma AttemptZeroTemperatureEnergy(g: Grid, p: Coord, random: nat -> real, k: nat, exponent: seq<real>)
    requires Square(g) && SpinGrid(g) && InGrid(g, p) && exponent == [0.0, 0.0]
    requires forall k :: random(k) >= 0.0
    ensures Wolff.LinkEnergy(Attempt(g, p, random, k, exponent).grid) >= Wolff.LinkEnergy(g)
  {
    AttemptZeroTemperature(g, p, random, k, exponent);
    if |g| == 1 {
      SelfNeighbour(g, p);
    } else if DeltaE(g, p) <= 0 {
      FlipEnergy(g, p);
    }
  }

  /** On a 1 x 1 torus the site is all four of its neighbours, so dE = 8 and
      a flip is never free. */
  lemma SelfNeighbour(g: Grid, p: Coord)
    requires Square(g) && SpinGrid(g) && InGrid(g, p) && |g| == 1
    ensures DeltaE(g, p) == 8
  {
    var s := At(g, p);
    assert p == Coord(0, 0);
    assert NeighbourSum(g, p) == 4 * s;
    assert s == 1 || s == -1;
  }

  /** A whole zero-temperature sweep never lowers the sum of s * n. */
  lemma {:induction false} SweepZeroTemperature(g: Grid, sites: seq<Coord>, random: nat -> real, exponent: seq<real>)
    requires Square(g) && SpinGrid(g) && exponent == [0.0, 0.0]
    requires forall k :: random(k) >= 0.0
    requires forall t :: 0 <= t < |sites| ==> InGrid(g, sites[t])
    ensures Wolff.LinkEnergy(SweepFrom(g, sites, random, exponent).grid) >= Wolff.LinkEnergy(g)
    decreases |sites|
  {
    if sites != [] {
      var last := sites[|sites| - 1];
      assert InGrid(g, last);
      var prev := SweepFrom(g, sites[..|sites| - 1], random, exponent);
      SweepZeroTemperature(g, sites[..|sites| - 1], random, exponent);
      AttemptZeroTemperatureEnergy(prev.grid, last, random, prev.draws, exponent);
    }
  }

  /** One attempt of `update_state_ising` (ising.py:56-61) in place on the
      array lattice, with k floats drawn so far. */
  method AttemptInPlace(state: array2<int>, pos: Coord, random: nat -> real, k: nat, exponent: seq<real>)
    returns (draws: nat)
    requires state.Length0 == state.Length1 && SpinGrid(Cells(state))
    requires 0 <= pos.row < state.Length0 && 0 <= pos.col < state.Length0
    requires |exponent| == 2
    modifies state
    ensures Sweep(Cells(state), draws) == Attempt(old(Cells(state)), pos, random, k, exponent)
  {
    ghost var g := Cells(state);
    var dE := 2 * state[pos.row, pos.col] * GetNeighborhood(state, pos);
    assert dE == DeltaE(g, pos);
    draws := k;
    if dE <= 0 {
      Assign(state, pos, -state[pos.row, pos.col]);
    } else {
      var u := random(draws);
      draws := draws + 1;
      if u < exponent[dE / 4 - 1] {
        Assign(state, pos, -state[pos.row, pos.col]);
      }
    }
  }

  /** ising.py `update_state_ising`: N^2 attempts on the array lattice, in
      place. Its final contents and the number of floats drawn are those of
      SweepFrom on the drawn positions. */
  method UpdateStateIsing(state: array2<int>, exponent: seq<real>, sites: seq<Coord>, random: nat -> real)
    returns (draws: nat)
    requires state.Length0 == state.Length1 && SpinGrid(Cells(state))
    requires |exponent| == 2
    requires |sites| == state.Length0 * state.Length0
    requires forall t :: 0 <= t < |sites| ==> 0 <= sites[t].row < state.Length0 && 0 <= sites[t].col < state.Length0
    modifies state
    ensures Sweep(Cells(state), draws) == SweepFrom(old(Cells(state)), sites, random, exponent)
  {
    var n := state.Length0;
    var steps := n * n;
    ghost var g0 := Cells(state);
    draws := 0;
    for t := 0 to steps
      invariant Sweep(Cells(state), draws) == SweepFrom(g0, sites[..t], random, exponent)
    {
      ghost var prefix := sites[..t + 1];
      assert prefix[..t] == sites[..t] && prefix[t] == sites[t];
      assert SweepFrom(g0, prefix, random, exponent)
        == Attempt(Cells(state), sites[t], random, draws, exponent);
      draws := AttemptInPlace(state, sites[t], random, draws, exponent);
    }
    assert sites[..steps] == sites;
  }
}
