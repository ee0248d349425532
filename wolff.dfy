/** Wolff cluster update (wolff.py).

    A cluster is grown from a seed site over a marker grid that starts at all
    +1: entering a site negates its marker, and from every entered site each of
    its four toroidal neighbours with the same lattice spin is joined with
    probability P, decided by drawing one uniform float `random(k)`. The lattice
    itself is read only; `stepMC` finally multiplies it by the markers, which
    flips the cluster. The seed and P are inputs (their computation from the
    random generator and from kT is not modelled). */
module Wolff {
  import opened Sums
  import opened Lattice

  /** Marker grid after some growth, and the number of floats drawn so far. */
  datatype Growth = Growth(marks: Grid, next: nat)

  /** m is a marker grid of the same N x N shape as the square lattice. */
  predicate Markers(lat: Grid, m: Grid) {
    Square(lat) && SpinGrid(m) && |m| == |lat| && Width(m) == |lat|
  }

  /** Markers only go from +1 to -1: every +1 left in m2 was +1 in m1. */
  ghost predicate Shrinks(m1: Grid, m2: Grid) {
    forall i, j :: ValueAt(m2, i, j) == 1 ==> ValueAt(m1, i, j) == 1
  }

  /** Site q was entered between marker grids m1 and m2. */
  predicate Entered(m1: Grid, m2: Grid, q: Coord) {
    ValueAt(m1, q.row, q.col) == 1 && ValueAt(m2, q.row, q.col) == -1
  }

  /** The sites entered from m1 to m3 are those entered from m1 to m2 and
      those entered from m2 to m3, when each step only shrinks. */
  lemma EnteredSplit(m1: Grid, m2: Grid, m3: Grid)
    requires SpinGrid(m2) && |m2| == |m1| && Width(m2) == Width(m1) && Rect(m1)
    requires Shrinks(m1, m2) && Shrinks(m2, m3)
    ensures Shrinks(m1, m3)
    ensures forall q :: Entered(m1, m3, q) ==> Entered(m1, m2, q) || Entered(m2, m3, q)
  {
    forall q | Entered(m1, m3, q)
      ensures Entered(m1, m2, q) || Entered(m2, m3, q)
    {
      assert IsSpin(m2[q.row][q.col]);
    }
  }

  /** Number of the neighbourhood slots idx, ..., 3 of p whose site has p's
      lattice spin: the slots for which the neighbour loop draws a float. */
  function SameFrom(lat: Grid, p: Coord, idx: nat): (c: nat)
    requires Square(lat) && InGrid(lat, p) && idx <= 4
    ensures c <= 4 - idx
    decreases 4 - idx
  {
    if idx == 4 then 0
    else (if At(lat, PosNeighbourhood(|lat|, p)[idx]) == At(lat, p) then 1 else 0) + SameFrom(lat, p, idx + 1)
  }

  /** The same-spin slots of site (i, j) when its marker is still +1, else 0. */
  function PendingTerm(lat: Grid, m: Grid, i: int, j: int): int {
    if Square(lat) && 0 <= i < |lat| && 0 <= j < |lat| && ValueAt(m, i, j) == 1 then SameFrom(lat, Coord(i, j), 0) else 0
  }

  /** The floats the sites still marked +1 would draw if all were entered. */
  function Pending(lat: Grid, m: Grid): int {
    Sum2((i, j) => PendingTerm(lat, m, i, j), |lat|, |lat|)
  }

  /** Entering pos removes exactly its own same-spin slots from Pending. */
  lemma PendingFlip(lat: Grid, m: Grid, pos: Coord)
    requires Markers(lat, m) && InGrid(lat, pos) && At(m, pos) == 1
    ensures Pending(lat, Flip(m, pos)) == Pending(lat, m) - SameFrom(lat, pos, 0)
  {
    var m1 := Flip(m, pos);
    Sum2Point((i, j) => PendingTerm(lat, m, i, j), (i, j) => PendingTerm(lat, m1, i, j), |lat|, |lat|, pos.row, pos.col);
  }

  /** wolff.py `update` entered at pos (whose marker is +1), with k floats
      drawn so far: the marker at pos is negated and then its neighbours are
      scanned in the fixed neighbourhood order. */
  function Grow(lat: Grid, m: Grid, pos: Coord, random: nat -> real, k: nat, P: real): (r: Growth)
    requires Markers(lat, m) && InGrid(lat, pos) && At(m, pos) == 1
    ensures Markers(lat, r.marks) && Shrinks(m, r.marks)
    ensures At(r.marks, pos) == -1
    ensures UpCount(r.marks) < UpCount(m)
    ensures k <= r.next <= k + 4 * (UpCount(m) - UpCount(r.marks))
    ensures forall q :: Entered(m, r.marks, q) ==> ValueAt(lat, q.row, q.col) == At(lat, pos)
    decreases UpCount(m), 0
  {
    var m1 := Flip(m, pos);
    FlipUpCount(m, pos);
    UpCountBounds(m1);
    var r := GrowFrom(lat, m1, pos, 0, random, k, P);
    EnteredSplit(m, m1, r.marks);
    r
  }

  /** The neighbour loop of `update` from slot idx on: a float is drawn only
      for a neighbour with the same lattice spin, and the neighbour is entered
      when that draw is below P and its marker is still +1. */
  function GrowFrom(lat: Grid, m: Grid, pos: Coord, idx: nat, random: nat -> real, k: nat, P: real): (r: Growth)
    requires Markers(lat, m) && InGrid(lat, pos) && idx <= 4
    ensures Markers(lat, r.marks) && Shrinks(m, r.marks)
    ensures UpCount(r.marks) <= UpCount(m)
    ensures k <= r.next <= k + (4 - idx) + 4 * (UpCount(m) - UpCount(r.marks))
    ensures forall q :: Entered(m, r.marks, q) ==> ValueAt(lat, q.row, q.col) == At(lat, pos)
    decreases UpCount(m), 5 - idx
  {
    if idx == 4 then Growth(m, k)
    else
      var nb := PosNeighbourhood(|lat|, pos)[idx];
      if At(lat, pos) != At(lat, nb) then GrowFrom(lat, m, pos, idx + 1, random, k, P)
      else if random(k) < P && At(m, nb) == 1 then
        var sub := Grow(lat, m, nb, random, k + 1, P);
        UpCountBounds(sub.marks);
        var r := GrowFrom(lat, sub.marks, pos, idx + 1, random, sub.next, P);
        EnteredSplit(m, sub.marks, r.marks);
        r
      else GrowFrom(lat, m, pos, idx + 1, random, k + 1, P)
  }

  /** The exact float count of `update`: one float for each same-spin
      neighbour slot of every site entered, the seed included. */
  lemma {:induction false} GrowDraws(lat: Grid, m: Grid, pos: Coord, random: nat -> real, k: nat, P: real)
    requires Markers(lat, m) && InGrid(lat, pos) && At(m, pos) == 1
    ensures var r := Grow(lat, m, pos, random, k, P);
      r.next == k + (Pending(lat, m) - Pending(lat, r.marks))
    decreases UpCount(m), 0
  {
    var m1 := Flip(m, pos);
    FlipUpCount(m, pos);
    UpCountBounds(m1);
    PendingFlip(lat, m, pos);
    GrowFromDraws(lat, m1, pos, 0, random, k, P);
  }

  /** The exact float count of the neighbour loop from slot idx on: one float
      for each remaining same-spin slot of pos, and one for each same-spin
      slot of every site entered. */
  lemma {:induction false} GrowFromDraws(lat: Grid, m: Grid, pos: Coord, idx: nat, random: nat -> real, k: nat, P: real)
    requires Markers(lat, m) && InGrid(lat, pos) && idx <= 4
    ensures var r := GrowFrom(lat, m, pos, idx, random, k, P);
      r.next == k + SameFrom(lat, pos, idx) + (Pending(lat, m) - Pending(lat, r.marks))
    decreases UpCount(m), 5 - idx
  {
    if idx < 4 {
      var nb := PosNeighbourhood(|lat|, pos)[idx];
      if At(lat, pos) != At(lat, nb) {
        GrowFromDraws(lat, m, pos, idx + 1, random, k, P);
      } else if random(k) < P && At(m, nb) == 1 {
        var sub := Grow(lat, m, nb, random, k + 1, P);
        UpCountBounds(sub.marks);
        GrowDraws(lat, m, nb, random, k + 1, P);
        GrowFromDraws(lat, sub.marks, pos, idx + 1, random, sub.next, P);
      } else {
        GrowFromDraws(lat, m, pos, idx + 1, random, k + 1, P);
      }
    }
  }

  /** q is a neighbour of p (one of its four neighbourhood slots) with the same
      lattice spin: the edges along which a cluster can grow. */
  predicate Linked(lat: Grid, p: Coord, q: Coord)
    requires Square(lat)
  {
    InGrid(lat, p) && q in PosNeighbourhood(|lat|, p) && At(lat, q) == At(lat, p)
  }

  /** S is closed under same-spin steps that land on a site entered from m0 to F. */
  ghost predicate ClosedWithin(lat: Grid, S: set<Coord>, m0: Grid, F: Grid)
    requires Square(lat)
  {
    forall p, q :: p in S && Linked(lat, p, q) && Entered(m0, F, q) ==> q in S
  }

  /** The sites entered are connected to the seed through entered same-spin
      neighbours: every set S that holds the seed and is closed under steps
      to entered same-spin neighbours holds all of them. m0 and F are the
      marker grids before and after the outermost call. */
  lemma {:induction false} GrowConnected(lat: Grid, m: Grid, pos: Coord, random: nat -> real, k: nat, P: real,
                                         m0: Grid, F: Grid, S: set<Coord>)
    requires Markers(lat, m) && InGrid(lat, pos) && At(m, pos) == 1
    requires Markers(lat, m0) && Markers(lat, F) && Shrinks(m0, m)
    requires Shrinks(Grow(lat, m, pos, random, k, P).marks, F)
    requires pos in S && ClosedWithin(lat, S, m0, F)
    ensures forall q :: Entered(m, Grow(lat, m, pos, random, k, P).marks, q) ==> q in S
    decreases UpCount(m), 0
  {
    var m1 := Flip(m, pos);
    FlipUpCount(m, pos);
    UpCountBounds(m1);
    var r := GrowFrom(lat, m1, pos, 0, random, k, P);
    EnteredSplit(m0, m, m1);
    GrowFromConnected(lat, m1, pos, 0, random, k, P, m0, F, S);
    EnteredSplit(m, m1, r.marks);
  }

  lemma {:induction false} GrowFromConnected(lat: Grid, m: Grid, pos: Coord, idx: nat, random: nat -> real, k: nat, P: real,
                                             m0: Grid, F: Grid, S: set<Coord>)
    requires Markers(lat, m) && InGrid(lat, pos) && idx <= 4
    requires Markers(lat, m0) && Markers(lat, F) && Shrinks(m0, m)
    requires Shrinks(GrowFrom(lat, m, pos, idx, random, k, P).marks, F)
    requires pos in S && ClosedWithin(lat, S, m0, F)
    ensures forall q :: Entered(m, GrowFrom(lat, m, pos, idx, random, k, P).marks, q) ==> q in S
    decreases UpCount(m), 5 - idx
  {
    if idx < 4 {
      var nb := PosNeighbourhood(|lat|, pos)[idx];
      if At(lat, pos) != At(lat, nb) {
        GrowFromConnected(lat, m, pos, idx + 1, random, k, P, m0, F, S);
      } else if random(k) < P && At(m, nb) == 1 {
        var sub := Grow(lat, m, nb, random, k + 1, P);
        UpCountBounds(sub.marks);
        var r := GrowFrom(lat, sub.marks, pos, idx + 1, random, sub.next, P);
        EnteredSplit(sub.marks, r.marks, F);
        EnteredSplit(m0, m, sub.marks);
        assert Linked(lat, pos, nb) && Entered(m0, F, nb);
        GrowConnected(lat, m, nb, random, k + 1, P, m0, F, S);
        GrowFromConnected(lat, sub.marks, pos, idx + 1, random, sub.next, P, m0, F, S);
        EnteredSplit(m, sub.marks, r.marks);
      } else {
        GrowFromConnected(lat, m, pos, idx + 1, random, k + 1, P, m0, F, S);
      }
    }
  }

  /** Every same-spin neighbour of p is marked in r. */
  ghost predicate Surrounded(lat: Grid, r: Grid, p: Coord)
    requires Square(lat)
  {
    forall q :: Linked(lat, p, q) ==> ValueAt(r, q.row, q.col) == -1
  }

  /** Every same-spin neighbour of pos in slots idx..3 is marked in r. */
  ghost predicate SlotsMarked(lat: Grid, r: Grid, pos: Coord, idx: nat)
    requires Square(lat) && InGrid(lat, pos)
  {
    forall l :: idx <= l < 4 && At(lat, PosNeighbourhood(|lat|, pos)[l]) == At(lat, pos) ==>
      ValueAt(r, PosNeighbourhood(|lat|, pos)[l].row, PosNeighbourhood(|lat|, pos)[l].col) == -1
  }

  /** When every draw accepts, each site entered has all its same-spin
      neighbours marked when the call returns. */
  lemma {:induction false} GrowAccepting(lat: Grid, m: Grid, pos: Coord, random: nat -> real, k: nat, P: real)
    requires Markers(lat, m) && InGrid(lat, pos) && At(m, pos) == 1
    requires forall k :: random(k) < P
    ensures forall p :: Entered(m, Grow(lat, m, pos, random, k, P).marks, p) ==>
      Surrounded(lat, Grow(lat, m, pos, random, k, P).marks, p)
    decreases UpCount(m), 0
  {
    var m1 := Flip(m, pos);
    FlipUpCount(m, pos);
    UpCountBounds(m1);
    var r := GrowFrom(lat, m1, pos, 0, random, k, P);
    GrowFromAccepting(lat, m1, pos, 0, random, k, P);
    EnteredSplit(m, m1, r.marks);
    assert Surrounded(lat, r.marks, pos);
  }

  lemma {:induction false} GrowFromAccepting(lat: Grid, m: Grid, pos: Coord, idx: nat, random: nat -> real, k: nat, P: real)
    requires Markers(lat, m) && InGrid(lat, pos) && idx <= 4
    requires forall k :: random(k) < P
    ensures SlotsMarked(lat, GrowFrom(lat, m, pos, idx, random, k, P).marks, pos, idx)
    ensures forall p :: Entered(m, GrowFrom(lat, m, pos, idx, random, k, P).marks, p) ==>
      Surrounded(lat, GrowFrom(lat, m, pos, idx, random, k, P).marks, p)
    decreases UpCount(m), 5 - idx
  {
    if idx < 4 {
      var nb := PosNeighbourhood(|lat|, pos)[idx];
      var r := GrowFrom(lat, m, pos, idx, random, k, P).marks;
      if At(lat, pos) != At(lat, nb) {
        GrowFromAccepting(lat, m, pos, idx + 1, random, k, P);
        SlotsMarkedStep(lat, r, pos, idx);
      } else if At(m, nb) == 1 {
        var sub := Grow(lat, m, nb, random, k + 1, P);
        UpCountBounds(sub.marks);
        GrowAccepting(lat, m, nb, random, k + 1, P);
        GrowFromAccepting(lat, sub.marks, pos, idx + 1, random, sub.next, P);
        EnteredSplit(m, sub.marks, r);
        SurroundedKept(lat, sub.marks, r);
        forall p | Entered(m, r, p)
          ensures Surrounded(lat, r, p)
        {
          if !Entered(m, sub.marks, p) {
            assert Entered(sub.marks, r, p);
          }
        }
        assert ValueAt(r, nb.row, nb.col) == -1 by {
          assert IsSpin(r[nb.row][nb.col]);
        }
        SlotsMarkedStep(lat, r, pos, idx);
      } else {
        GrowFromAccepting(lat, m, pos, idx + 1, random, k + 1, P);
        assert ValueAt(r, nb.row, nb.col) == -1 by {
          assert IsSpin(r[nb.row][nb.col]) && IsSpin(m[nb.row][nb.col]);
        }
        SlotsMarkedStep(lat, r, pos, idx);
      }
    }
  }

  lemma SlotsMarkedStep(lat: Grid, r: Grid, pos: Coord, idx: nat)
    requires Square(lat) && InGrid(lat, pos) && idx < 4
    requires SlotsMarked(lat, r, pos, idx + 1)
    requires var nb := PosNeighbourhood(|lat|, pos)[idx];
      At(lat, nb) == At(lat, pos) ==> ValueAt(r, nb.row, nb.col) == -1
    ensures SlotsMarked(lat, r, pos, idx)
  {
  }

  /** A -1 marker stays -1 while markers only shrink, so a site whose
      same-spin neighbours are all marked stays so. */
  lemma SurroundedKept(lat: Grid, r1: Grid, r2: Grid)
    requires Markers(lat, r2) && Shrinks(r1, r2)
    ensures forall p :: Surrounded(lat, r1, p) ==> Surrounded(lat, r2, p)
  {
    forall p, q | Surrounded(lat, r1, p) && Linked(lat, p, q)
      ensures ValueAt(r2, q.row, q.col) == -1
    {
      assert ValueAt(r1, q.row, q.col) == -1;
      assert IsSpin(r2[q.row][q.col]);
    }
  }

  /** When every draw rejects, the neighbour loop enters nothing. */
  lemma {:induction false} GrowFromRejecting(lat: Grid, m: Grid, pos: Coord, idx: nat, random: nat -> real, k: nat, P: real)
    requires Markers(lat, m) && InGrid(lat, pos) && idx <= 4
    requires forall k :: random(k) >= P
    ensures GrowFrom(lat, m, pos, idx, random, k, P).marks == m
    decreases 4 - idx
  {
    if idx < 4 {
      var nb := PosNeighbourhood(|lat|, pos)[idx];
      if At(lat, pos) != At(lat, nb) {
        GrowFromRejecting(lat, m, pos, idx + 1, random, k, P);
      } else {
        GrowFromRejecting(lat, m, pos, idx + 1, random, k + 1, P);
      }
    }
  }

  /** When every draw rejects, only the seed is marked, and one float is
      drawn for each of its same-spin neighbour slots. */
  lemma GrowRejecting(lat: Grid, m: Grid, pos: Coord, random: nat -> real, k: nat, P: real)
    requires Markers(lat, m) && InGrid(lat, pos) && At(m, pos) == 1
    requires forall k :: random(k) >= P
    ensures Grow(lat, m, pos, random, k, P).marks == Set(m, pos, -1)
    ensures Grow(lat, m, pos, random, k, P).next == k + SameFrom(lat, pos, 0)
  {
    GrowFromRejecting(lat, Flip(m, pos), pos, 0, random, k, P);
    GrowDraws(lat, m, pos, random, k, P);
    PendingFlip(lat, m, pos);
  }

  /** Site q is marked -1. */
  predicate InCluster(m: Grid, q: Coord) {
    ValueAt(m, q.row, q.col) == -1
  }

  /** `stepMC` draws two floats for the seed's row and column before the
      cluster grows, so growth starts at float index 2. */
  const SeedDraws: nat := 2

  /** The cluster that `stepMC` grows from an all +1 marker grid with the seed
      pos: the sites marked -1 all lie in every set that holds the seed and
      is closed under same-spin neighbour steps, so within the seed's
      same-spin connected component. */
  lemma ClusterWithinComponent(lat: Grid, pos: Coord, random: nat -> real, P: real, S: set<Coord>)
    requires Square(lat) && InGrid(lat, pos)
    requires pos in S && forall p, q :: p in S && Linked(lat, p, q) ==> q in S
    ensures var F := Grow(lat, Filled(|lat|, 1), pos, random, SeedDraws, P).marks;
      forall q :: InCluster(F, q) ==> q in S
  {
    var m0 := Filled(|lat|, 1);
    var F := Grow(lat, m0, pos, random, SeedDraws, P).marks;
    GrowConnected(lat, m0, pos, random, SeedDraws, P, m0, F, S);
    forall q | InCluster(F, q)
      ensures q in S
    {
      assert Entered(m0, F, q);
    }
  }

  /** The cluster that `stepMC` grows is connected and holds the seed: every
      set that holds the seed and is closed under same-spin neighbour steps
      onto marked sites holds every marked site, so each marked site is
      reached from the seed along marked same-spin neighbours. */
  lemma ClusterConnected(lat: Grid, pos: Coord, random: nat -> real, P: real, S: set<Coord>)
    requires Square(lat) && InGrid(lat, pos)
    requires pos in S
    requires forall p, q :: p in S && Linked(lat, p, q) && InCluster(Grow(lat, Filled(|lat|, 1), pos, random, SeedDraws, P).marks, q) ==> q in S
    ensures InCluster(Grow(lat, Filled(|lat|, 1), pos, random, SeedDraws, P).marks, pos)
    ensures forall q :: InCluster(Grow(lat, Filled(|lat|, 1), pos, random, SeedDraws, P).marks, q) ==> q in S
  {
    var m0 := Filled(|lat|, 1);
    var F := Grow(lat, m0, pos, random, SeedDraws, P).marks;
    forall p, q | p in S && Linked(lat, p, q) && Entered(m0, F, q)
      ensures q in S
    {
      assert InCluster(F, q);
    }
    GrowConnected(lat, m0, pos, random, SeedDraws, P, m0, F, S);
    forall q | InCluster(F, q)
      ensures q in S
    {
      assert Entered(m0, F, q);
    }
  }

  /** When every draw accepts, the marked set of `stepMC` is closed under
      same-spin neighbour steps; with ClusterWithinComponent it is exactly
      the seed's same-spin connected component. */
  lemma ClusterAllAccept(lat: Grid, pos: Coord, random: nat -> real, P: real)
    requires Square(lat) && InGrid(lat, pos)
    requires forall k :: random(k) < P
    ensures var F := Grow(lat, Filled(|lat|, 1), pos, random, SeedDraws, P).marks;
      forall p, q :: InCluster(F, p) && Linked(lat, p, q) ==> InCluster(F, q)
  {
    var m0 := Filled(|lat|, 1);
    var F := Grow(lat, m0, pos, random, SeedDraws, P).marks;
    GrowAccepting(lat, m0, pos, random, SeedDraws, P);
    forall p, q | InCluster(F, p) && Linked(lat, p, q)
      ensures InCluster(F, q)
    {
      assert Entered(m0, F, p);
    }
  }

  /** wolff.py `update` in place on the marker array `state`: its final
      contents and the floats drawn are those of Grow. */
  method Update(lattice: array2<int>, state: array2<int>, pos: Coord, P: real, random: nat -> real, k: nat)
    returns (next: nat)
    requires lattice != state
    requires lattice.Length0 == lattice.Length1 == state.Length0 == state.Length1
    requires SpinGrid(Cells(state))
    requires 0 <= pos.row < state.Length0 && 0 <= pos.col < state.Length0 && state[pos.row, pos.col] == 1
    modifies state
    ensures Growth(Cells(state), next) == Grow(Cells(lattice), old(Cells(state)), pos, random, k, P)
    decreases UpCount(Cells(state)), 0
  {
    ghost var lat := Cells(lattice);
    ghost var m0 := Cells(state);
    var n := state.Length0;
    Assign(state, pos, -1 * state[pos.row, pos.col]);
    FlipUpCount(m0, pos);
    var nbs := PosNeighbourhood(n, pos);
    next := k;
    for idx := 0 to 4
      invariant Markers(lat, Cells(state)) && UpCount(Cells(state)) < UpCount(m0)
      invariant GrowFrom(lat, Cells(state), pos, idx, random, next, P) == Grow(lat, m0, pos, random, k, P)
    {
      var i := nbs[idx];
      if lattice[pos.row, pos.col] == lattice[i.row, i.col] {
        var u := random(next);
        next := next + 1;
        if u < P && state[i.row, i.col] == 1 {
          UpCountBounds(Cells(state));
          next := Update(lattice, state, i, P, random, next);
        }
      }
    }
  }

  /** Element-wise product `lattice * state`: a site marked -1 has its spin
      negated and every other site keeps its spin. */
  function Product(lat: Grid, marks: Grid): (r: Grid)
    requires Rect(lat) && Rect(marks) && |marks| == |lat| && Width(marks) == Width(lat)
    ensures |r| == |lat| && Rect(r) && Width(r) == Width(lat)
    ensures SpinGrid(marks) ==> forall i, j :: 0 <= i < |lat| && 0 <= j < Width(lat) ==>
      r[i][j] == if marks[i][j] == -1 then -lat[i][j] else lat[i][j]
    ensures SpinGrid(lat) && SpinGrid(marks) ==> SpinGrid(r)
  {
    seq(|lat|, i requires 0 <= i < |lat| => seq(Width(lat), j requires 0 <= j < Width(lat) => lat[i][j] * marks[i][j]))
  }

  /** wolff.py `stepMC` with the seed given: a cluster is grown on a fresh
      all +1 marker array, from the float after the two seed draws, and the
      lattice times the markers is returned, so the cluster's spins are
      flipped. `draws` counts the two seed draws too. */
  method StepMC(lattice: array2<int>, seed: Coord, P: real, random: nat -> real)
    returns (flipped: array2<int>, draws: nat)
    requires lattice.Length0 == lattice.Length1
    requires 0 <= seed.row < lattice.Length0 && 0 <= seed.col < lattice.Length0
    ensures fresh(flipped)
    ensures Cells(flipped) == Product(Cells(lattice), Grow(Cells(lattice), Filled(lattice.Length0, 1), seed, random, SeedDraws, P).marks)
    ensures draws == Grow(Cells(lattice), Filled(lattice.Length0, 1), seed, random, SeedDraws, P).next
  {
    var n := lattice.Length0;
    var state := new int[n, n]((i, j) => 1);
    GridExt(Cells(state), Filled(n, 1));
    draws := Update(lattice, state, seed, P, random, SeedDraws);
    flipped := new int[n, n]((i, j) reads lattice, state requires 0 <= i < n && 0 <= j < n => lattice[i, j] * state[i, j]);
    ProductCells(lattice, state, flipped);
  }

  lemma ProductCells(lattice: array2<int>, state: array2<int>, flipped: array2<int>)
    requires lattice.Length0 == lattice.Length1 == state.Length0 == state.Length1
    requires flipped.Length0 == flipped.Length1 == lattice.Length0
    requires forall i, j :: 0 <= i < lattice.Length0 && 0 <= j < lattice.Length0 ==>
      flipped[i, j] == lattice[i, j] * state[i, j]
    ensures Cells(flipped) == Product(Cells(lattice), Cells(state))
  {
    GridExt(Cells(flipped), Product(Cells(lattice), Cells(state)));
  }

  /** s * n at site (a, b): its spin times its four-neighbour sum, rows
      wrapping modulo the row count and columns modulo the column count (0 off
      the grid). */
  function LinkTerm(g: Grid, a: int, b: int): int {
    if Rect(g) && 0 <= a < |g| && 0 <= b < Width(g) then g[a][b] * NeighbourSum(g, Coord(a, b)) else 0
  }

  /** Twice the energy `calcE` adds for site (a, b): n*s + 2*mu*H*s. */
  function SiteTerm(g: Grid, a: int, b: int, H: int, mu: int): int {
    LinkTerm(g, a, b) + 2 * (mu * H * ValueAt(g, a, b))
  }

  /** Sum over all sites of s * n. */
  function LinkEnergy(g: Grid): int {
    Sum2((a, b) => LinkTerm(g, a, b), |g|, Width(g))
  }

  /** Total energy of wolff.py `calcE`: the sum over all sites of
      (n*s)/2 + mu*H*s, in exact arithmetic. */
  function TotalEnergy(g: Grid, H: int, mu: int): real {
    Sum2((a, b) => SiteTerm(g, a, b, H, mu), |g|, Width(g)) as real / 2.0
  }

  /** wolff.py `calcE`: rows by columns, accumulating each site's
      contribution into E. */
  method CalcE(state: array2<int>, H: int, mu: int) returns (E: real)
    ensures E == TotalEnergy(Cells(state), H, mu)
  {
    ghost var g := Cells(state);
    ghost var f := (a, b) => SiteTerm(g, a, b, H, mu);
    E := 0.0;
    for a := 0 to state.Length0
      invariant E == Sum1(i => RowSum(f, i, Width(g)), a) as real / 2.0
    {
      assert Width(g) == state.Length1;
      ghost var before := Sum1(i => RowSum(f, i, Width(g)), a);
      for b := 0 to state.Length1
        invariant E == (before + Sum1(j => f(a, j), b)) as real / 2.0
      {
        var s := state[a, b];
        var n := NeighbourSumOf(state, a, b);
        SiteTermOf(g, a, b, H, mu, s, n);
        E := E + (n * s) as real / 2.0 + (mu * H * s) as real;
      }
    }
  }

  /** The neighbour sum `calcE` forms from the array, rows wrapping modulo
      `len(state[:, 0])` and columns modulo `len(state[0, :])`. */
  function NeighbourSumOf(state: array2<int>, a: int, b: int): (n: int)
    reads state
    requires 0 <= a < state.Length0 && 0 <= b < state.Length1
    ensures n == NeighbourSum(Cells(state), Coord(a, b))
  {
    var rows, cols := state.Length0, state.Length1;
    var down, up := (a + 1) % rows, (a - 1) % rows;
    var right, left := (b + 1) % cols, (b - 1) % cols;
    NeighbourSumCells(state, a, b);
    state[down, b] + state[up, b] + state[a, right] + state[a, left]
  }

  lemma NeighbourSumCells(state: array2<int>, a: int, b: int)
    requires 0 <= a < state.Length0 && 0 <= b < state.Length1
    ensures NeighbourSum(Cells(state), Coord(a, b))
         == state[(a + 1) % state.Length0, b] + state[(a - 1) % state.Length0, b]
          + state[a, (b + 1) % state.Length1] + state[a, (b - 1) % state.Length1]
  {
    var g := Cells(state);
    var rows, cols := state.Length0, state.Length1;
    var down, up := (a + 1) % rows, (a - 1) % rows;
    var right, left := (b + 1) % cols, (b - 1) % cols;
    assert |g| == rows && Width(g) == cols;
    assert g[down][b] == state[down, b] && g[up][b] == state[up, b];
    assert g[a][right] == state[a, right] && g[a][left] == state[a, left];
  }

  lemma SiteTermOf(g: Grid, a: int, b: int, H: int, mu: int, s: int, n: int)
    requires Rect(g) && 0 <= a < |g| && 0 <= b < Width(g)
    requires g[a][b] == s && NeighbourSum(g, Coord(a, b)) == n
    ensures SiteTerm(g, a, b, H, mu) == n * s + 2 * (mu * H * s)
  {
  }

  /** Integer product, the pairing `calcE` applies to a spin and each neighbour. */
  function Mul(x: int, y: int): int {
    x * y
  }

  /** The sum of s * n over all sites is twice the sum of the products over
      the down and right neighbour pairs, so it is even. */
  lemma LinkEnergyPairs(g: Grid)
    requires Rect(g)
    ensures LinkEnergy(g) == 2 * (Sum2((a, b) => DownPair(g, Mul, a, b), |g|, Width(g))
                                  + Sum2((a, b) => RightPair(g, Mul, a, b), |g|, Width(g)))
  {
    LinkTermSplit(g);
    Sum2Ext((a, b) => LinkTerm(g, a, b), (a, b) => SlotPairs(g, Mul, a, b), |g|, Width(g));
    SlotPairsTwice(g, Mul);
  }

  lemma LinkTermSplit(g: Grid)
    requires Rect(g)
    ensures forall a, b :: 0 <= a < |g| && 0 <= b < Width(g) ==> LinkTerm(g, a, b) == SlotPairs(g, Mul, a, b)
  {
    forall a, b | 0 <= a < |g| && 0 <= b < Width(g)
      ensures LinkTerm(g, a, b) == SlotPairs(g, Mul, a, b)
    {
      LinkTermAt(g, a, b);
    }
  }

  /** s * n is the sum of the four products of s with a neighbour. */
  lemma LinkTermAt(g: Grid, a: int, b: int)
    requires Rect(g) && 0 <= a < |g| && 0 <= b < Width(g)
    ensures LinkTerm(g, a, b) == SlotPairs(g, Mul, a, b)
  {
    var rows, cols := |g|, Width(g);
    var s := g[a][b];
    var x1, x2 := g[(a + 1) % rows][b], g[(a - 1) % rows][b];
    var x3, x4 := g[a][(b + 1) % cols], g[a][(b - 1) % cols];
    assert s * (x1 + x2 + x3 + x4) == (s * x1 + s * x2) + (s * x3 + s * x4);
  }

  /** `calcE` is half the sum of s * n plus mu * H times the magnetisation. */
  lemma EnergyDecomposition(g: Grid, H: int, mu: int)
    requires Rect(g)
    ensures TotalEnergy(g, H, mu) == LinkEnergy(g) as real / 2.0 + (mu * H * Magnetisation(g)) as real
  {
    var rows, cols := |g|, Width(g);
    var v := (a, b) => ValueAt(g, a, b);
    var field := (a, b) => mu * H * ValueAt(g, a, b);
    var twice := (a, b) => 2 * (mu * H * ValueAt(g, a, b));
    Sum2Scale(v, field, mu * H, rows, cols);
    Sum2Scale(field, twice, 2, rows, cols);
    Sum2Add((a, b) => LinkTerm(g, a, b), twice, (a, b) => SiteTerm(g, a, b, H, mu), rows, cols);
  }

  /** With H = 0, `calcE` is the sum over all sites of s * n / 2, and that
      sum is a whole number. */
  lemma CalcEFieldFree(g: Grid, mu: int)
    requires Rect(g)
    ensures LinkEnergy(g) % 2 == 0
    ensures TotalEnergy(g, 0, mu) == (LinkEnergy(g) / 2) as real
  {
    EnergyDecomposition(g, 0, mu);
    LinkEnergyPairs(g);
  }

  /** Negating the spin s at p changes the sum of s * n by -4 * s * n(p):
      the four neighbour pairs through p change sign, and the sum meets each
      of them from both ends. On a side of 1 the site is its own neighbour
      and this fails, so the side is at least 2. */
  lemma LinkEnergyFlip(g: Grid, p: Coord)
    requires Square(g) && |g| >= 2 && InGrid(g, p)
    ensures LinkEnergy(Flip(g, p)) == LinkEnergy(g) - 4 * (At(g, p) * NeighbourSum(g, p))
  {
    var n := |g|;
    var s := At(g, p);
    var xd, xu := g[(p.row + 1) % n][p.col], g[(p.row - 1) % n][p.col];
    var xr, xl := g[p.row][(p.col + 1) % n], g[p.row][(p.col - 1) % n];
    LinkEnergyFlipTerms(g, p);
    assert NeighbourSum(g, p) == xd + xu + xr + xl;
    Distribute(s, xd, xu, xr, xl);
  }

  lemma Distribute(s: int, a: int, b: int, c: int, d: int)
    ensures 4 * (s * (a + b + c + d)) == 4 * (s * a) + 4 * (b * s) + 4 * (s * c) + 4 * (d * s)
  {
  }

  /** The four pair products through p, each met twice, change sign. */
  lemma LinkEnergyFlipTerms(g: Grid, p: Coord)
    requires Square(g) && |g| >= 2 && InGrid(g, p)
    ensures var n, s := |g|, At(g, p);
      LinkEnergy(Flip(g, p)) == LinkEnergy(g)
        - 4 * (s * g[(p.row + 1) % n][p.col]) - 4 * (g[(p.row - 1) % n][p.col] * s)
        - 4 * (s * g[p.row][(p.col + 1) % n]) - 4 * (g[p.row][(p.col - 1) % n] * s)
  {
    LinkEnergyPairs(g);
    LinkEnergyPairs(Flip(g, p));
    DownPairsFlip(g, p);
    RightPairsFlip(g, p);
  }

  /** Flipping p changes the down-pair products sum in its two pairs only. */
  lemma DownPairsFlip(g: Grid, p: Coord)
    requires Square(g) && |g| >= 2 && InGrid(g, p)
    ensures Sum2((a, b) => DownPair(Flip(g, p), Mul, a, b), |g|, |g|)
         == Sum2((a, b) => DownPair(g, Mul, a, b), |g|, |g|)
            - 2 * (At(g, p) * g[(p.row + 1) % |g|][p.col]) - 2 * (g[(p.row - 1) % |g|][p.col] * At(g, p))
  {
    var n := |g|;
    var t := Flip(g, p);
    var u := Pred(p.row, n);
    var f := (a, b) => DownPair(g, Mul, a, b);
    var h := (a, b) => DownPair(t, Mul, a, b);
    var mid := (a, b) => if a == p.row && b == p.col then h(a, b) else f(a, b);
    Sum2Point(f, mid, n, n, p.row, p.col);
    forall i, j | 0 <= i < n && 0 <= j < n && (i != u || j != p.col)
      ensures mid(i, j) == h(i, j)
    {
      if i != p.row || j != p.col {
        DownPairFlipAt(g, p, i, j);
      }
    }
    Sum2Point(mid, h, n, n, u, p.col);
    DownPairFlipEnds(g, p);
  }

  lemma DownPairFlipAt(g: Grid, p: Coord, a: int, b: int)
    requires Square(g) && |g| >= 2 && InGrid(g, p) && 0 <= a < |g| && 0 <= b < |g|
    requires (a != p.row || b != p.col) && (a != Pred(p.row, |g|) || b != p.col)
    ensures DownPair(Flip(g, p), Mul, a, b) == DownPair(g, Mul, a, b)
  {
    SuccMod(a, |g|);
  }

  lemma DownPairFlipEnds(g: Grid, p: Coord)
    requires Square(g) && |g| >= 2 && InGrid(g, p)
    ensures var n, u, s := |g|, Pred(p.row, |g|), At(g, p);
      && u != p.row
      && DownPair(g, Mul, p.row, p.col) == s * g[(p.row + 1) % n][p.col]
      && DownPair(Flip(g, p), Mul, p.row, p.col) == -(s * g[(p.row + 1) % n][p.col])
      && DownPair(g, Mul, u, p.col) == g[(p.row - 1) % n][p.col] * s
      && DownPair(Flip(g, p), Mul, u, p.col) == -(g[(p.row - 1) % n][p.col] * s)
  {
    var n := |g|;
    SuccMod(p.row, n);
    PredMod(p.row, n);
    SuccMod(Pred(p.row, n), n);
  }

  /** Flipping p changes the right-pair products sum in its two pairs only. */
  lemma RightPairsFlip(g: Grid, p: Coord)
    requires Square(g) && |g| >= 2 && InGrid(g, p)
    ensures Sum2((a, b) => RightPair(Flip(g, p), Mul, a, b), |g|, |g|)
         == Sum2((a, b) => RightPair(g, Mul, a, b), |g|, |g|)
            - 2 * (At(g, p) * g[p.row][(p.col + 1) % |g|]) - 2 * (g[p.row][(p.col - 1) % |g|] * At(g, p))
  {
    var n := |g|;
    var t := Flip(g, p);
    var u := Pred(p.col, n);
    var f := (a, b) => RightPair(g, Mul, a, b);
    var h := (a, b) => RightPair(t, Mul, a, b);
    var mid := (a, b) => if a == p.row && b == p.col then h(a, b) else f(a, b);
    Sum2Point(f, mid, n, n, p.row, p.col);
    forall i, j | 0 <= i < n && 0 <= j < n && (i != p.row || j != u)
      ensures mid(i, j) == h(i, j)
    {
      if i != p.row || j != p.col {
        RightPairFlipAt(g, p, i, j);
      }
    }
    Sum2Point(mid, h, n, n, p.row, u);
    RightPairFlipEnds(g, p);
  }

  lemma RightPairFlipAt(g: Grid, p: Coord, a: int, b: int)
    requires Square(g) && |g| >= 2 && InGrid(g, p) && 0 <= a < |g| && 0 <= b < |g|
    requires (a != p.row || b != p.col) && (a != p.row || b != Pred(p.col, |g|))
    ensures RightPair(Flip(g, p), Mul, a, b) == RightPair(g, Mul, a, b)
  {
    SuccMod(b, |g|);
  }

  lemma RightPairFlipEnds(g: Grid, p: Coord)
    requires Square(g) && |g| >= 2 && InGrid(g, p)
    ensures var n, u, s := |g|, Pred(p.col, |g|), At(g, p);
      && u != p.col
      && RightPair(g, Mul, p.row, p.col) == s * g[p.row][(p.col + 1) % n]
      && RightPair(Flip(g, p), Mul, p.row, p.col) == -(s * g[p.row][(p.col + 1) % n])
      && RightPair(g, Mul, p.row, u) == g[p.row][(p.col - 1) % n] * s
      && RightPair(Flip(g, p), Mul, p.row, u) == -(g[p.row][(p.col - 1) % n] * s)
  {
    var n := |g|;
    SuccMod(p.col, n);
    PredMod(p.col, n);
    SuccMod(Pred(p.col, n), n);
  }
}
