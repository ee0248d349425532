/** Polarised initial grids and like-spin link counts (contour.py).

    `init_pol` writes +1 then -1 into the row-major index grid by two masked
    assignments against the threshold N^2 * 0.5 * (m + 1); `count_links`
    counts the (site, neighbour slot) pairs with equal values and halves the
    count. The threshold is computed in exact arithmetic. */
module Contour {
  import opened Sums
  import opened Lattice
  import Wolff

  /** The threshold N^2 * 0.5 * (m + 1) both passes of `init_pol` compare with. */
  function Threshold(n: nat, m: real): real {
    (n * n) as real * 0.5 * (m + 1.0)
  }

  /** `np.arange(N**2).reshape(N, N)`: each cell holds its row-major index. */
  function Arange(n: nat): (g: Grid)
    ensures |g| == n && Square(g)
    ensures forall i, j :: 0 <= i < n && 0 <= j < n ==> g[i][j] == i * n + j
  {
    seq(n, i => seq(n, j => i * n + j))
  }

  /** Masked assignment `a[a < T] = v`. */
  function SetBelow(g: Grid, T: real, v: int): (h: Grid)
    requires Rect(g)
    ensures |h| == |g| && Rect(h) && Width(h) == Width(g)
    ensures forall i, j :: 0 <= i < |g| && 0 <= j < Width(g) ==>
      h[i][j] == if (g[i][j] as real) < T then v else g[i][j]
  {
    seq(|g|, i requires 0 <= i < |g| =>
      seq(Width(g), j requires 0 <= j < Width(g) => if (g[i][j] as real) < T then v else g[i][j]))
  }

  /** Masked assignment `a[a >= T] = v`. */
  function SetAtLeast(g: Grid, T: real, v: int): (h: Grid)
    requires Rect(g)
    ensures |h| == |g| && Rect(h) && Width(h) == Width(g)
    ensures forall i, j :: 0 <= i < |g| && 0 <= j < Width(g) ==>
      h[i][j] == if (g[i][j] as real) >= T then v else g[i][j]
  {
    seq(|g|, i requires 0 <= i < |g| =>
      seq(Width(g), j requires 0 <= j < Width(g) => if (g[i][j] as real) >= T then v else g[i][j]))
  }

  /** contour.py `init_pol` as written: the second pass also tests the cells
      the first pass has just set to 1. Cell k = i*N + j is +1 exactly when
      T > 1 and k < T, and -1 otherwise: with 0 < T <= 1 the cells below T
      are first set to 1 and then, since 1 >= T, back to -1. */
  function InitPol(n: nat, m: real): (g: Grid)
    ensures |g| == n && Square(g) && SpinGrid(g)
    ensures forall i, j :: 0 <= i < n && 0 <= j < n ==>
      g[i][j] == if Threshold(n, m) > 1.0 && ((i * n + j) as real) < Threshold(n, m) then 1 else -1
  {
    var T := Threshold(n, m);
    var a := Arange(n);
    var g := SetAtLeast(SetBelow(a, T, 1), T, -1);
    assert forall i, j :: 0 <= i < n && 0 <= j < n ==> a[i][j] == i * n + j;
    g
  }

  /** The single-pass grid evidently intended: cell k is +1 exactly when
      k < T. */
  function InitPolIntended(n: nat, m: real): (g: Grid)
    ensures |g| == n && Square(g) && SpinGrid(g)
  {
    var T := Threshold(n, m);
    seq(n, i => seq(n, j => if ((i * n + j) as real) < T then 1 else -1))
  }

  /** For T > 1 the two passes give the intended grid. */
  lemma InitPolAgrees(n: nat, m: real)
    requires Threshold(n, m) > 1.0
    ensures InitPol(n, m) == InitPolIntended(n, m)
  {
    GridExt(InitPol(n, m), InitPolIntended(n, m));
  }

  /** N = 2, m = -0.5 gives T = 1: the intended grid has its first cell +1,
      the grid as written has none. */
  lemma InitPolLosesFirstCell()
    ensures Threshold(2, -0.5) == 1.0
    ensures InitPolIntended(2, -0.5)[0][0] == 1
    ensures InitPol(2, -0.5)[0][0] == -1
  {
  }

  /** For a whole threshold t with 0 <= t <= N^2 the intended grid has
      exactly t cells of +1, so its mean spin is 2t/N^2 - 1 = m. */
  lemma InitPolIntendedUpCount(n: nat, m: real, t: nat)
    requires Threshold(n, m) == t as real && t <= n * n
    ensures UpCount(InitPolIntended(n, m)) == t
  {
    var g := InitPolIntended(n, m);
    var up := (i, j) => UpAt(g, i, j);
    forall i | 0 <= i < n
      ensures RowSum(up, i, n) == Clamp(t - i * n, n)
    {
      RowUps(g, i, n, t, n);
    }
    Sum1Ext(i => RowSum(up, i, n), i => Clamp(t - i * n, n), n);
    RowsUps(n, t, n);
  }

  /** x cut to the range [0, c]. */
  function Clamp(x: int, c: nat): (r: nat)
    ensures r <= c
  {
    if x < 0 then 0 else if x > c then c else x
  }

  /** The first c cells of row i hold min(c, max(0, t - i*N)) cells of +1. */
  lemma {:induction false} RowUps(g: Grid, i: nat, n: nat, t: nat, c: nat)
    requires i < n && c <= n && |g| == n && Square(g)
    requires forall j :: 0 <= j < n ==> g[i][j] == if i * n + j < t then 1 else -1
    ensures RowSum((a, b) => UpAt(g, a, b), i, c) == Clamp(t - i * n, c)
    decreases c
  {
    if c > 0 {
      RowUps(g, i, n, t, c - 1);
    }
  }

  /** The first r rows hold min(t, r*N) cells of +1. */
  lemma {:induction false} RowsUps(n: nat, t: nat, r: nat)
    ensures Sum1(i => Clamp(t - i * n, n), r) == if t < r * n then t else r * n
    decreases r
  {
    if r > 0 {
      RowsUps(n, t, r - 1);
      MulStep(r, n);
    }
  }

  /** 1 when the two values are equal, else 0. */
  function Same(x: int, y: int): int {
    if x == y then 1 else 0
  }

  /** Number of the first `upto` neighbourhood slots of p that hold the same
      value as p. */
  function LikeSlots(g: Grid, p: Coord, upto: nat): (c: int)
    requires Square(g) && InGrid(g, p) && upto <= 4
    ensures 0 <= c <= upto
  {
    if upto == 0 then 0
    else LikeSlots(g, p, upto - 1) + Same(At(g, p), At(g, PosNeighbourhood(|g|, p)[upto - 1]))
  }

  /** Like-valued neighbour slots of site (i, j) (0 off the grid). */
  function LikeTerm(g: Grid, i: int, j: int): int {
    if Square(g) && 0 <= i < |g| && 0 <= j < |g| then LikeSlots(g, Coord(i, j), 4) else 0
  }

  /** The raw count of `count_links`: like-valued (site, slot) pairs, at
      most four per site. */
  function LikePairs(g: Grid): (c: int)
    ensures 0 <= c <= 4 * (|g| * Width(g))
  {
    var like := (i, j) => LikeTerm(g, i, j);
    Sum2Bounds(like, |g|, Width(g), 0, 4);
    Sum2(like, |g|, Width(g))
  }

  /** The innermost loop of `count_links` at site (i, j): its like-valued
      neighbour slots, added to count. */
  method CountSite(state: array2<int>, i: int, j: int, count0: int) returns (count: int)
    requires state.Length0 == state.Length1
    requires 0 <= i < state.Length0 && 0 <= j < state.Length0
    ensures count == count0 + LikeTerm(Cells(state), i, j)
  {
    ghost var g := Cells(state);
    var n := state.Length0;
    var p := Coord(i, j);
    var nbs := PosNeighbourhood(n, p);
    count := count0;
    for l := 0 to 4
      invariant count == count0 + LikeSlots(g, p, l)
    {
      var q := nbs[l];
      if state[i, j] == state[q.row, q.col] {
        count := count + 1;
      }
    }
  }

  /** The like-valued slots of the first c sites of row i. */
  function RowLikes(g: Grid, i: int, c: nat): int {
    RowSum((a, b) => LikeTerm(g, a, b), i, c)
  }

  /** The middle loop of `count_links` over row i. */
  method CountRow(state: array2<int>, i: int, count0: int) returns (count: int)
    requires state.Length0 == state.Length1 && 0 <= i < state.Length0
    ensures count == count0 + RowLikes(Cells(state), i, state.Length0)
  {
    var n := state.Length0;
    count := count0;
    for j := 0 to n
      invariant count == count0 + RowLikes(Cells(state), i, j)
    {
      count := CountSite(state, i, j, count);
    }
  }

  /** contour.py `count_links`: half the number of like-valued (site,
      neighbour slot) pairs. */
  method CountLinks(state: array2<int>) returns (links: real)
    requires state.Length0 == state.Length1
    ensures links == LikePairs(Cells(state)) as real / 2.0
  {
    ghost var g := Cells(state);
    var n := state.Length0;
    var count := 0;
    for i := 0 to n
      invariant count == Sum1(r => RowLikes(g, r, Width(g)), i)
    {
      assert Width(g) == n;
      count := CountRow(state, i, count);
    }
    Sum1Ext(r => RowLikes(g, r, Width(g)), r => RowSum((a, b) => LikeTerm(g, a, b), r, Width(g)), n);
    links := count as real / 2.0;
  }

  /** The raw count is even, since equality is symmetric and each neighbour
      pair of the torus is met from both ends, and it lies in [0, 4N^2]: the
      result of `count_links` is a whole number in [0, 2N^2]. */
  lemma LinksEven(g: Grid)
    requires Square(g)
    ensures LikePairs(g) % 2 == 0
    ensures 0 <= LikePairs(g) <= 4 * (|g| * |g|)
  {
    LinksPairs(g);
    var half := Sum2((a, b) => DownPair(g, Same, a, b), |g|, |g|)
              + Sum2((a, b) => RightPair(g, Same, a, b), |g|, |g|);
    Twice(half);
  }

  lemma Twice(x: int)
    ensures (2 * x) % 2 == 0
  {
  }

  /** The raw count is twice the number of like-valued down and right pairs. */
  lemma LinksPairs(g: Grid)
    requires Square(g)
    ensures LikePairs(g) == 2 * (Sum2((a, b) => DownPair(g, Same, a, b), |g|, |g|)
                                 + Sum2((a, b) => RightPair(g, Same, a, b), |g|, |g|))
  {
    LikeTermSplit(g);
    Sum2Ext((i, j) => LikeTerm(g, i, j), (i, j) => SlotPairs(g, Same, i, j), |g|, |g|);
    SlotPairsTwice(g, Same);
  }

  /** At each site the like-valued slots are the Same pairs of the four
      neighbour slots. */
  lemma LikeTermSplit(g: Grid)
    requires Square(g)
    ensures forall i, j :: 0 <= i < |g| && 0 <= j < |g| ==> LikeTerm(g, i, j) == SlotPairs(g, Same, i, j)
  {
    forall i, j | 0 <= i < |g| && 0 <= j < |g|
      ensures LikeTerm(g, i, j) == SlotPairs(g, Same, i, j)
    {
      LikeSlotsAt(g, i, j);
    }
  }

  lemma LikeSlotsAt(g: Grid, i: int, j: int)
    requires Square(g) && 0 <= i < |g| && 0 <= j < |g|
    ensures LikeSlots(g, Coord(i, j), 4) == SlotPairs(g, Same, i, j)
  {
    var n := |g|;
    var p := Coord(i, j);
    var nb := PosNeighbourhood(n, p);
    var s := g[i][j];
    assert LikeSlots(g, p, 1) == Same(s, At(g, nb[0]));
    assert LikeSlots(g, p, 2) == LikeSlots(g, p, 1) + Same(s, At(g, nb[1]));
    assert LikeSlots(g, p, 3) == LikeSlots(g, p, 2) + Same(s, At(g, nb[2]));
    assert LikeSlots(g, p, 4) == LikeSlots(g, p, 3) + Same(s, At(g, nb[3]));
  }

  /** On a uniform grid every slot matches, so `count_links` is 2N^2. */
  lemma LinksUniform(g: Grid, v: int)
    requires Square(g) && Uniform(g, v)
    ensures LikePairs(g) == 4 * (|g| * |g|)
  {
    var n := |g|;
    forall i, j | 0 <= i < n && 0 <= j < n
      ensures LikeTerm(g, i, j) == 4
    {
      UniformSite(g, v, i, j);
    }
    Sum2Bounds((i, j) => LikeTerm(g, i, j), n, n, 4, 4);
  }

  lemma UniformSite(g: Grid, v: int, i: int, j: int)
    requires Square(g) && Uniform(g, v) && 0 <= i < |g| && 0 <= j < |g|
    ensures LikeTerm(g, i, j) == 4
  {
    var n := |g|;
    LikeSlotsAt(g, i, j);
    assert g[i][j] == v && g[(i + 1) % n][j] == v && g[(i - 1) % n][j] == v;
    assert g[i][(j + 1) % n] == v && g[i][(j - 1) % n] == v;
  }

  /** With H = 0 the energy of wolff.py `calcE` is 2 * count_links - 2N^2. */
  lemma CalcEFromLinks(g: Grid, mu: int)
    requires Square(g) && SpinGrid(g)
    ensures Wolff.TotalEnergy(g, 0, mu) == (2 * (LikePairs(g) / 2) - 2 * (|g| * |g|)) as real
  {
    LinkEnergyFromLikes(g);
    Wolff.CalcEFieldFree(g, mu);
    LinksEven(g);
  }

  /** The sign of `calcE`: the fully aligned grid, the ground state of the
      Metropolis energy, has `calcE` value 2N^2 (8 for N = 2). */
  lemma AlignedEnergy(n: nat, mu: int)
    ensures Wolff.TotalEnergy(Filled(n, 1), 0, mu) == (2 * (n * n)) as real
  {
    var g := Filled(n, 1);
    CalcEFromLinks(g, mu);
    LinksUniform(g, 1);
  }

  /** With H = 0 no spin grid has a larger `calcE` than the aligned one:
      `calcE` is the negative of the energy the Metropolis rules lower. */
  lemma AlignedEnergyLargest(g: Grid, mu: int)
    requires Square(g) && SpinGrid(g)
    ensures Wolff.TotalEnergy(g, 0, mu) <= Wolff.TotalEnergy(Filled(|g|, 1), 0, mu)
  {
    CalcEFromLinks(g, mu);
    LinksEven(g);
    AlignedEnergy(|g|, mu);
  }

  /** On spins a neighbour product is 2 * Same - 1, so the sum of s * n is
      twice the raw like count minus 4N^2. */
  lemma LinkEnergyFromLikes(g: Grid)
    requires Square(g) && SpinGrid(g)
    ensures Wolff.LinkEnergy(g) == 2 * LikePairs(g) - 4 * (|g| * |g|)
  {
    var n := |g|;
    var like := (i, j) => LikeTerm(g, i, j);
    var twice := (i, j) => 2 * LikeTerm(g, i, j);
    var minusFour := (i: int, j: int) => -4;
    forall i, j | 0 <= i < n && 0 <= j < n
      ensures Wolff.LinkTerm(g, i, j) == twice(i, j) + minusFour(i, j)
    {
      SiteFromLikes(g, i, j);
    }
    Sum2Add(twice, minusFour, (i, j) => Wolff.LinkTerm(g, i, j), n, n);
    Sum2Scale(like, twice, 2, n, n);
    Sum2Bounds(minusFour, n, n, -4, -4);
    assert Sum2(minusFour, n, n) == -4 * (n * n) by {
      NegFour(n);
    }
    assert Wolff.LinkEnergy(g) == Sum2((i, j) => Wolff.LinkTerm(g, i, j), n, n);
  }

  lemma NegFour(n: int)
    ensures n * (n * -4) == -4 * (n * n)
  {
  }

  lemma SiteFromLikes(g: Grid, i: int, j: int)
    requires Square(g) && SpinGrid(g) && 0 <= i < |g| && 0 <= j < |g|
    ensures Wolff.LinkTerm(g, i, j) == 2 * LikeTerm(g, i, j) - 4
  {
    Wolff.LinkTermAt(g, i, j);
    LikeSlotsAt(g, i, j);
    SpinProducts(g, i, j);
  }

  /** On spins x * y == 2 * Same(x, y) - 1, slot by slot. */
  lemma SpinProducts(g: Grid, i: int, j: int)
    requires Square(g) && SpinGrid(g) && 0 <= i < |g| && 0 <= j < |g|
    ensures SlotPairs(g, Wolff.Mul, i, j) == 2 * SlotPairs(g, Same, i, j) - 4
  {
    var n := |g|;
    assert IsSpin(g[i][j]);
    assert IsSpin(g[(i + 1) % n][j]) && IsSpin(g[(i - 1) % n][j]);
    assert IsSpin(g[i][(j + 1) % n]) && IsSpin(g[i][(j - 1) % n]);
  }
}
