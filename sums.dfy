/** Finite sums over index ranges, used to count and to total per-site
    quantities over a lattice (magnetisation, like-spin links, energy). */
module Sums {

  /** Sum of f(0) + ... + f(n - 1). */
  function Sum1(f: int -> int, n: nat): int
    decreases n
  {
    if n == 0 then 0 else Sum1(f, n - 1) + f(n - 1)
  }

  /** Sum of f(i, j) over 0 <= i < rows, 0 <= j < cols, row by row. */
  function Sum2(f: (int, int) -> int, rows: nat, cols: nat): int
  {
    Sum1(i => RowSum(f, i, cols), rows)
  }

  /** Sum of row i: f(i, 0) + ... + f(i, cols - 1). */
  function RowSum(f: (int, int) -> int, i: int, cols: nat): int
  {
    Sum1(j => f(i, j), cols)
  }

  lemma {:induction false} Sum1Ext(f: int -> int, h: int -> int, n: nat)
    requires forall i :: 0 <= i < n ==> f(i) == h(i)
    ensures Sum1(f, n) == Sum1(h, n)
    decreases n
  {
    if n > 0 {
      Sum1Ext(f, h, n - 1);
    }
  }

  /** Changing one term changes the sum by exactly the difference of that term. */
  lemma {:induction false} Sum1Point(f: int -> int, h: int -> int, n: nat, k: int)
    requires 0 <= k < n
    requires forall i :: 0 <= i < n && i != k ==> f(i) == h(i)
    ensures Sum1(h, n) == Sum1(f, n) - f(k) + h(k)
    decreases n
  {
    if k == n - 1 {
      Sum1Ext(f, h, n - 1);
    } else {
      Sum1Point(f, h, n - 1, k);
    }
  }

  lemma {:induction false} Sum1Add(f: int -> int, h: int -> int, fh: int -> int, n: nat)
    requires forall i :: 0 <= i < n ==> fh(i) == f(i) + h(i)
    ensures Sum1(fh, n) == Sum1(f, n) + Sum1(h, n)
    decreases n
  {
    if n > 0 {
      Sum1Add(f, h, fh, n - 1);
    }
  }

  lemma {:induction false} Sum1Bounds(f: int -> int, n: nat, lo: int, hi: int)
    requires forall i :: 0 <= i < n ==> lo <= f(i) <= hi
    ensures n * lo <= Sum1(f, n) <= n * hi
    decreases n
  {
    if n > 0 {
      Sum1Bounds(f, n - 1, lo, hi);
    }
  }

  /** Peeling the first term off a sum. */
  lemma {:induction false} Sum1Front(f: int -> int, n: nat)
    requires n > 0
    ensures Sum1(f, n) == f(0) + Sum1(i => f(i + 1), n - 1)
    decreases n
  {
    if n > 1 {
      Sum1Front(f, n - 1);
    }
  }

  /** A sum over a cyclic index range is invariant under a shift by one. */
  lemma Sum1Shift(f: int -> int, n: nat)
    requires n > 0
    ensures Sum1(i => f((i + 1) % n), n) == Sum1(f, n)
  {
    var g := i => f((i + 1) % n);
    ModBelow(0, n);
    ModSelf(n);
    assert g(n - 1) == f(0);
    forall i | 0 <= i < n - 1
      ensures g(i) == f(i + 1)
    {
      ModBelow(i + 1, n);
    }
    Sum1Ext(g, i => f(i + 1), n - 1);
    Sum1Front(f, n);
  }

  lemma ModBelow(x: int, n: int)
    requires 0 <= x < n
    ensures x % n == x
  {
  }

  lemma ModSelf(n: int)
    requires n > 0
    ensures n % n == 0
  {
  }

  lemma Sum2Ext(f: (int, int) -> int, h: (int, int) -> int, rows: nat, cols: nat)
    requires forall i, j :: 0 <= i < rows && 0 <= j < cols ==> f(i, j) == h(i, j)
    ensures Sum2(f, rows, cols) == Sum2(h, rows, cols)
  {
    forall i | 0 <= i < rows
      ensures RowSum(f, i, cols) == RowSum(h, i, cols)
    {
      Sum1Ext(j => f(i, j), j => h(i, j), cols);
    }
    Sum1Ext(i => RowSum(f, i, cols), i => RowSum(h, i, cols), rows);
  }

  lemma Sum2Point(f: (int, int) -> int, h: (int, int) -> int, rows: nat, cols: nat, r: int, c: int)
    requires 0 <= r < rows && 0 <= c < cols
    requires forall i, j :: 0 <= i < rows && 0 <= j < cols && (i != r || j != c) ==> f(i, j) == h(i, j)
    ensures Sum2(h, rows, cols) == Sum2(f, rows, cols) - f(r, c) + h(r, c)
  {
    forall i | 0 <= i < rows && i != r
      ensures RowSum(f, i, cols) == RowSum(h, i, cols)
    {
      Sum1Ext(j => f(i, j), j => h(i, j), cols);
    }
    Sum1Point(j => f(r, j), j => h(r, j), cols, c);
    Sum1Point(i => RowSum(f, i, cols), i => RowSum(h, i, cols), rows, r);
  }

  lemma Sum2Add(f: (int, int) -> int, h: (int, int) -> int, fh: (int, int) -> int, rows: nat, cols: nat)
    requires forall i, j :: 0 <= i < rows && 0 <= j < cols ==> fh(i, j) == f(i, j) + h(i, j)
    ensures Sum2(fh, rows, cols) == Sum2(f, rows, cols) + Sum2(h, rows, cols)
  {
    forall i | 0 <= i < rows
      ensures RowSum(fh, i, cols) == RowSum(f, i, cols) + RowSum(h, i, cols)
    {
      Sum1Add(j => f(i, j), j => h(i, j), j => fh(i, j), cols);
    }
    Sum1Add(i => RowSum(f, i, cols), i => RowSum(h, i, cols), i => RowSum(fh, i, cols), rows);
  }

  lemma Sum2Bounds(f: (int, int) -> int, rows: nat, cols: nat, lo: int, hi: int)
    requires forall i, j :: 0 <= i < rows && 0 <= j < cols ==> lo <= f(i, j) <= hi
    ensures rows * (cols * lo) <= Sum2(f, rows, cols) <= rows * (cols * hi)
  {
    var rlo, rhi := cols * lo, cols * hi;
    forall i | 0 <= i < rows
      ensures rlo <= RowSum(f, i, cols) <= rhi
    {
      Sum1Bounds(j => f(i, j), cols, lo, hi);
    }
    Sum1Bounds(i => RowSum(f, i, cols), rows, rlo, rhi);
  }

  /** Shifting the row index cyclically by one leaves a lattice sum unchanged. */
  lemma Sum2ShiftRows(f: (int, int) -> int, rows: nat, cols: nat)
    requires rows > 0
    ensures Sum2((i, j) => f((i + 1) % rows, j), rows, cols) == Sum2(f, rows, cols)
  {
    var g := (i, j) => f((i + 1) % rows, j);
    var rf := i => RowSum(f, i, cols);
    forall i | 0 <= i < rows
      ensures RowSum(g, i, cols) == rf((i + 1) % rows)
    {
      Sum1Ext(j => g(i, j), j => f((i + 1) % rows, j), cols);
    }
    Sum1Ext(i => RowSum(g, i, cols), i => rf((i + 1) % rows), rows);
    Sum1Shift(rf, rows);
  }

  /** Shifting the column index cyclically by one leaves a lattice sum unchanged. */
  lemma Sum2ShiftCols(f: (int, int) -> int, rows: nat, cols: nat)
    requires cols > 0
    ensures Sum2((i, j) => f(i, (j + 1) % cols), rows, cols) == Sum2(f, rows, cols)
  {
    var g := (i, j) => f(i, (j + 1) % cols);
    forall i | 0 <= i < rows
      ensures RowSum(g, i, cols) == RowSum(f, i, cols)
    {
      var fi := j => f(i, j);
      Sum1Ext(j => g(i, j), j => fi((j + 1) % cols), cols);
      Sum1Shift(fi, cols);
      Sum1Ext(fi, j => f(i, j), cols);
    }
    Sum1Ext(i => RowSum(g, i, cols), i => RowSum(f, i, cols), rows);
  }

  /** A constant factor comes out of a sum. */
  lemma {:induction false} Sum1Scale(f: int -> int, cf: int -> int, c: int, n: nat)
    requires forall i :: 0 <= i < n ==> cf(i) == c * f(i)
    ensures Sum1(cf, n) == c * Sum1(f, n)
    decreases n
  {
    if n > 0 {
      Sum1Scale(f, cf, c, n - 1);
      assert c * Sum1(f, n) == c * Sum1(f, n - 1) + c * f(n - 1);
    }
  }

  lemma Sum2Scale(f: (int, int) -> int, cf: (int, int) -> int, c: int, rows: nat, cols: nat)
    requires forall i, j :: 0 <= i < rows && 0 <= j < cols ==> cf(i, j) == c * f(i, j)
    ensures Sum2(cf, rows, cols) == c * Sum2(f, rows, cols)
  {
    forall i | 0 <= i < rows
      ensures RowSum(cf, i, cols) == c * RowSum(f, i, cols)
    {
      Sum1Scale(j => f(i, j), j => cf(i, j), c, cols);
    }
    Sum1Scale(i => RowSum(f, i, cols), i => RowSum(cf, i, cols), c, rows);
  }

  /** Products kept out of larger proofs: one more row of b cells, and
      monotonicity in the first factor. */
  lemma MulStep(a: int, b: int)
    ensures (a - 1) * b + b == a * b
  {
  }

  lemma MulMono(a: int, b: int, c: nat)
    requires a <= b
    ensures a * c <= b * c
  {
  }
}
