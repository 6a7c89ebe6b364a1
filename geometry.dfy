/** Block geometry: which cells of the d x d matrix are reserved for parity,
    the row-major linear index `i * d + j` of a cell, and the row-major lists
    of cells that the fill, write and read loops visit. */
module Geometry {
  import opened Bits

  /** The source's power-of-two test `(n & (n - 1)) == 0`. For n == 0 the C
      expression is `0 & -1`, which is 0, so 0 passes the test too. */
  predicate Pow2OrZero(n: nat)
  {
    n == 0 || And(n, n - 1) == 0
  }

  function Log2(n: nat): nat
  {
    if n <= 1 then 0 else 1 + Log2(n / 2)
  }

  /** The dimensions the command line accepts: 2 <= d <= 256 and
      `(d & (d - 1)) == 0`. */
  predicate ValidDimension(d: nat)
  {
    2 <= d <= 256 && Pow2OrZero(d)
  }

  /** A cell is reserved (extended parity bit at [0][0], Hamming parity bits
      elsewhere) when it lies in row 0 at a column passing the test, or in
      column 0 at a row passing the test. */
  predicate IsReserved(i: nat, j: nat)
  {
    (i == 0 && Pow2OrZero(j)) || (j == 0 && Pow2OrZero(i))
  }

  /** The cell with row-major linear index k is reserved. */
  predicate IsReservedCell(d: nat, k: nat)
  {
    d > 0 && IsReserved(k / d, k % d)
  }

  /** The cell with row-major linear index k carries data. */
  predicate IsDataCell(d: nat, k: nat)
  {
    d > 0 && !IsReserved(k / d, k % d)
  }

  // ---------------------------------------------------------------------------
  // The power-of-two test

  lemma {:induction false} AndSelf(m: nat)
    ensures And(m, m) == m
    decreases m
  {
    if m != 0 {
      AndSelf(m / 2);
    }
  }

  lemma {:induction false} Log2OfPow2(k: nat)
    ensures Log2(Pow2(k)) == k
  {
    if k > 0 {
      Log2OfPow2(k - 1);
      assert Pow2(k) / 2 == Pow2(k - 1);
    }
  }

  /** `(n & (n - 1)) == 0` holds exactly for 0 and the powers of two. */
  lemma {:induction false} Pow2OrZeroIff(n: nat)
    ensures Pow2OrZero(n) <==> n == 0 || n == Pow2(Log2(n))
    decreases n
  {
    if n <= 1 {
    } else if n % 2 == 0 {
      var m := n / 2;
      assert (n - 1) / 2 == m - 1 && (n - 1) % 2 == 1;
      assert And(n, n - 1) == 2 * And(m, m - 1);
      Pow2OrZeroIff(m);
    } else {
      var m := n / 2;
      assert (n - 1) / 2 == m && (n - 1) % 2 == 0;
      assert And(n, n - 1) == 2 * And(m, m);
      AndSelf(m);
      assert Pow2(Log2(n)) == 2 * Pow2(Log2(m));
    }
  }

  lemma Pow2Passes(k: nat)
    ensures Pow2OrZero(Pow2(k))
  {
    Log2OfPow2(k);
    Pow2OrZeroIff(Pow2(k));
  }

  /** 2^a < 2^b exactly when a < b. */
  lemma Pow2Order(a: nat, b: nat)
    ensures a < b <==> Pow2(a) < Pow2(b)
  {
    Pow2Monotone(a, b);
    Pow2Monotone(b, a);
  }

  lemma Pow2Table()
    ensures Pow2(8) == 256 && Pow2(16) == 0x10000
  {
    assert Pow2(2) == 4;
    assert Pow2(4) == 16 by { assert Pow2(3) == 8; }
    assert Pow2(6) == 64 by { assert Pow2(5) == 32; }
    assert Pow2(8) == 256 by { assert Pow2(7) == 128; }
    Pow2Add(8, 8);
  }

  /** No number strictly between 2^n and 2^(n+1) passes the test. */
  lemma NoneBetween(n: nat, k: nat)
    requires Pow2(n) < k < Pow2(n + 1)
    ensures !Pow2OrZero(k)
  {
    Pow2OrZeroIff(k);
    var m := Log2(k);
    Pow2Order(n, m);
    Pow2Order(m, n + 1);
  }

  /** A valid dimension is 2^L with 1 <= L <= 8. */
  lemma DimensionLog(d: nat)
    requires ValidDimension(d)
    ensures 1 <= Log2(d) <= 8 && d == Pow2(Log2(d))
  {
    Pow2OrZeroIff(d);
    Pow2Table();
    Pow2Order(8, Log2(d));
    Pow2Order(0, Log2(d));
  }

  lemma SquarePow2(l: nat)
    requires l <= 8
    ensures Pow2(l) * Pow2(l) == Pow2(2 * l) <= 0x10000
  {
    Pow2Add(l, l);
    assert l + l == 2 * l;
    Pow2Table();
    Pow2Order(16, 2 * l);
  }

  /** A valid dimension is 2^L with 1 <= L <= 8, so a block has at most
      65536 cells. */
  lemma DimensionFacts(d: nat)
    requires ValidDimension(d)
    ensures 1 <= Log2(d) <= 8
    ensures d == Pow2(Log2(d))
    ensures d * d == Pow2(2 * Log2(d))
    ensures d * d <= 0x10000
  {
    DimensionLog(d);
    SquarePow2(Log2(d));
  }

  // ---------------------------------------------------------------------------
  // Linear indices

  lemma MulMonotone(a: int, b: int, c: nat)
    requires a <= b
    ensures a * c <= b * c
  {
  }

  /** `i * d + j` is the unique row-major index of [i][j]. */
  lemma DivModUnique(d: nat, i: nat, j: nat, k: int)
    requires j < d && k == i * d + j
    ensures k / d == i && k % d == j
  {
    var q, r := k / d, k % d;
    assert d * q + r == d * i + j;
    if q > i {
      MulMonotone(i + 1, q, d);
      assert false;
    }
    if q < i {
      MulMonotone(q + 1, i, d);
      assert false;
    }
  }

  /** The row-major linear index of cell [i][j]. */
  function Lin(d: nat, i: nat, j: nat): (k: nat)
    requires i < d && j < d
    ensures k < d * d
  {
    MulMonotone(i, d - 1, d);
    i * d + j
  }

  /** Row i ends where row i + 1 starts, inside the block. */
  lemma RowEnd(d: nat, i: nat)
    requires i < d
    ensures i * d + d == (i + 1) * d <= d * d
  {
    MulMonotone(i + 1, d, d);
  }

  /** Cell [i][j] is recovered from its linear index by `/` and `%`. */
  lemma LinSplit(d: nat, i: nat, j: nat)
    requires i < d && j < d
    ensures Lin(d, i, j) / d == i && Lin(d, i, j) % d == j
  {
    DivModUnique(d, i, j, i * d + j);
  }

  /** Every linear index below d * d is that of a cell. */
  lemma Split(d: nat, k: nat)
    requires d > 0 && k < d * d
    ensures 0 <= k / d < d && 0 <= k % d < d && Lin(d, k / d, k % d) == k
  {
    if k / d >= d {
      MulMonotone(d, k / d, d);
      assert false;
    }
  }

  /** A row index passing the test, times d = 2^l, passes it too. */
  lemma ColumnZeroPasses(d: nat, l: nat, i: nat)
    requires d == Pow2(l) && i >= 1 && Pow2OrZero(i)
    ensures Pow2OrZero(i * d)
  {
    Pow2OrZeroIff(i);
    Pow2Add(Log2(i), l);
    Pow2Passes(Log2(i) + l);
  }

  /** A number at least d = 2^l passing the test is a multiple of d whose
      quotient passes it. */
  lemma AboveRowZero(d: nat, l: nat, k: nat)
    requires d == Pow2(l) && k >= d && Pow2OrZero(k)
    ensures k / d >= 1 && k % d == 0 && Pow2OrZero(k / d)
  {
    Pow2OrZeroIff(k);
    var m := Log2(k);
    Pow2Order(m, l);
    Pow2Add(m - l, l);
    DivModUnique(d, Pow2(m - l), 0, k);
    Pow2Passes(m - l);
  }

  /** In row 0 the linear index is the column. */
  lemma RowZeroReserved(d: nat, k: nat)
    requires k < d
    ensures IsReservedCell(d, k) <==> Pow2OrZero(k)
  {
    DivModUnique(d, 0, k, k);
  }

  /** Below row 0 a cell is reserved exactly when it is in column 0 at a
      row passing the test, which is when its index passes the test. */
  lemma LowerRowsReserved(d: nat, l: nat, k: nat)
    requires d == Pow2(l) && d <= k
    ensures IsReservedCell(d, k) <==> Pow2OrZero(k)
  {
    var i, j := k / d, k % d;
    assert k == i * d + j;
    if i == 0 {
      assert false;
    }
    if j == 0 && Pow2OrZero(i) {
      ColumnZeroPasses(d, l, i);
    }
    if Pow2OrZero(k) {
      AboveRowZero(d, l, k);
    }
  }

  /** A cell is reserved exactly when its linear index is 0 or a power of
      two: row 0 holds indices 0, 1, 2, 4, ..., d/2 and column 0 holds
      d, 2d, 4d, ..., d*d/2. */
  lemma ReservedIffPow2OrZero(d: nat, k: nat)
    requires ValidDimension(d) && k < d * d
    ensures IsReservedCell(d, k) <==> Pow2OrZero(k)
    ensures IsDataCell(d, k) <==> !Pow2OrZero(k)
  {
    DimensionLog(d);
    if k < d {
      RowZeroReserved(d, k);
    } else {
      LowerRowsReserved(d, Log2(d), k);
    }
  }

  // ---------------------------------------------------------------------------
  // Row-major selections

  /** The numbers below n satisfying p, in ascending order: the order in
      which the source's `for` loops visit the cells they do not skip. */
  function Below(n: nat, p: nat -> bool): (s: seq<nat>)
    ensures |s| <= n
    ensures forall t :: 0 <= t < |s| ==> s[t] < n && p(s[t])
  {
    if n == 0 then [] else Below(n - 1, p) + (if p(n - 1) then [n - 1] else [])
  }

  lemma {:induction false} BelowIncreasing(n: nat, p: nat -> bool)
    ensures forall a, b :: 0 <= a < b < |Below(n, p)| ==> Below(n, p)[a] < Below(n, p)[b]
  {
    if n > 0 {
      BelowIncreasing(n - 1, p);
    }
  }

  lemma {:induction false} BelowPrefix(m: nat, n: nat, p: nat -> bool)
    requires m <= n
    ensures |Below(m, p)| <= |Below(n, p)|
    ensures Below(n, p)[..|Below(m, p)|] == Below(m, p)
    decreases n
  {
    if m < n {
      BelowPrefix(m, n - 1, p);
      var s := Below(n - 1, p);
      assert Below(n, p)[..|s|] == s;
      assert Below(n, p)[..|Below(m, p)|] == s[..|Below(m, p)|];
    }
  }

  /** k itself sits at index |Below(k, p)| of Below(n, p). */
  lemma BelowAt(n: nat, p: nat -> bool, k: nat)
    requires k < n && p(k)
    ensures |Below(k, p)| < |Below(n, p)|
    ensures Below(n, p)[|Below(k, p)|] == k
  {
    BelowPrefix(k + 1, n, p);
    assert Below(k + 1, p) == Below(k, p) + [k];
    assert Below(n, p)[..|Below(k + 1, p)|][|Below(k, p)|] == k;
  }

  /** The t-th selected number has exactly t selected numbers below it. */
  lemma BelowRank(n: nat, p: nat -> bool, t: nat)
    requires t < |Below(n, p)|
    ensures |Below(Below(n, p)[t], p)| == t
  {
    var e := Below(n, p)[t];
    BelowAt(n, p, e);
    BelowIncreasing(n, p);
  }

  lemma {:induction false} BelowSkip(a: nat, b: nat, p: nat -> bool)
    requires a <= b
    requires forall k :: a <= k < b ==> !p(k)
    ensures Below(b, p) == Below(a, p)
    decreases b
  {
    if a < b {
      BelowSkip(a, b - 1, p);
    }
  }

  lemma {:induction false} BelowSame(n: nat, p: nat -> bool, q: nat -> bool)
    requires forall k :: 0 <= k < n ==> p(k) == q(k)
    ensures Below(n, p) == Below(n, q)
  {
    if n > 0 {
      BelowSame(n - 1, p, q);
    }
  }

  lemma {:induction false} BelowSplit(n: nat, p: nat -> bool, q: nat -> bool)
    requires forall k :: 0 <= k < n ==> q(k) == !p(k)
    ensures |Below(n, p)| + |Below(n, q)| == n
  {
    if n > 0 {
      BelowSplit(n - 1, p, q);
    }
  }

  /** 2^0, 2^1, ..., 2^(n-1). */
  function Powers(n: nat): (s: seq<nat>)
    ensures |s| == n
    ensures forall t :: 0 <= t < n ==> s[t] == Pow2(t)
  {
    if n == 0 then [] else Powers(n - 1) + [Pow2(n - 1)]
  }

  /** Between 2^n and 2^(n+1) exactly 2^n passes the test. */
  lemma PassingStep(n: nat)
    ensures Below(Pow2(n + 1), Pow2OrZero) == Below(Pow2(n), Pow2OrZero) + [Pow2(n)]
  {
    var m := Pow2(n);
    assert Pow2(n + 1) == 2 * m;
    forall k | m + 1 <= k < 2 * m ensures !Pow2OrZero(k) {
      NoneBetween(n, k);
    }
    BelowSkip(m + 1, 2 * m, Pow2OrZero);
    Pow2Passes(n);
    assert Below(m + 1, Pow2OrZero) == Below(m, Pow2OrZero) + [m];
  }

  /** Below 2^n the test passes for 0 and the n powers of two. */
  lemma {:induction false} PassingBelowPow2(n: nat)
    ensures Below(Pow2(n), Pow2OrZero) == [0] + Powers(n)
  {
    if n == 0 {
      assert Below(1, Pow2OrZero) == Below(0, Pow2OrZero) + [0];
    } else {
      PassingBelowPow2(n - 1);
      PassingStep(n - 1);
      assert Powers(n) == Powers(n - 1) + [Pow2(n - 1)];
      assert [0] + Powers(n) == [0] + Powers(n - 1) + [Pow2(n - 1)];
    }
  }

  // ---------------------------------------------------------------------------
  // The cells the loops visit

  function DataTest(d: nat): nat -> bool
  {
    (k: nat) => IsDataCell(d, k)
  }

  /** Linear indices of the data cells, in row-major order. */
  function DataCells(d: nat): seq<nat>
  {
    Below(d * d, DataTest(d))
  }

  /** Columns j of row 0 (and rows i of column 0) passing the test, in
      ascending order: 0, 1, 2, 4, ..., d/2. */
  function Axis(d: nat): seq<nat>
  {
    Below(d, Pow2OrZero)
  }

  /** Row 0 and column 0 each hold log2(d) + 1 cells passing the test. */
  lemma AxisList(d: nat)
    requires ValidDimension(d)
    ensures Axis(d) == [0] + Powers(Log2(d))
    ensures |Axis(d)| == Log2(d) + 1
  {
    DimensionFacts(d);
    PassingBelowPow2(Log2(d));
  }

  /** A block has 2 * log2(d) + 1 reserved cells (the extended parity bit
      and 2 * log2(d) Hamming parity bits), and the rest carry data. */
  lemma DataCount(d: nat)
    requires ValidDimension(d)
    ensures |DataCells(d)| == d * d - (2 * Log2(d) + 1)
    ensures |DataCells(d)| >= 1
  {
    DimensionFacts(d);
    var n := d * d;
    forall k | 0 <= k < n ensures DataTest(d)(k) == !Pow2OrZero(k) {
      ReservedIffPow2OrZero(d, k);
    }
    BelowSplit(n, Pow2OrZero, DataTest(d));
    PassingBelowPow2(2 * Log2(d));
    var l := Log2(d);
    assert Pow2(2 * l) >= 4 * l by { Pow2Grows(2 * l); }
  }

  lemma {:induction false} Pow2Grows(n: nat)
    ensures Pow2(n) >= n + 1
    ensures n >= 2 ==> Pow2(n) >= 2 * n
  {
    if n > 0 {
      Pow2Grows(n - 1);
    }
  }

  /** Every power of two below d * d is the index of a reserved cell other
      than [0][0]: in row 0 when below d, in column 0 otherwise. */
  lemma ParityBitCell(d: nat, k: nat)
    requires ValidDimension(d) && Pow2(k) < d * d
    ensures IsReservedCell(d, Pow2(k))
    ensures Pow2(k) / d != 0 || Pow2(k) % d != 0
    ensures Pow2(k) < d ==> Pow2(k) / d == 0
    ensures Pow2(k) >= d ==> Pow2(k) % d == 0
  {
    Pow2Passes(k);
    ReservedIffPow2OrZero(d, Pow2(k));
    DimensionFacts(d);
    if Pow2(k) < d {
      DivModUnique(d, 0, Pow2(k), Pow2(k));
    } else {
      AboveRowZero(d, Log2(d), Pow2(k));
    }
  }
}
