/** `fill_hadamard_transpose` and the Kronecker helpers it calls (util.c:544-610), as loops
    over two-dimensional arrays. The caller's flat row-major `out` buffer is a sequence; the
    matrix position (i, j) is `out[i * dim + j]`. */
module HadamardFill {
  import opened Base
  import opened Hadamard

  /** Entry (a, b) of m holds its Sylvester sign. */
  predicate Signed(m: array2<int>, a: nat, b: nat)
    reads m
    requires a < m.Length0 && b < m.Length1
  {
    m[a, b] == Sign(a, b)
  }

  /** The top-left k x k corner of m holds the Sylvester signs. */
  predicate SignedCorner(m: array2<int>, k: nat)
    reads m
    requires k <= m.Length0 && k <= m.Length1
  {
    forall a, b | 0 <= a < k && 0 <= b < k :: Signed(m, a, b)
  }

  /** Entry (a, b) of m is copied down by k and right by k, and negated into the corner. */
  predicate Doubled(m: array2<int>, k: nat, a: nat, b: nat)
    reads m
    requires a + k < m.Length0 && b + k < m.Length1
  {
    m[a + k, b] == m[a, b] && m[a, b + k] == m[a, b] && m[a + k, b + k] == -m[a, b]
  }

  /** The body of the innermost doubling loop (util.c:598-601) for one (i, j) with i, j < k.
      Only the three entries it writes change. */
  method DoubleEntry(m: array2<int>, n: nat, k: nat, i: nat, j: nat)
    requires 2 * k <= n && i < k && j < k && m.Length0 == n && m.Length1 == n
    modifies m
    ensures Doubled(m, k, i, j) && m[i, j] == old(m[i, j])
    ensures forall a, b | 0 <= a < n && 0 <= b < n && !(a == i + k && (b == j || b == j + k)) && !(a == i && b == j + k) ::
      m[a, b] == old(m[a, b])
  {
    var val := m[i, j];
    m[i + k, j] := val;
    m[i, j + k] := val;
    m[i + k, j + k] := -val;
  }

  /** One pass of the middle loop (util.c:597-602): row i of the k x k block is copied into
      row i + k, and shifted right by k into rows i and i + k, negated in row i + k. */
  method DoubleRow(m: array2<int>, n: nat, k: nat, i: nat)
    requires 2 * k <= n && i < k && m.Length0 == n && m.Length1 == n
    modifies m
    ensures forall b | 0 <= b < k :: Doubled(m, k, i, b)
    ensures forall a, b | 0 <= a < n && 0 <= b < n && a != i + k && !(a == i && b >= k) :: m[a, b] == old(m[a, b])
  {
    var j := 0;
    while j < k
      invariant 0 <= j <= k
      invariant forall b | 0 <= b < j :: Doubled(m, k, i, b)
      invariant forall a, b | 0 <= a < n && 0 <= b < n && a != i + k && !(a == i && b >= k) :: m[a, b] == old(m[a, b])
    {
      label before:
      DoubleEntry(m, n, k, i, j);
      forall b | 0 <= b < j
        ensures Doubled(m, k, i, b)
      {
        assert old@before(Doubled(m, k, i, b));
      }
      j := j + 1;
    }
  }

  /** The middle loop (util.c:597-602) for one k: afterwards every entry of the top-left k x k
      block, itself unchanged, is copied down by k and right by k and negated into the corner. */
  method DoubleBlock(m: array2<int>, n: nat, k: nat)
    requires 2 * k <= n && m.Length0 == n && m.Length1 == n
    modifies m
    ensures forall a, b | 0 <= a < k && 0 <= b < k :: m[a, b] == old(m[a, b])
    ensures forall a, b | 0 <= a < k && 0 <= b < k :: Doubled(m, k, a, b)
  {
    var i := 0;
    while i < k
      invariant 0 <= i <= k
      invariant forall a, b | 0 <= a < k && 0 <= b < k :: m[a, b] == old(m[a, b])
      invariant forall a, b | 0 <= a < i && 0 <= b < k :: Doubled(m, k, a, b)
    {
      label before:
      DoubleRow(m, n, k, i);
      forall a, b | 0 <= a < i && 0 <= b < k
        ensures Doubled(m, k, a, b)
      {
        assert old@before(Doubled(m, k, a, b));
      }
      i := i + 1;
    }
  }

  /** A k x k block of Sylvester signs, doubled as `DoubleBlock` does it, is the 2k x 2k block
      of Sylvester signs. */
  lemma DoubledBlockSigned(m: array2<int>, k: nat)
    requires IsPowerOfTwo(k) && 2 * k <= m.Length0 && 2 * k <= m.Length1
    requires SignedCorner(m, k)
    requires forall a, b | 0 <= a < k && 0 <= b < k :: Doubled(m, k, a, b)
    ensures SignedCorner(m, 2 * k)
  {
    hide Sign, IsPowerOfTwo;
    forall a, b | 0 <= a < 2 * k && 0 <= b < 2 * k
      ensures Signed(m, a, b)
    {
      var a0, b0 := if a < k then a else a - k, if b < k then b else b - k;
      assert Doubled(m, k, a0, b0) && Signed(m, a0, b0);
      SignDoubling(k, a0, b0);
    }
  }

  /** Sylvester doubling into an n x n matrix (util.c:593-604): m[0][0] = 1, then for
      k = 1, 2, 4, ... below n the k x k top-left block is copied right and down and negated
      into the bottom-right corner. */
  method SylvesterFill(m: array2<int>, n: nat)
    requires IsPowerOfTwo(n) && m.Length0 == n && m.Length1 == n
    modifies m
    ensures forall i, j | 0 <= i < n && 0 <= j < n :: m[i, j] == Sign(i, j)
  {
    m[0, 0] := 1;
    assert Signed(m, 0, 0);
    var k := 1;
    while k < n
      invariant IsPowerOfTwo(k) && k <= n
      invariant SignedCorner(m, k)
    {
      PowerOfTwoDoubling(k, n);
      label before:
      DoubleBlock(m, n, k);
      forall a, b | 0 <= a < k && 0 <= b < k
        ensures Signed(m, a, b)
      {
        assert old@before(Signed(m, a, b));
      }
      DoubledBlockSigned(m, k);
      k := 2 * k;
    }
    forall i, j | 0 <= i < n && 0 <= j < n
      ensures m[i, j] == Sign(i, j)
    {
      assert Signed(m, i, j);
    }
  }

  /** `fill_kronecker_sub_matrix` (util.c:544-555) for the 12x12 base: row by row, four lanes
      at a time, out[row0 + i][col0 + j] = scale * b[i][j]. */
  method FillKroneckerSubMatrix(out: array2<int>, row0: nat, col0: nat, scale: int, b: seq<seq<int>>)
    requires IsBase(b)
    requires row0 + 12 <= out.Length0 && col0 + 12 <= out.Length1
    modifies out
    ensures forall x, y | row0 <= x < row0 + 12 && col0 <= y < col0 + 12 :: out[x, y] == scale * b[x - row0][y - col0]
    ensures forall x, y | 0 <= x < out.Length0 && 0 <= y < out.Length1 && !(row0 <= x < row0 + 12 && col0 <= y < col0 + 12) ::
      out[x, y] == old(out[x, y])
  {
    var i := 0;
    while i < 12
      invariant 0 <= i <= 12
      invariant forall x, y | row0 <= x < row0 + i && col0 <= y < col0 + 12 :: out[x, y] == scale * b[x - row0][y - col0]
      invariant forall x, y | 0 <= x < out.Length0 && 0 <= y < out.Length1 && !(row0 <= x < row0 + i && col0 <= y < col0 + 12) ::
        out[x, y] == old(out[x, y])
    {
      var x := row0 + i;
      var j := 0;
      while j < 12
        invariant 0 <= j <= 12 && j % 4 == 0
        invariant forall x, y | row0 <= x < row0 + i && col0 <= y < col0 + 12 :: out[x, y] == scale * b[x - row0][y - col0]
        invariant forall y | col0 <= y < col0 + j :: out[x, y] == scale * b[i][y - col0]
        invariant forall x, y | 0 <= x < out.Length0 && 0 <= y < out.Length1 &&
          !(row0 <= x < row0 + i && col0 <= y < col0 + 12) && !(x == row0 + i && col0 <= y < col0 + j) ::
          out[x, y] == old(out[x, y])
      {
        // one four-lane store
        out[x, col0 + j] := scale * b[i][j];
        out[x, col0 + j + 1] := scale * b[i][j + 1];
        out[x, col0 + j + 2] := scale * b[i][j + 2];
        out[x, col0 + j + 3] := scale * b[i][j + 3];
        j := j + 4;
      }
      i := i + 1;
    }
  }

  /** Entry (x, y) of out is entry (x / 12, y / 12) of a times entry (x % 12, y % 12) of b. */
  predicate KronAt(out: array2<int>, a: array2<int>, b: seq<seq<int>>, x: nat, y: nat)
    reads out, a
    requires IsBase(b) && x < out.Length0 && y < out.Length1 && x / 12 < a.Length0 && y / 12 < a.Length1
  {
    out[x, y] == a[x / 12, y / 12] * b[x % 12][y % 12]
  }

  /** `kronecker_product` (util.c:557-571) of an n x n matrix with the 12x12 base b: block
      (bi, bj) of `out` is a[bi][bj] times b. */
  method KroneckerProduct(out: array2<int>, a: array2<int>, n: nat, b: seq<seq<int>>)
    requires IsBase(b) && out != a
    requires a.Length0 == n && a.Length1 == n && out.Length0 == 12 * n && out.Length1 == 12 * n
    modifies out
    ensures forall x, y | 0 <= x < 12 * n && 0 <= y < 12 * n :: out[x, y] == a[x / 12, y / 12] * b[x % 12][y % 12]
  {
    var i := 0;
    while i < n
      invariant 0 <= i <= n
      invariant forall x, y | 0 <= x < 12 * i && 0 <= y < 12 * n :: KronAt(out, a, b, x, y)
    {
      label before:
      FillBlockRow(out, a, n, b, i);
      forall x, y | 0 <= x < 12 * i && 0 <= y < 12 * n
        ensures KronAt(out, a, b, x, y)
      {
        assert old@before(KronAt(out, a, b, x, y));
      }
      i := i + 1;
    }
    forall x, y | 0 <= x < 12 * n && 0 <= y < 12 * n
      ensures out[x, y] == a[x / 12, y / 12] * b[x % 12][y % 12]
    {
      assert KronAt(out, a, b, x, y);
    }
  }

  /** One pass of the outer loop of `kronecker_product`: the blocks of band i, left to right.
      No other row changes. */
  method FillBlockRow(out: array2<int>, a: array2<int>, n: nat, b: seq<seq<int>>, i: nat)
    requires IsBase(b) && out != a && i < n
    requires a.Length0 == n && a.Length1 == n && out.Length0 == 12 * n && out.Length1 == 12 * n
    modifies out
    ensures forall x, y | 12 * i <= x < 12 * i + 12 && 0 <= y < 12 * n :: KronAt(out, a, b, x, y)
    ensures forall x, y | 0 <= x < 12 * n && 0 <= y < 12 * n && !(12 * i <= x < 12 * i + 12) ::
      out[x, y] == old(out[x, y])
  {
    var j := 0;
    while j < n
      invariant 0 <= j <= n
      invariant forall x, y | 12 * i <= x < 12 * i + 12 && 0 <= y < 12 * j :: KronAt(out, a, b, x, y)
      invariant forall x, y | 0 <= x < 12 * n && 0 <= y < 12 * n && !(12 * i <= x < 12 * i + 12) ::
        out[x, y] == old(out[x, y])
    {
      label before:
      FillKroneckerSubMatrix(out, 12 * i, 12 * j, a[i, j], b);
      forall x, y | 12 * i <= x < 12 * i + 12 && 0 <= y < 12 * j
        ensures KronAt(out, a, b, x, y)
      {
        assert old@before(KronAt(out, a, b, x, y));
      }
      forall x, y | 12 * i <= x < 12 * i + 12 && 12 * j <= y < 12 * j + 12
        ensures KronAt(out, a, b, x, y)
      {
        QuotientForm(i, 12, x - 12 * i);
        QuotientForm(j, 12, y - 12 * j);
      }
      j := j + 1;
    }
  }

  /** Position (i, j) of an n x n row-major matrix is inside it. */
  lemma RowMajorIndex(i: nat, j: nat, rows: nat, n: nat)
    requires i < rows && j < n
    ensures i * n + j < rows * n
    ensures (i + 1) * n == i * n + n
  {
    assert i * n + j < i * n + n == (i + 1) * n <= rows * n;
  }

  /** The first n * n positions of `base` replaced by the rows of M. */
  method Flatten(M: array2<int>, n: nat, base: seq<int>) returns (out: seq<int>)
    requires M.Length0 == n && M.Length1 == n && |base| >= n * n
    ensures |out| == |base| && out[n * n..] == base[n * n..]
    ensures forall i, j {:trigger M[i, j]} | 0 <= i < n && 0 <= j < n :: i * n + j < |out| && out[i * n + j] == M[i, j]
  {
    var rows: seq<int> := [];
    var i := 0;
    while i < n
      invariant 0 <= i <= n && |rows| == i * n
      invariant forall a, b | 0 <= a < i && 0 <= b < n :: a * n + b < |rows| && rows[a * n + b] == M[a, b]
    {
      var row := seq(n, j requires 0 <= j < n reads M => M[i, j]);
      RowMajorIndex(i, 0, i + 1, n);
      forall b | 0 <= b < n
        ensures i * n + b < |rows + row| && (rows + row)[i * n + b] == M[i, b]
      {
      }
      rows := rows + row;
      i := i + 1;
    }
    out := rows + base[n * n..];
  }

  /** The dim x dim matrix `fill_hadamard_transpose` builds before it is stored row-major:
      Sylvester's matrix for a power of two, otherwise Sylvester's matrix of size dim / 12
      Kronecker-multiplied with the 12x12 base (util.c:584-609). */
  method BuildMatrix(dim: nat) returns (M: array2<int>)
    requires Constructible(dim) && dim > 0
    ensures M.Length0 == dim && M.Length1 == dim
    ensures forall x, y | 0 <= x < dim && 0 <= y < dim :: M[x, y] == Entry(dim, x, y)
  {
    M := new int[dim, dim];
    if IsPowerOfTwo(dim) {
      SylvesterFill(M, dim);
    } else {
      var n := dim / 12;
      var tmp := new int[n, n];
      SylvesterFill(tmp, n);
      H12IsHadamard();
      KroneckerProduct(M, tmp, n, H12);
      forall x, y | 0 <= x < dim && 0 <= y < dim
        ensures M[x, y] == Entry(dim, x, y)
      {
        assert x / 12 < n && y / 12 < n;
        assert M[x, y] == tmp[x / 12, y / 12] * H12[x % 12][y % 12];
      }
    }
  }

  /** The side of the Sylvester matrix the doubling loop builds (util.c:584-590): dim for a
      power of two, dim / 12 otherwise. */
  function LoopSide(dim: nat): nat
  {
    if IsPowerOfTwo(dim) then dim else dim / 12
  }

  /** The doubling loop's index `IND(i, j) = i * side + j` (util.c:593) is a `u32`. For a side
      of at most 2^16 it never wraps. */
  lemma LoopIndexFits(side: nat, i: nat, j: nat)
    requires side <= 0x1_0000 && i < side && j < side
    ensures WrapU32(i * side + j) == i * side + j
  {
  }

  /** One doubling past that bound wraps: with side 2^17, row 2^15 lands on row 0. */
  lemma LoopIndexWraps()
    ensures var side := 0x2_0000;
            WrapU32(0x8000 * side + 0) == 0 * side + 0
  {
  }

  /** `fill_hadamard_transpose` (util.c:573-610). For an unsupported size `out` comes back
      untouched; otherwise its first dim * dim entries hold the generated matrix row-major.
      The loop side is bounded so that the `u32` index of the doubling loop is exact
      (`LoopIndexFits`, `LoopIndexWraps`). */
  method FillHadamardTranspose(out0: seq<int>, dim: nat) returns (out: seq<int>)
    requires 0 < dim < U32_LIMIT
    requires Supported(dim) ==> LoopSide(dim) <= 0x1_0000
    requires Supported(dim) ==> Constructible(dim)
    requires Supported(dim) ==> |out0| >= dim * dim
    ensures !Supported(dim) ==> out == out0
    ensures Supported(dim) ==> |out| == |out0| && out[dim * dim..] == out0[dim * dim..]
    ensures Supported(dim) ==> HoldsMatrix(out, dim)
  {
    var powerOf2 := IsPowerOfTwo(dim);
    var multipleOf12 := dim % 12 == 0;
    if !powerOf2 && !multipleOf12 {
      return out0;
    }
    out := StoreMatrix(dim, out0);
  }

  /** Row-major storage of the generated matrix: entry (i, j) is at i * dim + j. */
  predicate HoldsMatrix(out: seq<int>, dim: nat)
    requires Constructible(dim)
  {
    forall i, j | 0 <= i < dim && 0 <= j < dim :: i * dim + j < |out| && out[i * dim + j] == Entry(dim, i, j)
  }

  /** The generated dim x dim matrix stored row-major over the first dim * dim entries. */
  method StoreMatrix(dim: nat, out0: seq<int>) returns (out: seq<int>)
    requires Constructible(dim) && dim > 0 && |out0| >= dim * dim
    ensures |out| == |out0| && out[dim * dim..] == out0[dim * dim..]
    ensures HoldsMatrix(out, dim)
  {
    var M := BuildMatrix(dim);
    out := Flatten(M, dim, out0);
    forall i, j | 0 <= i < dim && 0 <= j < dim
      ensures i * dim + j < |out| && out[i * dim + j] == Entry(dim, i, j)
    {
      assert M[i, j] == Entry(dim, i, j);
    }
  }
}
