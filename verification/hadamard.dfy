/** The decode-matrix generator's mathematics: the hard-coded 12x12 base matrix, the
    Sylvester sign pattern, and the entry every supported output position must hold. */
module Hadamard {
  import opened Base

  /** `hadamard_12_12_transpose`, one sequence per row of the flat row-major table. */
  const H12: seq<seq<int>> := [
    [ 1,  1,  1,  1,  1,  1,  1,  1,  1,  1,  1,  1],
    [ 1, -1, -1,  1, -1, -1, -1,  1,  1,  1, -1,  1],
    [ 1,  1, -1, -1,  1, -1, -1, -1,  1,  1,  1, -1],
    [ 1, -1,  1, -1, -1,  1, -1, -1, -1,  1,  1,  1],
    [ 1,  1, -1,  1, -1, -1,  1, -1, -1, -1,  1,  1],
    [ 1,  1,  1, -1,  1, -1, -1,  1, -1, -1, -1,  1],
    [ 1,  1,  1,  1, -1,  1, -1, -1,  1, -1, -1, -1],
    [ 1, -1,  1,  1,  1, -1,  1, -1, -1,  1, -1, -1],
    [ 1, -1, -1,  1,  1,  1, -1,  1, -1, -1,  1, -1],
    [ 1, -1, -1, -1,  1,  1,  1, -1,  1, -1, -1,  1],
    [ 1,  1, -1, -1, -1,  1,  1,  1, -1,  1, -1, -1],
    [ 1, -1,  1, -1, -1, -1,  1,  1,  1, -1,  1, -1]
  ]

  /** A 12 x 12 matrix given as 12 rows of 12 entries. */
  predicate IsBase(b: seq<seq<int>>)
  {
    |b| == 12 && forall r | 0 <= r < 12 :: |b[r]| == 12
  }

  /** sum_{c < k} b[r][c] * b[s][c] */
  function BaseDot(b: seq<seq<int>>, r: nat, s: nat, k: nat): int
    requires IsBase(b) && r < 12 && s < 12 && k <= 12
  {
    if k == 0 then 0 else BaseDot(b, r, s, k - 1) + b[r][k - 1] * b[s][k - 1]
  }

  /** Rows pairwise orthogonal, each of squared norm 12: b * b^T = 12 I. */
  predicate OrthogonalBase(b: seq<seq<int>>)
    requires IsBase(b)
  {
    forall r, s | 0 <= r < 12 && 0 <= s < 12 :: BaseDot(b, r, s, 12) == if r == s then 12 else 0
  }

  predicate SignEntries(b: seq<seq<int>>)
    requires IsBase(b)
  {
    forall r, c | 0 <= r < 12 && 0 <= c < 12 :: b[r][c] == 1 || b[r][c] == -1
  }

  /** Dot product of two length-12 rows, written out term by term. */
  function Dot12(u: seq<int>, v: seq<int>): int
    requires |u| == 12 && |v| == 12
  {
    u[0] * v[0] + u[1] * v[1] + u[2] * v[2] + u[3] * v[3] + u[4] * v[4] + u[5] * v[5] +
    u[6] * v[6] + u[7] * v[7] + u[8] * v[8] + u[9] * v[9] + u[10] * v[10] + u[11] * v[11]
  }

  lemma BaseDotIsDot12(b: seq<seq<int>>, r: nat, s: nat)
    requires IsBase(b) && r < 12 && s < 12
    ensures BaseDot(b, r, s, 12) == Dot12(b[r], b[s])
  {
    var u, v := b[r], b[s];
    assert BaseDot(b, r, s, 1) == u[0] * v[0];
    assert BaseDot(b, r, s, 2) == u[0] * v[0] + u[1] * v[1];
    assert BaseDot(b, r, s, 3) == BaseDot(b, r, s, 2) + u[2] * v[2];
    assert BaseDot(b, r, s, 4) == BaseDot(b, r, s, 3) + u[3] * v[3];
    assert BaseDot(b, r, s, 5) == BaseDot(b, r, s, 4) + u[4] * v[4];
    assert BaseDot(b, r, s, 6) == BaseDot(b, r, s, 5) + u[5] * v[5];
    assert BaseDot(b, r, s, 7) == BaseDot(b, r, s, 6) + u[6] * v[6];
    assert BaseDot(b, r, s, 8) == BaseDot(b, r, s, 7) + u[7] * v[7];
    assert BaseDot(b, r, s, 9) == BaseDot(b, r, s, 8) + u[8] * v[8];
    assert BaseDot(b, r, s, 10) == BaseDot(b, r, s, 9) + u[9] * v[9];
    assert BaseDot(b, r, s, 11) == BaseDot(b, r, s, 10) + u[10] * v[10];
  }

  lemma H12RowsDot(r: nat, s: nat)
    requires r < 12 && s < 12
    ensures |H12| == 12 && |H12[r]| == 12 && |H12[s]| == 12
    ensures Dot12(H12[r], H12[s]) == if r == s then 12 else 0
  {
    if r <= s {
      H12OrderedRowsDot(r, s);
    } else {
      H12OrderedRowsDot(s, r);
    }
  }

  /** The 78 pairs of rows r <= s, checked entry by entry. */
  lemma H12OrderedRowsDot(r: nat, s: nat)
    requires r <= s < 12
    ensures |H12| == 12 && |H12[r]| == 12 && |H12[s]| == 12
    ensures Dot12(H12[r], H12[s]) == if r == s then 12 else 0
  {
  }

  lemma H12Signs(r: nat, c: nat)
    requires r < 12 && c < 12
    ensures |H12| == 12 && |H12[r]| == 12 && |H12[0]| == 12
    ensures H12[r][c] == 1 || H12[r][c] == -1
    ensures H12[0][c] == 1 && H12[r][0] == 1
  {
  }

  /** The hard-coded table is a 12x12 Hadamard matrix: +1/-1 entries, orthogonal rows, and
      (normalised) all-ones first row and first column. */
  lemma H12IsHadamard()
    ensures IsBase(H12) && SignEntries(H12) && OrthogonalBase(H12)
    ensures forall c | 0 <= c < 12 :: H12[0][c] == 1 && H12[c][0] == 1
  {
    forall r, c | 0 <= r < 12 && 0 <= c < 12
      ensures |H12| == 12 && |H12[r]| == 12 && (H12[r][c] == 1 || H12[r][c] == -1)
    {
      H12Signs(r, c);
    }
    forall c | 0 <= c < 12
      ensures H12[0][c] == 1 && H12[c][0] == 1
    {
      H12Signs(c, c);
    }
    forall r, s | 0 <= r < 12 && 0 <= s < 12
      ensures BaseDot(H12, r, s, 12) == if r == s then 12 else 0
    {
      BaseDotIsDot12(H12, r, s);
      H12RowsDot(r, s);
    }
  }

  /** The Sylvester matrix entry at (i, j): (-1) raised to the number of bit positions set
      in both i and j. It does not depend on the matrix size, so the size-n Sylvester matrix
      is its top-left n x n corner. */
  function Sign(i: nat, j: nat): (r: int)
    ensures r == 1 || r == -1
    decreases i
  {
    if i == 0 || j == 0 then 1
    else if i % 2 == 1 && j % 2 == 1 then -Sign(i / 2, j / 2)
    else Sign(i / 2, j / 2)
  }

  lemma {:induction false} SignSymmetric(i: nat, j: nat)
    ensures Sign(i, j) == Sign(j, i)
    decreases i
  {
    if i != 0 && j != 0 {
      SignSymmetric(i / 2, j / 2);
    }
  }

  /** One Sylvester doubling step from size k to 2k: the bottom-left and top-right quadrants
      repeat the top-left one and the bottom-right quadrant negates it. */
  lemma SignDoubling(k: nat, i: nat, j: nat)
    requires IsPowerOfTwo(k) && i < k && j < k
    ensures Sign(i + k, j) == Sign(i, j)
    ensures Sign(i, j + k) == Sign(i, j)
    ensures Sign(i + k, j + k) == -Sign(i, j)
  {
    SignRowDoubling(k, i, j);
    SignRowDoubling(k, j, i);
    SignSymmetric(i, j + k);
    SignSymmetric(j, i);
    SignDiagonalDoubling(k, i, j);
  }

  /** Halving k + i, for k an even power of two and i < k: the half is k / 2 + i / 2 and the
      parity that of i. */
  lemma HalveShifted(k: nat, i: nat)
    requires IsPowerOfTwo(k) && k > 1 && i < k
    ensures IsPowerOfTwo(k / 2) && i / 2 < k / 2
    ensures (i + k) / 2 == i / 2 + k / 2 && (i + k) % 2 == i % 2
  {
    var h := k / 2;
    assert k == 2 * h;
    QuotientForm(i / 2 + h, 2, i % 2);
    assert (i / 2 + h) * 2 + i % 2 == i + k;
  }

  /** Row i + k of the Sylvester pattern repeats row i in the first k columns. */
  lemma {:induction false} SignRowDoubling(k: nat, i: nat, j: nat)
    requires IsPowerOfTwo(k) && i < k && j < k
    ensures Sign(i + k, j) == Sign(i, j)
    decreases k
  {
    hide IsPowerOfTwo;
    if k > 1 && j > 0 {
      HalveShifted(k, i);
      HalveShifted(k, j);
      SignRowDoubling(k / 2, i / 2, j / 2);
    }
  }

  /** Entry (i + k, j + k) of the Sylvester pattern negates entry (i, j). */
  lemma {:induction false} SignDiagonalDoubling(k: nat, i: nat, j: nat)
    requires IsPowerOfTwo(k) && i < k && j < k
    ensures Sign(i + k, j + k) == -Sign(i, j)
    decreases k
  {
    hide IsPowerOfTwo;
    if k > 1 {
      HalveShifted(k, i);
      HalveShifted(k, j);
      SignDiagonalDoubling(k / 2, i / 2, j / 2);
    }
  }

  /** sum_{c < k} Sign(r, c) * Sign(s, c): the dot product of rows r and s, first k columns. */
  function SignDot(r: nat, s: nat, k: nat): int
  {
    if k == 0 then 0 else SignDot(r, s, k - 1) + Sign(r, k - 1) * Sign(s, k - 1)
  }

  /** Row r0 + h of a size-2h Sylvester matrix agrees with row r0 on the left half and
      negates it on the right half. */
  predicate RowPair(h: nat, r0: nat, r: nat)
  {
    r0 < h && (r == r0 || r == r0 + h)
  }

  /** Within the left half of a size-2h Sylvester matrix, rows r0 and r0 + h agree. */
  lemma {:induction false} SignDotLeftHalf(h: nat, r0: nat, s0: nat, r: nat, s: nat, k: nat)
    requires IsPowerOfTwo(h) && RowPair(h, r0, r) && RowPair(h, s0, s) && k <= h
    ensures SignDot(r, s, k) == SignDot(r0, s0, k)
  {
    if k > 0 {
      var c := k - 1;
      SignDotLeftHalf(h, r0, s0, r, s, c);
      SignDoubling(h, r0, c);
      SignDoubling(h, s0, c);
      assert Sign(r, c) == Sign(r0, c) && Sign(s, c) == Sign(s0, c);
    }
  }

  /** In the right half of a size-2h Sylvester matrix, row r0 + h is row r0 negated. */
  lemma {:induction false} SignDotRightHalf(h: nat, r0: nat, s0: nat, r: nat, s: nat, k: nat)
    requires IsPowerOfTwo(h) && RowPair(h, r0, r) && RowPair(h, s0, s) && k <= h
    ensures (r == r0) == (s == s0) ==> SignDot(r, s, h + k) == SignDot(r, s, h) + SignDot(r0, s0, k)
    ensures (r == r0) != (s == s0) ==> SignDot(r, s, h + k) == SignDot(r, s, h) - SignDot(r0, s0, k)
  {
    hide Sign, IsPowerOfTwo;
    if k > 0 {
      var c := k - 1;
      SignDotRightHalf(h, r0, s0, r, s, c);
      RightHalfTerm(h, r0, s0, r, s, c);
      SignedStep(SignDot(r, s, h + c), SignDot(r, s, h + k), SignDot(r, s, h),
                 SignDot(r0, s0, c), SignDot(r0, s0, k),
                 Sign(r, h + c) * Sign(s, h + c), Sign(r0, c) * Sign(s0, c), (r == r0) == (s == s0));
    }
  }

  /** a = b +/- c is kept when a and c each grow by a term and the two terms agree in sign
      exactly when the running sums do. */
  lemma SignedStep(a0: int, a1: int, b: int, c0: int, c1: int, p: int, q: int, same: bool)
    requires a1 == a0 + p && c1 == c0 + q && p == (if same then q else -q)
    requires a0 == if same then b + c0 else b - c0
    ensures a1 == if same then b + c1 else b - c1
  {
  }

  /** Column h + c of rows r and s in a size-2h Sylvester matrix: the product of the entries is
      that of rows r0 and s0 at column c, negated when exactly one of r, s is in the lower half. */
  lemma RightHalfTerm(h: nat, r0: nat, s0: nat, r: nat, s: nat, c: nat)
    requires IsPowerOfTwo(h) && RowPair(h, r0, r) && RowPair(h, s0, s) && c < h
    ensures Sign(r, h + c) * Sign(s, h + c) ==
      if (r == r0) == (s == s0) then Sign(r0, c) * Sign(s0, c) else -(Sign(r0, c) * Sign(s0, c))
  {
    RightHalfSign(h, r0, r, c);
    RightHalfSign(h, s0, s, c);
    Negations(Sign(r0, c), Sign(s0, c));
  }

  /** Row r0 + h of a size-2h Sylvester matrix negates row r0 on the right half. */
  lemma RightHalfSign(h: nat, r0: nat, r: nat, c: nat)
    requires IsPowerOfTwo(h) && RowPair(h, r0, r) && c < h
    ensures Sign(r, h + c) == if r == r0 then Sign(r0, c) else -Sign(r0, c)
  {
    SignDoubling(h, r0, c);
  }

  lemma Negations(x: int, y: int)
    ensures x * -y == -(x * y) && -x * y == -(x * y) && -x * -y == x * y
  {
  }

  /** Distinct rows of the n x n Sylvester matrix are orthogonal and every row has norm n. */
  lemma {:induction false} SylvesterOrthogonal(n: nat, r: nat, s: nat)
    requires IsPowerOfTwo(n) && r < n && s < n
    ensures SignDot(r, s, n) == if r == s then n else 0
    decreases n
  {
    if n == 1 {
      assert SignDot(r, s, 1) == Sign(0, 0) * Sign(0, 0);
    } else {
      var h := n / 2;
      var r0 := if r < h then r else r - h;
      var s0 := if s < h then s else s - h;
      SignDotLeftHalf(h, r0, s0, r, s, h);
      SignDotRightHalf(h, r0, s0, r, s, h);
      SylvesterOrthogonal(h, r0, s0);
      assert h + h == n;
    }
  }
  /** Entry (i, j) of the Kronecker product of the Sylvester matrix with a 12x12 base b:
      block (i / 12, j / 12) is Sign(i / 12, j / 12) times b. */
  function KronEntry(b: seq<seq<int>>, i: nat, j: nat): int
    requires IsBase(b)
  {
    Sign(i / 12, j / 12) * b[i % 12][j % 12]
  }

  /** sum_{c < k} KronEntry(b, r, c) * KronEntry(b, s, c) */
  function KronDot(b: seq<seq<int>>, r: nat, s: nat, k: nat): int
    requires IsBase(b)
  {
    if k == 0 then 0 else KronDot(b, r, s, k - 1) + KronEntry(b, r, k - 1) * KronEntry(b, s, k - 1)
  }

  /** One column term of a row dot product: rows 12 rb + rr and 12 sb + ss at column 12 m + l. */
  lemma {:induction false} KronColumnTerm(b: seq<seq<int>>, rb: nat, rr: nat, sb: nat, ss: nat, m: nat, l: nat)
    requires IsBase(b) && rr < 12 && ss < 12 && l < 12
    ensures KronEntry(b, 12 * rb + rr, 12 * m + l) * KronEntry(b, 12 * sb + ss, 12 * m + l) ==
      if Sign(rb, m) == Sign(sb, m) then b[rr][l] * b[ss][l] else -(b[rr][l] * b[ss][l])
  {
    QuotientForm(rb, 12, rr);
    QuotientForm(sb, 12, ss);
    QuotientForm(m, 12, l);
    SignedProducts(Sign(rb, m), Sign(sb, m), b[rr][l], b[ss][l]);
  }

  /** Sign factors x and y multiply out of a product of two terms. */
  lemma SignedProducts(x: int, y: int, u: int, v: int)
    requires (x == 1 || x == -1) && (y == 1 || y == -1)
    ensures (x * u) * (y * v) == if x == y then u * v else -(u * v)
  {
  }

  /** Summing column block m one column at a time. */
  lemma {:induction false} KronBlockDot(b: seq<seq<int>>, rb: nat, rr: nat, sb: nat, ss: nat, m: nat, l: nat)
    requires IsBase(b) && rr < 12 && ss < 12 && l <= 12
    ensures KronDot(b, 12 * rb + rr, 12 * sb + ss, 12 * m + l) ==
      KronDot(b, 12 * rb + rr, 12 * sb + ss, 12 * m) +
      (if Sign(rb, m) == Sign(sb, m) then BaseDot(b, rr, ss, l) else -BaseDot(b, rr, ss, l))
  {
    hide KronEntry, Sign;
    if l > 0 {
      var r, s, c := 12 * rb + rr, 12 * sb + ss, 12 * m + (l - 1);
      assert 12 * m + l == c + 1;
      KronBlockDot(b, rb, rr, sb, ss, m, l - 1);
      KronColumnTerm(b, rb, rr, sb, ss, m, l - 1);
      assert KronDot(b, r, s, c + 1) == KronDot(b, r, s, c) + KronEntry(b, r, c) * KronEntry(b, s, c);
      assert BaseDot(b, rr, ss, l) == BaseDot(b, rr, ss, l - 1) + b[rr][l - 1] * b[ss][l - 1];
    }
  }

  lemma SignProduct(x: int, y: int)
    requires (x == 1 || x == -1) && (y == 1 || y == -1)
    ensures x * y == if x == y then 1 else -1
  {
  }

  /** Rows of the Kronecker product: different rows of the base give orthogonal rows, and
      otherwise the dot product is 12 times the Sylvester dot product of the row bands. */
  lemma {:induction false} KronDotBlocks(b: seq<seq<int>>, rb: nat, rr: nat, sb: nat, ss: nat, m: nat)
    requires IsBase(b) && OrthogonalBase(b) && rr < 12 && ss < 12
    ensures KronDot(b, 12 * rb + rr, 12 * sb + ss, 12 * m) == if rr == ss then 12 * SignDot(rb, sb, m) else 0
  {
    if m > 0 {
      hide KronDot, KronEntry, BaseDot, Sign;
      assert 12 * (m - 1) + 12 == 12 * m;
      KronDotBlocks(b, rb, rr, sb, ss, m - 1);
      KronBlockDot(b, rb, rr, sb, ss, m - 1, 12);
      SignProduct(Sign(rb, m - 1), Sign(sb, m - 1));
      assert SignDot(rb, sb, m) == SignDot(rb, sb, m - 1) + Sign(rb, m - 1) * Sign(sb, m - 1);
    }
  }

  /** The sizes the generator accepts (util.c:578-582): a power of two or a multiple of 12. */
  predicate Supported(dim: int)
  {
    IsPowerOfTwo(dim) || (dim > 0 && dim % 12 == 0)
  }

  /** The sizes it constructs correctly: 2^p, or 12 * 2^p. */
  predicate Constructible(dim: int)
  {
    IsPowerOfTwo(dim) || (dim % 12 == 0 && IsPowerOfTwo(dim / 12))
  }

  /** Entry (i, j) of the generated dim x dim matrix: the Sylvester sign for a power of two,
      otherwise the Kronecker product of the size dim/12 Sylvester matrix with the 12x12 table. */
  function Entry(dim: nat, i: nat, j: nat): (e: int)
    requires Constructible(dim) && i < dim && j < dim
    ensures e == 1 || e == -1
  {
    H12IsHadamard();
    if IsPowerOfTwo(dim) then Sign(i, j) else KronEntry(H12, i, j)
  }

  /** sum_{c < k} Entry(dim, r, c) * Entry(dim, s, c) */
  function EntryDot(dim: nat, r: nat, s: nat, k: nat): int
    requires Constructible(dim) && r < dim && s < dim && k <= dim
  {
    if k == 0 then 0 else EntryDot(dim, r, s, k - 1) + Entry(dim, r, k - 1) * Entry(dim, s, k - 1)
  }

  lemma {:induction false} PowerOfTwoEntryDot(dim: nat, r: nat, s: nat, k: nat)
    requires IsPowerOfTwo(dim) && r < dim && s < dim && k <= dim
    ensures EntryDot(dim, r, s, k) == SignDot(r, s, k)
  {
    if k > 0 {
      PowerOfTwoEntryDot(dim, r, s, k - 1);
    }
  }

  lemma {:induction false} KroneckerEntryDot(dim: nat, r: nat, s: nat, k: nat)
    requires Constructible(dim) && !IsPowerOfTwo(dim) && r < dim && s < dim && k <= dim
    ensures IsBase(H12) && EntryDot(dim, r, s, k) == KronDot(H12, r, s, k)
  {
    hide KronEntry, Sign, IsPowerOfTwo, OrthogonalBase, SignEntries;
    H12IsHadamard();
    if k > 0 {
      KroneckerEntryDot(dim, r, s, k - 1);
    }
  }

  /** Block (bi, bj) of a 12 * 2^p output is Sign(bi, bj) times the 12x12 table. */
  lemma {:induction false} KroneckerBlock(dim: nat, bi: nat, bj: nat, r: nat, c: nat)
    requires dim % 12 == 0 && IsPowerOfTwo(dim / 12)
    requires bi < dim / 12 && bj < dim / 12 && r < 12 && c < 12
    ensures 12 * bi + r < dim && 12 * bj + c < dim && |H12| == 12 && |H12[r]| == 12
    ensures Entry(dim, 12 * bi + r, 12 * bj + c) == Sign(bi, bj) * H12[r][c]
  {
    H12Signs(r, c);
    BlockIndex(dim, bi, r);
    BlockIndex(dim, bj, c);
    assert !IsPowerOfTwo(dim) by {
      QuotientForm(dim / 12, 12, 0);
      QuotientForm(4 * (dim / 12), 3, 0);
      PowerOfTwoNotMultipleOfThree(dim);
    }
    assert Entry(dim, 12 * bi + r, 12 * bj + c) == KronEntry(H12, 12 * bi + r, 12 * bj + c);
  }

  /** Index r of block band q in a size-dim output lies inside it, with band q and offset r. */
  lemma BlockIndex(dim: nat, q: nat, r: nat)
    requires dim % 12 == 0 && q < dim / 12 && r < 12
    ensures 12 * q + r < dim && (12 * q + r) / 12 == q && (12 * q + r) % 12 == r
  {
    QuotientForm(q, 12, r);
    QuotientForm(dim / 12, 12, 0);
    assert 12 * q + r < 12 * (q + 1) <= 12 * (dim / 12);
  }

  /** The generated matrix is orthogonal: M * M^T = dim * I for every constructible size. */
  lemma {:induction false} HadamardOrthogonal(dim: nat, r: nat, s: nat)
    requires Constructible(dim) && r < dim && s < dim
    ensures EntryDot(dim, r, s, dim) == if r == s then dim else 0
  {
    if IsPowerOfTwo(dim) {
      PowerOfTwoEntryDot(dim, r, s, dim);
      SylvesterOrthogonal(dim, r, s);
    } else {
      KroneckerOrthogonal(dim, r, s);
    }
  }

  /** The 12 * 2^p case: rows in different positions of their bands are orthogonal through the
      table, rows in the same position through the Sylvester bands. */
  lemma KroneckerOrthogonal(dim: nat, r: nat, s: nat)
    requires dim % 12 == 0 && IsPowerOfTwo(dim / 12) && !IsPowerOfTwo(dim) && r < dim && s < dim
    ensures Constructible(dim) && EntryDot(dim, r, s, dim) == if r == s then dim else 0
  {
    hide EntryDot, KronDot, SignDot, Entry, KronEntry;
    H12IsHadamard();
    var a := dim / 12;
    var rb, rr, sb, ss := r / 12, r % 12, s / 12, s % 12;
    BandOf(dim, r);
    BandOf(dim, s);
    KroneckerEntryDot(dim, r, s, dim);
    KronDotBlocks(H12, rb, rr, sb, ss, a);
    SylvesterOrthogonal(a, rb, sb);
  }

  /** Index i of a size-dim output, dim a multiple of 12, is offset i % 12 of band i / 12. */
  lemma BandOf(dim: nat, i: nat)
    requires dim % 12 == 0 && i < dim
    ensures i == 12 * (i / 12) + i % 12 && i % 12 < 12 && i / 12 < dim / 12 && dim == 12 * (dim / 12)
  {
    QuotientForm(dim / 12, 12, 0);
    assert 12 * (i / 12) <= i < 12 * (dim / 12);
  }
}
