/** Shared vocabulary: bytes, optional values, fixed-width unsigned wrap-around,
    powers of two and C's truncating division. */
module Base {

  /** One `u8`. */
  type byte = x: int | 0 <= x < 256

  datatype Option<T> = None | Some(value: T)

  const U32_LIMIT: int := 0x1_0000_0000
  const U64_LIMIT: int := 0x1_0000_0000_0000_0000
  const I64_LIMIT: int := 0x8000_0000_0000_0000

  predicate IsU32(x: int) { 0 <= x < U32_LIMIT }

  predicate IsU64(x: int) { 0 <= x < U64_LIMIT }

  /** The value a `u32` holds after an assignment of `x` (modular wrap-around). */
  function WrapU32(x: int): (r: int)
    ensures IsU32(r)
    ensures IsU32(x) ==> r == x
  {
    x % U32_LIMIT
  }

  /** `ISPOWEROF2`: n is 2^p for some p >= 0. */
  predicate IsPowerOfTwo(n: int)
    decreases if n > 0 then n else 0
  {
    n == 1 || (n > 1 && n % 2 == 0 && IsPowerOfTwo(n / 2))
  }

  function Pow2(p: nat): (r: nat)
    ensures r > p
  {
    if p == 0 then 1 else 2 * Pow2(p - 1)
  }

  lemma {:induction false} Pow2IsPowerOfTwo(p: nat)
    ensures IsPowerOfTwo(Pow2(p))
  {
    if p > 0 {
      Pow2IsPowerOfTwo(p - 1);
      assert Pow2(p) / 2 == Pow2(p - 1);
    }
  }

  /** Doubling a power of two below another power of two n does not overshoot n. */
  lemma {:induction false} PowerOfTwoDoubling(k: int, n: int)
    requires IsPowerOfTwo(k) && IsPowerOfTwo(n) && k < n
    ensures IsPowerOfTwo(2 * k) && 2 * k <= n
    decreases n
  {
    assert (2 * k) / 2 == k;
    if k > 1 {
      PowerOfTwoDoubling(k / 2, n / 2);
    }
  }

  /** No power of two is a multiple of 3, so no size is both a power of two and a multiple of 12. */
  lemma {:induction false} PowerOfTwoNotMultipleOfThree(n: int)
    ensures IsPowerOfTwo(n) ==> n >= 1 && n % 3 != 0
    decreases if n > 0 then n else 0
  {
    if n > 1 {
      PowerOfTwoNotMultipleOfThree(n / 2);
    }
  }

  /** Dividing a multiple of m by m is exact: the quotient can only be q itself. */
  lemma MulDivExact(q: int, m: int)
    requires m > 0
    ensures (q * m) / m == q && (q * m) % m == 0
  {
    var d := (q * m) / m;
    var r := (q * m) % m;
    assert q * m == d * m + r && 0 <= r < m;
    var t := q - d;
    assert r == t * m;
    assert t >= 1 ==> t * m >= m;
    assert t <= -1 ==> t * m < 0;
    assert t == 0;
  }

  /** Division with remainder is unique: q * m + r with 0 <= r < m has quotient q and
      remainder r. */
  lemma QuotientForm(q: int, m: int, r: int)
    requires m > 0 && 0 <= r < m
    ensures (q * m + r) / m == q && (q * m + r) % m == r
  {
    var x := q * m + r;
    var d := x / m;
    var t := q - d;
    assert x == d * m + x % m;
    assert t * m == q * m - d * m;
    assert t * m == x % m - r;
    assert t >= 1 ==> t * m >= m;
    assert t <= -1 ==> t * m <= -m;
    assert t == 0;
  }

  /** C's `/` on signed integers: the quotient truncated toward zero. */
  function TruncDiv(a: int, b: int): (q: int)
    requires b != 0
    ensures a >= 0 && b > 0 ==> q == a / b
    ensures (a >= 0) == (b > 0) ==> q >= 0
  {
    if (a >= 0) == (b > 0) then (if a >= 0 then a / b else (-a) / (-b))
    else -((if a >= 0 then a else -a) / (if b > 0 then b else -b))
  }

  /** C's float-to-integer conversion: truncation toward zero. */
  function Truncate(x: real): (r: int)
    ensures x >= 0.0 ==> r as real <= x < r as real + 1.0
    ensures x < 0.0 ==> r as real - 1.0 < x <= r as real
  {
    if x >= 0.0 then x.Floor else -((-x).Floor)
  }
}
