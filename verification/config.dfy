/**
  Platform constants and the alignment arithmetic of ngx_config.h and ngx_core.h.

  The model fixes an LP64 platform (8-byte words and pointers), the layout every
  structure size in this project assumes. Addresses are natural numbers and 0 is NULL.
 */
module Config {

  /** One byte of memory (u_char). */
  type Byte = b: int | 0 <= b < 256

  /** NGX_ALIGMENT: sizeof(unsigned long), the platform word. */
  const Word: nat := 8

  /** sizeof(void *). */
  const PtrSize: nat := 8

  /** NULL. */
  const Null: nat := 0

  const MaxUint32: nat := 0xffff_ffff
  const Uint64Modulus: nat := 0x1_0000_0000_0000_0000

  /** (size_t) -1, used by the formatter as "length not given". */
  const SizeMax: nat := Uint64Modulus - 1

  /** NGX_INT32_LEN: the length of "-2147483648". */
  const Int32Len: nat := 11

  /** NGX_INT64_LEN: the length of "-9223372036854775808". */
  const Int64Len: nat := 20

  /** NGX_INT_T_LEN on a 64-bit platform. */
  const IntTLen: nat := Int64Len

  /** NGX_OK, NGX_ERROR and NGX_DECLINED. */
  const Ok: int := 0
  const Error: int := -1
  const Declined: int := -5

  /** A value that may be absent. */
  datatype Option<T> = None | Some(value: T)

  /** ngx_min(val1, val2): picks val2 exactly when val1 > val2. */
  function Min(a: int, b: int): (r: int)
    ensures r <= a && r <= b
    ensures r == a || r == b
  {
    if a > b then b else a
  }

  function Max(a: int, b: int): (r: int)
    ensures r >= a && r >= b
    ensures r == a || r == b
  {
    if a >= b then a else b
  }

  /** a is a power of two. */
  predicate IsPow2(a: nat)
    decreases a
  {
    a == 1 || (a >= 2 && a % 2 == 0 && IsPow2(a / 2))
  }

  /** 1 << k. */
  function Pow2(k: nat): (r: nat)
    ensures r >= 1
  {
    if k == 0 then 1 else 2 * Pow2(k - 1)
  }

  lemma {:induction false} Pow2IsPow2(k: nat)
    ensures IsPow2(Pow2(k))
  {
    if k > 0 {
      Pow2IsPow2(k - 1);
      assert Pow2(k) / 2 == Pow2(k - 1);
    }
  }

  lemma {:induction false} Pow2Monotone(j: nat, k: nat)
    requires j <= k
    ensures Pow2(j) <= Pow2(k)
    ensures Pow2(k) % Pow2(j) == 0
    decreases k
  {
    if j < k {
      Pow2Monotone(j, k - 1);
      var q := Pow2(k - 1) / Pow2(j);
      assert Pow2(k - 1) == Pow2(j) * q;
      assert Pow2(k) == Pow2(j) * (2 * q);
      ModOfMultiple(Pow2(j), 2 * q);
    }
  }

  lemma ModOfMultiple(a: nat, q: nat)
    requires a > 0
    ensures (a * q) % a == 0 && (a * q) / a == q
  {
    DivModUnique(a * q, a, q, 0);
  }

  /** A positive multiple of a positive number is at least that number. */
  lemma MulAtLeast(m: int, k: int)
    requires m > 0 && k >= 1
    ensures m * k >= m
  {
    assert m * k == m + m * (k - 1);
    assert m * (k - 1) >= 0;
  }

  /** Division with remainder has exactly one solution. */
  lemma DivModUnique(x: int, m: int, q: int, r: int)
    requires m > 0 && 0 <= r < m && x == m * q + r
    ensures x / m == q && x % m == r
  {
    var q0, r0 := x / m, x % m;
    assert x == m * q0 + r0;
    assert m * q - m * q0 == r0 - r;
    assert m * (q - q0) == r0 - r;
    if q > q0 {
      MulAtLeast(m, q - q0);
    } else if q < q0 {
      MulAtLeast(m, q0 - q);
    }
  }

  /**
    x & ~(a - 1) for a power of two a, bit by bit: the mask keeps every bit at or above
    log2(a) and clears the bits below it.
   */
  function ClearLow(x: nat, a: nat): nat
    requires IsPow2(a)
    decreases a
  {
    if a == 1 then x else 2 * ClearLow(x / 2, a / 2)
  }

  /** Clearing the low bits rounds down to a multiple of a. */
  lemma {:induction false} ClearLowRoundsDown(x: nat, a: nat)
    requires IsPow2(a)
    ensures ClearLow(x, a) == x - x % a
    decreases a
  {
    if a > 1 {
      var b := a / 2;
      var h := x / 2;
      ClearLowRoundsDown(h, b);
      // x = a * (h / b) + (2 * (h % b) + x % 2), with the last term below a
      assert h == b * (h / b) + h % b;
      assert x == 2 * h + x % 2;
      assert x == a * (h / b) + (2 * (h % b) + x % 2);
      DivModUnique(x, a, h / b, 2 * (h % b) + x % 2);
    }
  }

  /** Rounding x down to a multiple of a loses less than a. */
  lemma RoundDownFacts(x: nat, a: nat)
    requires a > 0
    ensures 0 <= x % a < a
    ensures x - x % a >= 0
    ensures (x - x % a) % a == 0
  {
    var q := x / a;
    assert x == a * q + x % a;
    assert x - x % a == a * q;
    ModOfMultiple(a, q);
  }

  /** ngx_align(d, a) and ngx_align_ptr(p, a) (ngx_config.h:65-67) for a power of two a. */
  function Align(d: nat, a: nat): (r: nat)
    requires IsPow2(a)
    ensures d <= r < d + a
    ensures r % a == 0
  {
    AlignFacts(d, a);
    ClearLow(d + (a - 1), a)
  }

  lemma AlignFacts(d: nat, a: nat)
    requires IsPow2(a)
    ensures d <= ClearLow(d + (a - 1), a) < d + a
    ensures ClearLow(d + (a - 1), a) % a == 0
  {
    assert a >= 1;
    ClearLowRoundsDown(d + (a - 1), a);
    RoundDownFacts(d + (a - 1), a);
  }

  /** Two multiples of a that are less than a apart are equal. */
  lemma MultiplesApart(x: nat, y: nat, a: nat)
    requires a > 0 && x % a == 0 && y % a == 0 && y <= x < y + a
    ensures x == y
  {
    var k := x / a - y / a;
    assert x == a * (x / a) && y == a * (y / a);
    assert x - y == a * k;
    if k >= 1 {
      MulAtLeast(a, k);
    }
  }

  /** A multiple of a is left where it is. */
  lemma AlignFixesMultiples(d: nat, a: nat)
    requires IsPow2(a) && d % a == 0
    ensures Align(d, a) == d
  {
    MultiplesApart(Align(d, a), d, a);
  }

  /** Aligning twice is aligning once. */
  lemma AlignIdempotent(d: nat, a: nat)
    requires IsPow2(a)
    ensures Align(Align(d, a), a) == Align(d, a)
  {
    AlignFixesMultiples(Align(d, a), a);
  }

  /** The aligned value is the least multiple of a that is at least d. */
  lemma AlignIsLeast(d: nat, a: nat, m: nat)
    requires IsPow2(a) && m % a == 0 && d <= m
    ensures Align(d, a) <= m
  {
    var r := Align(d, a);
    if m < r {
      MultiplesApart(r, m, a);
    }
  }

  /** Coarser power-of-two alignment implies the finer one. */
  lemma AlignedToMultiple(x: nat, a: nat, b: nat)
    requires a > 0 && b > 0 && x % a == 0 && a % b == 0
    ensures x % b == 0
  {
    var p, q := x / a, a / b;
    assert x == a * p;
    assert a == b * q;
    assert x == b * (q * p);
    DivModUnique(x, b, q * p, 0);
  }

  /** Word alignment in numbers: NGX_ALIGMENT is a power of two. */
  lemma WordIsPow2()
    ensures IsPow2(Word) && IsPow2(16)
  {
    assert IsPow2(2) && IsPow2(4);
  }

  /** b to the power k. */
  function Power(b: nat, k: nat): (r: nat)
    ensures b >= 1 ==> r >= 1
  {
    if k == 0 then 1 else b * Power(b, k - 1)
  }

  /** Powers add their exponents. */
  lemma {:induction false} PowerAdd(b: nat, j: nat, k: nat)
    ensures Power(b, j + k) == Power(b, j) * Power(b, k)
    decreases j
  {
    if j > 0 {
      PowerAdd(b, j - 1, k);
      assert Power(b, j + k) == b * Power(b, j - 1 + k);
      MulAssociates(b, Power(b, j - 1), Power(b, k));
    }
  }

  lemma MulAssociates(a: int, b: int, c: int)
    ensures a * (b * c) == (a * b) * c
  {
  }

  lemma MulDistributes(a: int, b: int, c: int)
    ensures (a + b) * c == a * c + b * c
  {
  }

  lemma MulRotates(a: int, b: int, c: int)
    ensures (a * b) * c == a * (c * b)
  {
  }

  lemma MulMonotone(a: nat, b: nat, c: nat)
    requires a <= b
    ensures a * c <= b * c
  {
    assert b * c == a * c + (b - a) * c;
  }

  lemma DivAtLeastOne(x: nat, d: nat)
    requires d >= 1 && x >= d
    ensures x / d >= 1
  {
    assert x == d * (x / d) + x % d;
  }

  /** A quotient below p: n < b * p gives n / b < p. */
  lemma DivBelow(n: nat, b: nat, p: nat)
    requires b > 0 && n < b * p
    ensures n / b < p
  {
    var q := n / b;
    assert b * q <= n;
    MulMonotone(Min(p, q), q, b);
  }
}
