/** Python's arbitrary-precision integer bit operations on the non-negative
    values the integration applies them to: `x << k`, `x >> k`, `a | b` and
    `a & b`.  Shifts are multiplication and floor division by powers of two;
    `|` and `&` are defined bit by bit, least significant bit first, and the
    lemmas below connect them to ordinary arithmetic. */
module Bits {

  function Pow2(k: nat): (r: nat)
    ensures r >= 1
  {
    if k == 0 then 1 else 2 * Pow2(k - 1)
  }

  /** `x << k` */
  function Shl(x: nat, k: nat): nat {
    x * Pow2(k)
  }

  /** `x >> k` (Python floors; the operand is never negative here) */
  function Shr(x: nat, k: nat): (r: nat)
    ensures r * Pow2(k) <= x < (r + 1) * Pow2(k)
  {
    var p := Pow2(k);
    var q := x / p;
    assert x == q * p + x % p;
    MulBounds(q, p);
    q
  }

  /** `a | b` */
  function BitOr(a: nat, b: nat): nat
    decreases a + b
  {
    if a == 0 then b
    else if b == 0 then a
    else 2 * BitOr(a / 2, b / 2) + (if a % 2 == 1 || b % 2 == 1 then 1 else 0)
  }

  /** `a & b` */
  function BitAnd(a: nat, b: nat): nat
    decreases a + b
  {
    if a == 0 || b == 0 then 0
    else 2 * BitAnd(a / 2, b / 2) + (if a % 2 == 1 && b % 2 == 1 then 1 else 0)
  }

  /** The mask `0xFFFF` */
  const Mask16: nat := 0xFFFF

  lemma {:induction false} Pow2Add(a: nat, b: nat)
    ensures Pow2(a + b) == Pow2(a) * Pow2(b)
    decreases a
  {
    if a > 0 {
      Pow2Add(a - 1, b);
      assert Pow2(a + b) == 2 * Pow2(a - 1 + b);
    }
  }

  /** The three shift amounts the register layout uses. */
  lemma Pow2Values()
    ensures Pow2(16) == 0x1_0000
    ensures Pow2(32) == 0x1_0000_0000
    ensures Pow2(48) == 0x1_0000_0000_0000
  {
    assert Pow2(2) == 4;
    Pow2Add(2, 2);
    Pow2Add(4, 4);
    Pow2Add(8, 8);
    Pow2Add(16, 16);
    Pow2Add(32, 16);
  }

  lemma MulBounds(k: int, d: int)
    requires d > 0
    ensures k >= 1 ==> k * d >= d
    ensures k <= -1 ==> k * d <= -d
  {
  }

  /** Division with remainder has only one answer. */
  lemma DivModUnique(x: nat, d: nat, q: nat, r: nat)
    requires 0 <= r < d
    requires x == q * d + r
    ensures x / d == q && x % d == r
  {
    var q', r' := x / d, x % d;
    assert (q - q') * d == r' - r;
    MulBounds(q - q', d);
  }

  lemma MulDistributes(a: int, u: int, v: int)
    ensures a * (u + v) == a * u + a * v
  {
  }

  lemma MulAssociates(a: int, b: int, c: int)
    ensures a * (b * c) == (a * b) * c
  {
  }

  lemma MulMonotone(a: nat, u: int, v: int)
    requires u <= v
    ensures a * u <= a * v
  {
    MulDistributes(a, u, v - u);
  }

  /** The quotient and remainder of `x` by `d`, as a decomposition. */
  lemma DivModParts(x: nat, d: nat) returns (q: nat, r: nat)
    requires d > 0
    ensures q == x / d && r == x % d
    ensures x == d * q + r && r < d
  {
    q, r := x / d, x % d;
  }

  lemma TwoStageDecomposition(x: nat, a: nat, b: nat, q: nat, r: nat, t: nat, s: nat)
    requires x == a * q + r && r < a
    requires q == b * t + s && s < b
    ensures x == (a * b) * t + (a * s + r)
    ensures a * s + r < a * b
  {
    MulDistributes(a, b * t, s);
    MulAssociates(a, b, t);
    MulMonotone(a, s + 1, b);
    MulDistributes(a, s, 1);
  }

  /** Taking the remainder modulo `a * b` in two stages. */
  lemma ModMul(x: nat, a: nat, b: nat)
    requires a > 0 && b > 0
    ensures x % (a * b) == a * ((x / a) % b) + x % a
  {
    var q, r := DivModParts(x, a);
    var t, s := DivModParts(q, b);
    TwoStageDecomposition(x, a, b, q, r, t, s);
    DivModUnique(x, a * b, t, a * s + r);
  }

  /** OR-ing a value below `2^k` into a multiple of `2^k` is addition. */
  lemma {:induction false} OrLow(m: nat, k: nat, y: nat)
    requires y < Pow2(k)
    ensures BitOr(m * Pow2(k), y) == m * Pow2(k) + y
    decreases k
  {
    var a := m * Pow2(k);
    if k == 0 {
      assert y == 0;
    } else if a != 0 && y != 0 {
      var h := m * Pow2(k - 1);
      MulAssociates(m, 2, Pow2(k - 1));
      assert a == 2 * h;
      DivModUnique(a, 2, h, 0);
      OrLow(m, k - 1, y / 2);
      assert BitOr(a, y) == 2 * (h + y / 2) + y % 2;
    }
  }

  /** AND with an odd mask keeps the lowest bit of `x` and recurses on the rest. */
  lemma AndOddStep(x: nat, b: nat)
    requires x > 0 && b % 2 == 1
    ensures BitAnd(x, b) == 2 * BitAnd(x / 2, b / 2) + x % 2
  {
  }

  /** AND-ing with the mask of `k` one-bits leaves the low `k` bits: what
      remains of `x` is a multiple of `2^k`. */
  lemma {:induction false} AndMaskSplit(x: nat, k: nat) returns (q: nat)
    ensures BitAnd(x, Pow2(k) - 1) < Pow2(k)
    ensures x == q * Pow2(k) + BitAnd(x, Pow2(k) - 1)
    decreases k
  {
    var P := Pow2(k);
    if k == 0 {
      q := x;
    } else if x == 0 {
      q := 0;
    } else {
      var p := Pow2(k - 1);
      assert P == 2 * p;
      var b := P - 1;
      assert b == 2 * (p - 1) + 1;
      DivModUnique(b, 2, p - 1, 1);
      var q' := AndMaskSplit(x / 2, k - 1);
      var low := BitAnd(x / 2, p - 1);
      AndOddStep(x, b);
      assert BitAnd(x, b) == 2 * low + x % 2;
      assert x == 2 * (x / 2) + x % 2;
      assert x / 2 == q' * p + low;
      MulAssociates(2, q', p);
      MulAssociates(q', 2, p);
      assert x == q' * P + (2 * low + x % 2);
      q := q';
    }
  }

  /** AND-ing with the mask of `k` one-bits keeps the low `k` bits. */
  lemma AndMask(x: nat, k: nat)
    ensures BitAnd(x, Pow2(k) - 1) == x % Pow2(k)
  {
    var q := AndMaskSplit(x, k);
    DivModUnique(x, Pow2(k), q, BitAnd(x, Pow2(k) - 1));
  }

  /** `x & 0xFFFF` is `x mod 2^16`. */
  lemma AndMask16(x: nat)
    ensures BitAnd(x, Mask16) == x % 0x1_0000
  {
    Pow2Values();
    AndMask(x, 16);
  }
}
