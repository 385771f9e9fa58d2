/**
  The element type of the container: a 64-bit two's-complement integer
  (`intmax_t`), with the C++20 meaning of the operators the operation
  catalogue dispatches to.

  Dafny's `/` and `%` are Euclidean; C++ truncates the quotient toward zero
  (ISO C++17 [expr.mul] paragraph 4), so `Quot` and `Rem` are defined here.
  Shifts follow C++20 [expr.shift]: `a << s` is the value congruent to
  `a * 2^s` modulo 2^64, and `a >> s` is `a / 2^s` rounded toward negative
  infinity. Bitwise operators work on the 64-bit two's-complement pattern,
  which is kept as a natural number below 2^64 and combined bit by bit.
 */
module Int64 {

  const MIN: int := -0x8000_0000_0000_0000
  const MAX: int := 0x7fff_ffff_ffff_ffff
  const MODULUS: int := 0x1_0000_0000_0000_0000

  /** A value of `intmax_t`. */
  type i64 = x: int | -0x8000_0000_0000_0000 <= x <= 0x7fff_ffff_ffff_ffff

  /** True when the mathematical result is representable: outside this range
      the C++ operation is signed overflow, which is undefined behaviour. */
  predicate InRange(x: int) {
    MIN <= x <= MAX
  }

  function Abs(x: int): nat {
    if x < 0 then -x else x
  }

  // ---------------------------------------------------------------------
  // Truncating division
  // ---------------------------------------------------------------------

  /** Quotient truncated toward zero, as C++ `a / b`. */
  function Quot(a: int, b: int): int
    requires b != 0
  {
    var q := Abs(a) / Abs(b);
    if (a < 0) == (b < 0) then q else -q
  }

  /** Remainder whose sign follows the dividend, as C++ `a % b`. */
  function Rem(a: int, b: int): int
    requires b != 0
  {
    var m := Abs(a) % Abs(b);
    if a < 0 then -m else m
  }

  lemma EuclidNat(x: nat, y: nat)
    requires y > 0
    ensures (x / y) * y + x % y == x
    ensures 0 <= x % y < y
  {
  }

  lemma MulMono(p: int, x: int, y: int)
    requires p >= 0 && x <= y
    ensures p * x <= p * y
  {
  }

  /** Euclidean division is unique: any `q`, `r` with `x == n * q + r` and
      `0 <= r < n` are the quotient and the residue. */
  lemma ModUnique(x: int, n: int, q: int, r: int)
    requires n > 0 && 0 <= r < n && x == n * q + r
    ensures x % n == r
  {
    var q', r' := x / n, x % n;
    assert x == n * q' + r' && 0 <= r' < n;
    if q' < q {
      MulStep(n, q', q);
      assert false;
    } else if q' > q {
      MulStep(n, q, q');
      assert false;
    }
  }

  lemma MulStep(n: int, a: int, b: int)
    requires n >= 0 && a < b
    ensures n * a + n <= n * b
  {
    MulMono(n, a + 1, b);
    assert n * (a + 1) == n * a + n;
  }

  lemma QuotRemSum(a: int, b: int)
    requires b != 0
    ensures Quot(a, b) * b + Rem(a, b) == a
  {
    var x: int, y: int := Abs(a), Abs(b);
    EuclidNat(x, y);
    var q: int, m: int := x / y, x % y;
    assert q * y + m == x;
    if a < 0 && b < 0 {
      assert Quot(a, b) == q && b == -y && Rem(a, b) == -m;
      assert q * (-y) == -(q * y);
    } else if a < 0 {
      assert Quot(a, b) == -q && b == y && Rem(a, b) == -m;
      assert (-q) * y == -(q * y);
    } else if b < 0 {
      assert Quot(a, b) == -q && b == -y && Rem(a, b) == m;
      assert (-q) * (-y) == q * y;
    } else {
      assert Quot(a, b) == q && b == y && Rem(a, b) == m;
    }
  }

  lemma RemBounds(a: int, b: int)
    requires b != 0
    ensures Abs(Rem(a, b)) < Abs(b)
    ensures Rem(a, b) == 0 || (Rem(a, b) < 0 <==> a < 0)
  {
    EuclidNat(Abs(a), Abs(b));
  }

  lemma QuotBound(a: int, b: int)
    requires b != 0
    ensures Abs(Quot(a, b)) * Abs(b) <= Abs(a)
  {
    EuclidNat(Abs(a), Abs(b));
  }

  /** ISO C++17 [expr.mul] paragraph 4: `(a/b)*b + a%b == a`, with the
      quotient truncated toward zero, so that the remainder is smaller than
      the divisor in magnitude and is zero or has the sign of the dividend. */
  lemma QuotRemIdentity(a: int, b: int)
    requires b != 0
    ensures Quot(a, b) * b + Rem(a, b) == a
    ensures Abs(Rem(a, b)) < Abs(b)
    ensures Rem(a, b) == 0 || (Rem(a, b) < 0 <==> a < 0)
    ensures Abs(Quot(a, b)) * Abs(b) <= Abs(a)
  {
    QuotRemSum(a, b);
    RemBounds(a, b);
    QuotBound(a, b);
  }

  /** The truncated quotient is the largest multiple of `|b|` not exceeding
      `|a|` in magnitude, and is negative exactly when the operands' signs
      differ (unless it is zero). */
  lemma QuotBracket(a: int, b: int)
    requires b != 0
    ensures Abs(Quot(a, b)) * Abs(b) <= Abs(a) < (Abs(Quot(a, b)) + 1) * Abs(b)
    ensures Quot(a, b) == 0 || (Quot(a, b) < 0 <==> (a < 0) != (b < 0))
  {
    var x: int, y: int := Abs(a), Abs(b);
    EuclidNat(x, y);
    var q: int := x / y;
    assert Abs(Quot(a, b)) == q;
    assert (q + 1) * y == q * y + y;
  }

  lemma QuotAtMostHalf(x: int, y: int)
    requires 0 <= x && 2 <= y
    ensures 2 * (x / y) <= x
  {
    EuclidNat(x, y);
    var q: int := x / y;
    MulMono(q, 2, y);
  }

  /** The quotient of two `intmax_t` values overflows only for `MIN / -1`. */
  lemma QuotInRange(a: i64, b: i64)
    requires b != 0
    ensures InRange(Quot(a, b)) <==> !(a == MIN && b == -1)
  {
    var x: int, y: int := Abs(a), Abs(b);
    if y == 1 {
      assert x / 1 == x;
    } else {
      QuotAtMostHalf(x, y);
    }
  }

  /** The remainder of two `intmax_t` values is itself representable. */
  lemma RemInRange(a: i64, b: i64)
    requires b != 0
    ensures InRange(Rem(a, b))
  {
    EuclidNat(Abs(a), Abs(b));
  }

  // ---------------------------------------------------------------------
  // Shifts
  // ---------------------------------------------------------------------

  function Pow2(s: nat): (p: nat)
    ensures p >= 1
  {
    if s == 0 then 1 else 2 * Pow2(s - 1)
  }

  /** Reduction modulo 2^64 into the `intmax_t` range. */
  function Wrap(x: int): (r: i64)
    ensures (r - x) % MODULUS == 0
    ensures InRange(x) ==> r == x
  {
    (x - MIN) % MODULUS + MIN
  }

  /** C++20 `a << s`: the value congruent to `a * 2^s` modulo 2^64. */
  function Shl(a: i64, s: int): (r: i64)
    requires 0 <= s < 64
    ensures (r - a * Pow2(s)) % MODULUS == 0
    ensures InRange(a * Pow2(s)) ==> r == a * Pow2(s)
  {
    Wrap(a * Pow2(s))
  }

  lemma FloorDivBounds(a: int, p: int)
    requires p >= 1
    ensures a >= 0 ==> 0 <= a / p <= a
    ensures a < 0 ==> a <= a / p < 0
  {
    var q := a / p;
    var r := a % p;
    assert a == p * q + r && 0 <= r < p;
    if a < 0 {
      assert q < 0 by {
        if q >= 0 { MulMono(p, 0, q); }
      }
      assert q >= a by {
        if q < a {
          MulMono(p, q, a - 1);
          MulMono(-a, 1, p);
        }
      }
    } else {
      assert q >= 0 by {
        if q < 0 { MulMono(p, q, -1); }
      }
      assert q <= a by {
        if q > a { MulMono(q, 1, p); }
      }
    }
  }

  /** Floor division brackets the dividend between two consecutive
      multiples of the divisor. */
  lemma FloorDivBracket(a: int, p: int)
    requires p >= 1
    ensures (a / p) * p <= a < (a / p + 1) * p
  {
    var q := a / p;
    assert a == q * p + a % p && 0 <= a % p < p;
    assert (q + 1) * p == q * p + p;
  }

  /** C++20 `a >> s`: the largest `r` with `r * 2^s <= a`, that is floor
      division by 2^s (Dafny's `/` floors for a positive divisor). The
      result lies between zero and `a`. */
  function Shr(a: i64, s: int): (r: i64)
    requires 0 <= s < 64
    ensures r * Pow2(s) <= a < (r + 1) * Pow2(s)
    ensures a >= 0 ==> 0 <= r <= a
    ensures a < 0 ==> a <= r < 0
  {
    var p := Pow2(s);
    FloorDivBounds(a, p);
    FloorDivBracket(a, p);
    a / p
  }

  // ---------------------------------------------------------------------
  // Bitwise operators on the two's-complement pattern
  // ---------------------------------------------------------------------

  /** The two's-complement bit pattern of a value, as a number below 2^64. */
  function Unsigned(x: i64): (u: nat)
    ensures u < MODULUS
  {
    if x < 0 then x + MODULUS else x
  }

  /** The value whose two's-complement pattern is `u`. */
  function Signed(u: nat): i64
    requires u < MODULUS
  {
    if u <= MAX then u else u - MODULUS
  }

  datatype BitOp = AndBits | OrBits | XorBits

  function CombineBit(k: BitOp, x: nat, y: nat): nat
    requires x < 2 && y < 2
  {
    match k
    case AndBits => if x == 1 && y == 1 then 1 else 0
    case OrBits => if x == 1 || y == 1 then 1 else 0
    case XorBits => if x != y then 1 else 0
  }

  /** Combines the low `n` bits of `a` and `b` bit by bit. */
  function Bitwise(k: BitOp, a: nat, b: nat, n: nat): (r: nat)
    ensures r < Pow2(n)
    decreases n
  {
    if n == 0 then 0
    else CombineBit(k, a % 2, b % 2) + 2 * Bitwise(k, a / 2, b / 2, n - 1)
  }

  lemma {:induction false} BitwiseCommutes(k: BitOp, a: nat, b: nat, n: nat)
    ensures Bitwise(k, a, b, n) == Bitwise(k, b, a, n)
    decreases n
  {
    if n > 0 {
      BitwiseCommutes(k, a / 2, b / 2, n - 1);
    }
  }

  lemma {:induction false} Pow2Add(m: nat, n: nat)
    ensures Pow2(m + n) == Pow2(m) * Pow2(n)
    decreases m
  {
    if m > 0 {
      Pow2Add(m - 1, n);
    }
  }

  lemma Pow2Is2To64()
    ensures Pow2(64) == MODULUS
  {
    assert Pow2(8) == 256;
    Pow2Add(8, 8);
    assert Pow2(16) == 0x1_0000;
    Pow2Add(16, 16);
    assert Pow2(32) == 0x1_0000_0000;
    Pow2Add(32, 32);
  }

  function BitAnd(a: i64, b: i64): i64 {
    Pow2Is2To64();
    Signed(Bitwise(AndBits, Unsigned(a), Unsigned(b), 64))
  }

  function BitOr(a: i64, b: i64): i64 {
    Pow2Is2To64();
    Signed(Bitwise(OrBits, Unsigned(a), Unsigned(b), 64))
  }

  function BitXor(a: i64, b: i64): i64 {
    Pow2Is2To64();
    Signed(Bitwise(XorBits, Unsigned(a), Unsigned(b), 64))
  }

  /** Reduction modulo `2^n` peels off the lowest bit the way `Bitwise`
      does. */
  lemma ModPow2Step(x: nat, n: nat)
    requires n > 0
    ensures x % Pow2(n) == x % 2 + 2 * ((x / 2) % Pow2(n - 1))
  {
    var p := Pow2(n - 1);
    var q := x / 2;
    var t, s := q / p, q % p;
    assert q == p * t + s && 0 <= s < p;
    assert x == 2 * q + x % 2;
    assert x == Pow2(n) * t + (x % 2 + 2 * s);
    ModUnique(x, Pow2(n), t, x % 2 + 2 * s);
  }

  /** Combining with the zero pattern: `and` clears every bit, `or` and
      `xor` keep the low `n` bits. */
  lemma {:induction false} BitwiseWithZero(k: BitOp, x: nat, n: nat)
    ensures Bitwise(k, x, 0, n) == if k == AndBits then 0 else x % Pow2(n)
    decreases n
  {
    if n > 0 {
      BitwiseWithZero(k, x / 2, n - 1);
      ModPow2Step(x, n);
    }
  }

  /** `a & 0 == 0`, `a | 0 == a` and `a ^ 0 == a`. */
  lemma BitOpsWithZero(a: i64)
    ensures BitAnd(a, 0) == 0 && BitOr(a, 0) == a && BitXor(a, 0) == a
  {
    var u := Unsigned(a);
    assert Unsigned(0) == 0;
    Pow2Is2To64();
    ModUnique(u, MODULUS, 0, u);
    BitwiseWithZero(AndBits, u, 64);
    BitwiseWithZero(OrBits, u, 64);
    BitwiseWithZero(XorBits, u, 64);
  }

  /** C++ `~a`: every bit of the pattern flipped. */
  function BitNot(a: i64): i64 {
    Signed(MODULUS - 1 - Unsigned(a))
  }

  /** On two's complement, complement is `-a - 1`, hence an involution. */
  lemma BitNotIsNegateMinusOne(a: i64)
    ensures BitNot(a) == -(a as int) - 1
    ensures BitNot(BitNot(a)) == a
  {
  }
}
