/**
 * The integer semantics of the JavaScript operators the driver uses.
 *
 * JavaScript numbers are doubles, but the bitwise operators `|`, `&`, `<<`
 * and `>>` first convert their operands with ToInt32 (reduce modulo 2^32 and
 * read the 32 bits as two's complement), and a store into a `Uint16Array`
 * reduces modulo 2^16 (ToUint16).  In ECMAScript 2023 (ECMA-262, 14th
 * edition), section 7.1.6 defines ToInt32 and section 7.1.9 ToUint16;
 * section 13.12 defines `|` and `&` on the 32-bit patterns and section 13.9
 * the shifts.  Only integral operands are modelled.
 *
 * The bitwise operations are defined on natural numbers, bit by bit, so that
 * no conversion between `int` and a bit-vector type is needed.
 */
module JsNumbers {

  /** 2 to the power n. */
  function Pow2(n: nat): (r: nat)
    ensures r >= 1
  {
    if n == 0 then 1 else 2 * Pow2(n - 1)
  }

  /** Powers of two add their exponents. */
  lemma {:induction false} Pow2Add(m: nat, n: nat)
    ensures Pow2(m + n) == Pow2(m) * Pow2(n)
    decreases m
  {
    if m > 0 {
      Pow2Add(m - 1, n);
      assert Pow2(m + n) == 2 * Pow2(m - 1 + n);
    }
  }

  /** The small powers of two the driver's masks and shifts use. */
  lemma Pow2Small()
    ensures Pow2(1) == 2 && Pow2(3) == 8 && Pow2(4) == 16 && Pow2(7) == 128 && Pow2(8) == 0x100
  {
    Pow2Add(4, 3);
    Pow2Add(4, 4);
  }

  /** The powers of two that bound 16-bit and 32-bit values. */
  lemma Pow2Large()
    ensures Pow2(16) == 0x1_0000 && Pow2(31) == 0x8000_0000 && Pow2(32) == 0x1_0000_0000
  {
    Pow2Small();
    Pow2Add(8, 7);
    Pow2Add(8, 8);
    Pow2Add(16, 15);
    Pow2Add(16, 16);
  }

  /** Powers of two grow with the exponent. */
  lemma {:induction false} Pow2Monotone(m: nat, n: nat)
    requires m <= n
    ensures Pow2(m) <= Pow2(n)
    decreases n
  {
    if m < n {
      Pow2Monotone(m, n - 1);
    }
  }

  /** Bit i of x, in two's complement when x is negative (floor division). */
  function Bit(x: int, i: nat): (b: nat)
    ensures b <= 1
  {
    (x / Pow2(i)) % 2
  }

  /** Bitwise OR of two natural numbers. */
  function Or(a: nat, b: nat): nat
    decreases a + b
  {
    if a == 0 && b == 0 then 0
    else 2 * Or(a / 2, b / 2) + (if a % 2 == 1 || b % 2 == 1 then 1 else 0)
  }

  /** Bitwise AND of two natural numbers. */
  function And(a: nat, b: nat): nat
    decreases a + b
  {
    if a == 0 || b == 0 then 0
    else 2 * And(a / 2, b / 2) + (if a % 2 == 1 && b % 2 == 1 then 1 else 0)
  }

  /** ToUint32: the 32-bit pattern of an integral number. */
  function ToUint32(x: int): (u: nat)
    ensures u < 0x1_0000_0000
  {
    x % 0x1_0000_0000
  }

  /** ToInt32: the signed 32-bit value of an integral number. */
  function ToInt32(x: int): (r: int)
    ensures -0x8000_0000 <= r < 0x8000_0000
    ensures (r - x) % 0x1_0000_0000 == 0
  {
    var u := ToUint32(x);
    if u < 0x8000_0000 then u else u - 0x1_0000_0000
  }

  /** ToUint16: what a store into a `Uint16Array` keeps of an integral number. */
  function ToUint16(x: int): (r: nat)
    ensures r < 0x1_0000
  {
    x % 0x1_0000
  }

  /** JavaScript `a | b`. */
  function BitOr(a: int, b: int): int
  {
    ToInt32(Or(ToUint32(a), ToUint32(b)))
  }

  /** JavaScript `a & b`. */
  function BitAnd(a: int, b: int): int
  {
    ToInt32(And(ToUint32(a), ToUint32(b)))
  }

  /** JavaScript `a << n` for a shift count 0 <= n < 32. */
  function ShiftLeft(a: int, n: nat): int
    requires n < 32
  {
    ToInt32(ToUint32(a) * Pow2(n))
  }

  /**
   * JavaScript `a << 1` sees only the low 31 bits of a: the bit shifted out
   * of the 32-bit pattern is lost, so any a shifts like a mod 2^31.
   */
  lemma ShiftLeftWraps(a: int)
    ensures ShiftLeft(a, 1) == ShiftLeft(a % 0x8000_0000, 1)
  {
    assert Pow2(1) == 2;
    var u, low := ToUint32(a), a % 0x8000_0000;
    assert u == a - 0x1_0000_0000 * (a / 0x1_0000_0000);
    DivUnique(a, 0x8000_0000, 2 * (a / 0x1_0000_0000) + u / 0x8000_0000, u % 0x8000_0000);
    assert ToUint32(low) == low;
    assert u == low || u == low + 0x8000_0000;
  }

  /** JavaScript `a >> n` (sign-propagating) for a shift count 0 <= n < 32. */
  function ShiftRight(a: int, n: nat): int
    requires n < 32
  {
    ToInt32(a) / Pow2(n)
  }

  /** A number in 0..2^31 - 1 is its own 32-bit pattern and its own int32 value. */
  lemma Int32Small(x: nat)
    requires x < 0x8000_0000
    ensures ToUint32(x) == x && ToInt32(x) == x
  {
  }

  /** On operands below 2^31, JavaScript `|` is Or of the numbers themselves. */
  lemma BitOrNonNegative(a: nat, b: nat)
    requires a < 0x8000_0000 && b < 0x8000_0000
    ensures BitOr(a, b) == Or(a, b) < 0x8000_0000
  {
    assert Or(a, b) < 0x8000_0000 by {
      Pow2Large();
      OrBound(a, b, 31);
    }
    Int32Small(a);
    Int32Small(b);
    Int32Small(Or(a, b));
  }

  /** On operands below 2^31, JavaScript `&` is And of the numbers themselves. */
  lemma BitAndNonNegative(a: nat, b: nat)
    requires a < 0x8000_0000 && b < 0x8000_0000
    ensures BitAnd(a, b) == And(a, b) <= a
  {
    AndAtMost(a, b);
    Int32Small(a);
    Int32Small(b);
    Int32Small(And(a, b));
  }

  /** The And of two numbers is at most the first of them. */
  lemma {:induction false} AndAtMost(a: nat, b: nat)
    ensures And(a, b) <= a
    decreases a + b
  {
    if a != 0 && b != 0 {
      AndAtMost(a / 2, b / 2);
    }
  }

  /** JavaScript `a << n` is multiplication by 2^n while the result stays below 2^31. */
  lemma ShiftLeftNonNegative(a: nat, n: nat)
    requires n < 32 && a * Pow2(n) < 0x8000_0000
    ensures ShiftLeft(a, n) == a * Pow2(n)
  {
    Int32Small(a);
    Int32Small(a * Pow2(n));
  }

  /**
   * JavaScript `|` of a multiple of 2^k and a number below 2^k is their sum,
   * while the sum stays below 2^31.
   */
  lemma BitOrDisjoint(c: nat, b: nat, k: nat)
    requires b < Pow2(k) && c * Pow2(k) + b < 0x8000_0000
    ensures BitOr(c * Pow2(k), b) == c * Pow2(k) + b
  {
    OrDisjoint(c, b, k);
    BitOrNonNegative(c * Pow2(k), b);
  }

  /** JavaScript `a << 1` doubles a negative a while the result stays within int32. */
  lemma DoubleNegative(a: int)
    requires -0x4000_0000 <= a < 0
    ensures ShiftLeft(a, 1) == 2 * a
  {
    Pow2Small();
    assert ToUint32(a) == a + 0x1_0000_0000;
    assert ToUint32(a) * Pow2(1) == 2 * a + 0x2_0000_0000;
  }

  /** JavaScript `|` with a negative int32 operand is negative. */
  lemma NegativeOr(a: nat, b: int)
    requires a < 0x8000_0000 && -0x8000_0000 <= b < 0
    ensures BitOr(a, b) < 0
  {
    Int32Small(a);
    var high := ToUint32(b);
    assert high == b + 0x1_0000_0000 >= 0x8000_0000;
    OrAtLeast(a, high);
    assert Or(a, high) < 0x1_0000_0000 by {
      Pow2Large();
      OrBound(a, high, 32);
    }
  }

  /** Bit i of 2^k is set exactly when i == k. */
  lemma {:induction false} BitOfPow2(k: nat, i: nat)
    ensures Bit(Pow2(k), i) == if i == k then 1 else 0
    decreases i
  {
    if i == 0 {
      if k > 0 {
        assert Pow2(k) == 2 * Pow2(k - 1);
      }
    } else {
      HalveBit(Pow2(k), i);
      if k > 0 {
        BitOfPow2(k - 1, i - 1);
      } else {
        BitOfZero(i - 1);
      }
    }
  }

  /** No bit of 0 is set. */
  lemma BitOfZero(i: nat)
    ensures Bit(0, i) == 0
  {
  }

  /** Or is bitwise: bit i of the result is set exactly when bit i of either operand is. */
  lemma {:induction false} OrBit(a: nat, b: nat, i: nat)
    ensures Bit(Or(a, b), i) == 1 <==> Bit(a, i) == 1 || Bit(b, i) == 1
    decreases i
  {
    if i == 0 {
      OrLowBit(a, b);
      BitZero(Or(a, b));
      BitZero(a);
      BitZero(b);
    } else {
      OrBit(a / 2, b / 2, i - 1);
      HalveBit(Or(a, b), i);
      HalveBit(a, i);
      HalveBit(b, i);
      OrLowBit(a, b);
    }
  }

  /** Bit 0 of an Or is the Or of the operands' bit 0; the rest is the Or of the halves. */
  lemma OrLowBit(a: nat, b: nat)
    ensures Or(a, b) % 2 == (if a % 2 == 1 || b % 2 == 1 then 1 else 0)
    ensures Or(a, b) / 2 == Or(a / 2, b / 2)
  {
    if a != 0 || b != 0 {
      var h, c := Or(a / 2, b / 2), if a % 2 == 1 || b % 2 == 1 then 1 else 0;
      assert Or(a, b) == 2 * h + c;
      HalfOf(h, c);
    }
  }

  /** (2h + c) / 2 == h and (2h + c) % 2 == c for a bit c. */
  lemma HalfOf(h: int, c: int)
    requires c == 0 || c == 1
    ensures (2 * h + c) / 2 == h && (2 * h + c) % 2 == c
  {
  }

  /** Bit 0 of x is its parity. */
  lemma BitZero(x: nat)
    ensures Bit(x, 0) == x % 2
  {
    assert Pow2(0) == 1;
  }

  /** Bit i of x is bit i - 1 of x / 2. */
  lemma HalveBit(x: nat, i: nat)
    requires i > 0
    ensures Bit(x, i) == Bit(x / 2, i - 1)
  {
    DivDiv(x, 2, Pow2(i - 1));
  }

  /** (x / m) / n == x / (m * n) for positive m and n. */
  lemma DivDiv(x: nat, m: nat, n: nat)
    requires m > 0 && n > 0
    ensures x / m / n == x / (m * n)
  {
    var q, r, s := x / m / n, x / m % n, x % m;
    assert x / m == n * q + r;
    assert x == m * (x / m) + s;
    Regroup(m, n, q, r);
    assert m * r <= m * (n - 1) == m * n - m by {
      MulMonotone(m, r, n - 1);
    }
    DivUnique(x, m * n, q, m * r + s);
  }

  /** m * (n * q + r) == (m * n) * q + m * r. */
  lemma Regroup(m: int, n: int, q: int, r: int)
    ensures m * (n * q + r) == (m * n) * q + m * r
  {
  }

  /** Multiplying by a non-negative m keeps the order of the other factor. */
  lemma MulMonotone(m: nat, a: int, b: int)
    requires a <= b
    ensures m * a <= m * b && m * (b + 1) == m * b + m
  {
  }

  /** The quotient of x by d is q whenever x == d * q + r with 0 <= r < d. */
  lemma DivUnique(x: int, d: int, q: int, r: int)
    requires d > 0 && 0 <= r < d && x == d * q + r
    ensures x / d == q && x % d == r
  {
    var q', r' := x / d, x % d;
    assert d * (q - q') == r' - r;
    MulSign(d, q - q');
  }

  /** A product with a positive factor d is at least d away from 0 unless the other factor is 0. */
  lemma {:induction false} MulSign(d: int, k: int)
    requires d > 0
    ensures k >= 1 ==> d * k >= d
    ensures k <= -1 ==> d * k <= -d
    decreases if k < 0 then -k else k
  {
    if k > 1 {
      MulSign(d, k - 1);
      assert d * k == d * (k - 1) + d;
    } else if k < -1 {
      MulSign(d, k + 1);
      assert d * k == d * (k + 1) - d;
    }
  }

  /** The Or of two numbers below 2^k stays below 2^k. */
  lemma {:induction false} OrBound(a: nat, b: nat, k: nat)
    requires a < Pow2(k) && b < Pow2(k)
    ensures Or(a, b) < Pow2(k)
    decreases k
  {
    if k > 0 && !(a == 0 && b == 0) {
      OrBound(a / 2, b / 2, k - 1);
    }
  }

  /** The Or of two numbers is at least each of them. */
  lemma {:induction false} OrAtLeast(a: nat, b: nat)
    ensures Or(a, b) >= a && Or(a, b) >= b
    decreases a + b
  {
    if !(a == 0 && b == 0) {
      OrAtLeast(a / 2, b / 2);
    }
  }

  /** Or with zero changes nothing. */
  lemma {:induction false} OrZero(a: nat)
    ensures Or(a, 0) == a && Or(0, a) == a
    decreases a
  {
    if a != 0 {
      OrZero(a / 2);
    }
  }

  /** Or is commutative. */
  lemma {:induction false} OrCommutes(a: nat, b: nat)
    ensures Or(a, b) == Or(b, a)
    decreases a + b
  {
    if !(a == 0 && b == 0) {
      OrCommutes(a / 2, b / 2);
    }
  }

  /**
   * When the bits of a and b do not overlap (a is a multiple of 2^k and
   * b < 2^k), Or is plain addition.
   */
  lemma {:induction false} OrDisjoint(c: nat, b: nat, k: nat)
    requires b < Pow2(k)
    ensures Or(c * Pow2(k), b) == c * Pow2(k) + b
    decreases k
  {
    if k == 0 {
      OrZero(c);
    } else {
      var a := c * Pow2(k);
      assert a == 2 * (c * Pow2(k - 1));
      if !(a == 0 && b == 0) {
        OrDisjoint(c, b / 2, k - 1);
        assert Or(a, b) == 2 * Or(c * Pow2(k - 1), b / 2) + b % 2;
      }
    }
  }

  /**
   * Or acts on the low k bits alone when its second operand is below 2^k:
   * the bits of a from position k upwards pass through unchanged.
   */
  lemma {:induction false} OrSplit(c: nat, a: nat, b: nat, k: nat)
    requires a < Pow2(k) && b < Pow2(k)
    ensures Or(c * Pow2(k) + a, b) == c * Pow2(k) + Or(a, b)
    decreases k
  {
    if k == 0 {
      OrZero(c);
      OrZero(0);
    } else {
      var p := Pow2(k - 1);
      var x := c * Pow2(k) + a;
      assert c * Pow2(k) == 2 * (c * p);
      assert x / 2 == c * p + a / 2 && x % 2 == a % 2;
      OrSplit(c, a / 2, b / 2, k - 1);
      if a == 0 && b == 0 {
        OrZero(x);
        OrZero(0);
      } else {
        assert Or(a, b) == 2 * Or(a / 2, b / 2) + (if a % 2 == 1 || b % 2 == 1 then 1 else 0);
      }
    }
  }

  /** x % (2p) is twice (x / 2) % p plus the lowest bit of x. */
  lemma ModHalf(x: nat, p: nat)
    requires p > 0
    ensures x % (2 * p) == 2 * (x / 2 % p) + x % 2
    ensures (x % (2 * p)) / 2 == x / 2 % p && (x % (2 * p)) % 2 == x % 2
  {
    var q := x / 2 / p;
    var r := 2 * (x / 2 % p) + x % 2;
    assert x / 2 == p * q + x / 2 % p;
    assert x == (2 * p) * q + r;
    DivUnique(x, 2 * p, q, r);
  }

  /** JavaScript `a & (2^k - 1)` keeps the low k bits of a non-negative int32. */
  lemma BitAndLowMask(a: nat, k: nat)
    requires a < 0x8000_0000 && k <= 31
    ensures BitAnd(a, Pow2(k) - 1) == a % Pow2(k)
  {
    assert Pow2(k) <= 0x8000_0000 by {
      Pow2Large();
      Pow2Monotone(k, 31);
    }
    BitAndNonNegative(a, Pow2(k) - 1);
    AndLowMask(a, k);
  }

  /** JavaScript `a & 0x0F` is the low nibble of a non-negative int32. */
  lemma BitAndNibble(a: nat)
    requires a < 0x8000_0000
    ensures BitAnd(a, 0x0F) == a % 16
  {
    assert Pow2(4) == 16 by {
      Pow2Small();
    }
    BitAndLowMask(a, 4);
  }

  /** And with a mask of k one-bits keeps the low k bits. */
  lemma {:induction false} AndLowMask(a: nat, k: nat)
    ensures And(a, Pow2(k) - 1) == a % Pow2(k)
    decreases k
  {
    if k > 0 {
      var p := Pow2(k - 1);
      assert Pow2(k) == 2 * p;
      AndLowMask(a / 2, k - 1);
      AndOddMask(a, p);
      ModHalf(a, p);
    }
  }

  /** And with the odd mask 2p - 1 keeps bit 0 and masks the rest with p - 1. */
  lemma AndOddMask(a: nat, p: nat)
    requires p >= 1
    ensures And(a, 2 * p - 1) == 2 * And(a / 2, p - 1) + a % 2
  {
    if a != 0 {
      assert (2 * p - 1) / 2 == p - 1 && (2 * p - 1) % 2 == 1;
    }
  }
}
