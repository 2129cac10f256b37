/** The C byte and bit operations the firmware uses, on non-negative
    integers: `uint8_t`/`char` values, `|`, `&` and `<<`. */
module Bits {

  /** An unsigned 8-bit value (`uint8_t`, or `char` read as unsigned). */
  type Byte = x: int | 0 <= x < 256

  /** `1 << k`. */
  function Pow2(k: nat): (p: nat)
    ensures p >= 1
  {
    if k == 0 then 1 else 2 * Pow2(k - 1)
  }

  /** Bit `k` of `x`, as 0 or 1. */
  function Bit(x: nat, k: nat): (b: nat)
    ensures b <= 1
  {
    (x / Pow2(k)) % 2
  }

  /** C's `a | b`, bit by bit from the least significant bit. */
  function Or(a: nat, b: nat): nat
    decreases a + b
  {
    if a == 0 then b
    else if b == 0 then a
    else 2 * Or(a / 2, b / 2) + (if a % 2 == 1 || b % 2 == 1 then 1 else 0)
  }

  /** C's `a & b`, bit by bit from the least significant bit. */
  function And(a: nat, b: nat): nat
    decreases a
  {
    if a == 0 || b == 0 then 0
    else 2 * And(a / 2, b / 2) + (a % 2) * (b % 2)
  }

  lemma Pow2Small()
    ensures Pow2(0) == 1 && Pow2(1) == 2 && Pow2(2) == 4 && Pow2(3) == 8
    ensures Pow2(4) == 16 && Pow2(5) == 32 && Pow2(6) == 64 && Pow2(7) == 128 && Pow2(8) == 256
  {
  }

  /** Dividing by `2^(k+1)` is halving and then dividing by `2^k`. */
  lemma DivHalf(x: nat, k: nat)
    ensures x / Pow2(k + 1) == (x / 2) / Pow2(k)
  {
    DivModDouble(x, Pow2(k));
  }

  lemma DivUnique(x: nat, p: nat, q: nat, r: nat)
    requires p > 0 && x == p * q + r && r < p
    ensures x / p == q && x % p == r
  {
    var q', r' := x / p, x % p;
    assert x == p * q' + r';
    assert p * (q - q') == r' - r;
    if q' < q {
      MulAtLeast(p, q - q');
    } else if q' > q {
      MulAtLeast(p, q' - q);
    }
  }

  lemma {:induction false} MulAtLeast(p: nat, d: int)
    requires d >= 1
    ensures p * d >= p
  {
    if d > 1 {
      MulAtLeast(p, d - 1);
      assert p * d == p * (d - 1) + p;
    }
  }

  /** Dividing by `2^(k+1)` is dividing by `2^k` and then halving. */
  lemma DivTwice(x: nat, k: nat)
    ensures x / Pow2(k + 1) == (x / Pow2(k)) / 2
  {
    var p := Pow2(k);
    var y, r := x / p, x % p;
    var q, b := y / 2, y % 2;
    assert x == p * y + r;
    assert p * y == (2 * p) * q + p * b by {
      assert y == 2 * q + b;
    }
    assert p * b + r < 2 * p by {
      if b == 1 { assert p * b == p; } else { assert p * b == 0; }
    }
    DivUnique(x, 2 * p, q, p * b + r);
  }

  /** ORing a fresh low bit `s` at position `k` under a value whose bits all
      sit above `k` adds it. */
  lemma OrFreshBit(x: nat, h: nat, s: nat, k: nat)
    requires s <= 1 && x == h * (2 * Pow2(k))
    ensures Or(x, s * Pow2(k)) == x + s * Pow2(k)
  {
    var p := Pow2(k);
    EvenMultipleBit(h, k);
    if s == 0 {
      assert s * p == 0;
      OrZero(x);
    } else {
      assert s * p == p;
      OrSetsClearBit(x, k);
    }
  }

  /** Bit `k` of an even multiple of `2^k` is clear. */
  lemma EvenMultipleBit(h: nat, k: nat)
    ensures Bit(h * (2 * Pow2(k)), k) == 0
  {
    var p := Pow2(k);
    assert h * (2 * p) == p * (2 * h);
    DivUnique(h * (2 * p), p, 2 * h, 0);
  }

  /** Taking the remainder off `b`, with either sign, leaves a multiple of `n`. */
  lemma DropRemainder(b: int, n: int, sign: int)
    requires n > 0 && (sign == 1 || sign == -1)
    ensures (sign * (b - b % n)) % n == 0
  {
    var q := b / n;
    assert b - b % n == n * q;
    assert sign * (n * q) == n * (sign * q);
    MultipleOf(sign * q, n);
  }

  /** A multiple of `n` leaves no remainder. */
  lemma MultipleOf(q: int, n: int)
    requires n > 0
    ensures (n * q) % n == 0
  {
    var x := n * q;
    var d := q - x / n;
    assert n * d == x % n;
    if d >= 1 {
      MulAtLeast(n, d);
    } else if d <= -1 {
      MulAtLeast(n, -d);
    }
  }

  lemma MulStrict(a: nat, b: nat, p: nat)
    requires a < b && p > 0
    ensures a * p < b * p
  {
    MulAtLeast(p, b - a);
    assert b * p == a * p + (b - a) * p;
  }

  /** `2^(a+b) = 2^a * 2^b`. */
  lemma {:induction false} Pow2Add(a: nat, b: nat)
    ensures Pow2(a + b) == Pow2(a) * Pow2(b)
  {
    if a > 0 {
      Pow2Add(a - 1, b);
      assert Pow2(a + b) == 2 * Pow2(a - 1 + b);
    }
  }

  /** Bit `k + 1` of `x` is bit `k` of `x / 2`. */
  lemma BitHalf(x: nat, k: nat)
    ensures Bit(x, k + 1) == Bit(x / 2, k)
  {
    DivHalf(x, k);
  }

  /** ORing `2^k` into a value whose bit `k` is clear adds `2^k`. */
  lemma {:induction false} OrSetsClearBit(x: nat, k: nat)
    requires Bit(x, k) == 0
    ensures Or(x, Pow2(k)) == x + Pow2(k)
  {
    if x == 0 {
    } else if k == 0 {
      assert x % 2 == 0;
      assert Or(x / 2, 0) == x / 2;
    } else {
      BitHalf(x, k - 1);
      OrSetsClearBit(x / 2, k - 1);
      assert Pow2(k) / 2 == Pow2(k - 1) && Pow2(k) % 2 == 0;
    }
  }

  /** ORing in zero changes nothing. */
  lemma OrZero(x: nat)
    ensures Or(x, 0) == x
  {
  }

  /** `x & (2^n - 1)` keeps the `n` low bits of `x`. */
  lemma {:induction false} AndLowMask(x: nat, n: nat)
    ensures And(x, Pow2(n) - 1) == x % Pow2(n)
  {
    if n == 0 {
      DivUnique(x, 1, x, 0);
    } else if x == 0 {
      DivUnique(0, Pow2(n), 0, 0);
    } else {
      var p := Pow2(n - 1);
      var m := 2 * p - 1;
      assert Pow2(n) - 1 == m;
      AndLowMask(x / 2, n - 1);
      OddMask(p);
      AndOddStep(x, m);
      DivModDouble(x, p);
    }
  }

  /** One step of `And`'s bit-by-bit recursion, for an odd mask. */
  lemma AndOddStep(a: nat, b: nat)
    requires a > 0 && b % 2 == 1
    ensures And(a, b) == 2 * And(a / 2, b / 2) + a % 2
  {
  }

  /** `2p - 1` is odd and halves to `p - 1`. */
  lemma OddMask(p: nat)
    requires p >= 1
    ensures (2 * p - 1) / 2 == p - 1 && (2 * p - 1) % 2 == 1
  {
    DivUnique(2 * p - 1, 2, p - 1, 1);
  }

  /** Quotient and remainder by `2p` in terms of those of `x / 2` by `p`. */
  lemma DivModDouble(x: nat, p: nat)
    requires p > 0
    ensures x / (2 * p) == (x / 2) / p
    ensures x % (2 * p) == 2 * ((x / 2) % p) + x % 2
  {
    var q, r := (x / 2) / p, (x / 2) % p;
    assert x / 2 == p * q + r && r < p;
    assert x == 2 * p * q + (2 * r + x % 2) && 2 * r + x % 2 < 2 * p;
    DivUnique(x, 2 * p, q, 2 * r + x % 2);
  }

  /** ANDing with an even mask clears bit 0 and halves both operands. */
  lemma AndEvenMask(x: nat, n: nat)
    ensures And(x, 2 * n) == 2 * And(x / 2, n)
  {
    if x > 0 && n > 0 {
      assert (2 * n) / 2 == n && (2 * n) % 2 == 0;
    }
  }

  /** ANDing with `0xF0` is ANDing with `0x0F` one nibble further down. */
  lemma AndHighMask(x: nat)
    ensures And(x, 0xF0) == 16 * And(x / 16, 0x0F)
  {
    AndEvenMask(x, 0x78);
    AndEvenMask(x / 2, 0x3C);
    AndEvenMask(x / 4, 0x1E);
    AndEvenMask(x / 8, 0x0F);
    assert x / 2 / 2 == x / 4 && x / 4 / 2 == x / 8 && x / 8 / 2 == x / 16;
  }

  /** `x & 0xF0`: the high nibble of a byte, in place. */
  lemma HighNibble(x: Byte)
    ensures And(x, 0xF0) == x / 16 * 16
  {
    AndHighMask(x);
    NibbleOfByte(x);
    LowNibbleMask(x / 16);
  }

  /** `(x << 4) & 0xF0`: the low nibble of a byte, moved to the high nibble. */
  lemma LowNibbleUp(x: Byte)
    ensures And(x * 16, 0xF0) == x % 16 * 16
  {
    AndHighMask(x * 16);
    assert x * 16 / 16 == x;
    LowNibbleMask(x);
  }

  /** `y & 0x0F` is `y % 16`. */
  lemma LowNibbleMask(y: nat)
    ensures And(y, 0x0F) == y % 16
  {
    Pow2Small();
    AndLowMask(y, 4);
  }

  /** The high nibble of a byte is below 16. */
  lemma NibbleOfByte(x: Byte)
    ensures x / 16 < 16 && (x / 16) % 16 == x / 16
  {
  }
}
