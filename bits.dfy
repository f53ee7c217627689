/** Integer facts the cipher rests on: powers of two, Java's `&` and `|` on
    non-negative ints, 32-bit two's-complement wrap-around and signed bytes. */
module Bits {

  /** 2^32: the number of distinct values of a Java `int`. */
  const TWO_32: nat := 0x1_0000_0000

  /** A Java `byte`: a signed sample, -128..127. */
  newtype I8 = x: int | -128 <= x < 128

  // ---------------------------------------------------------------------------
  // Division and remainder

  /** Dafny's `/` and `%` are determined by the quotient-remainder equation. */
  lemma DivModUnique(x: int, d: int, q: int, t: int)
    requires d > 0 && 0 <= t < d && x == d * q + t
    ensures x / d == q && x % d == t
  {
    var k := q - x / d;
    assert d * k == x % d - t by {
      assert x == d * (x / d) + x % d;
      assert d * q - d * (x / d) == d * k;
    }
  }

  /** Taking the remainder by `2m` keeps the low bit and the remainder of `x / 2` by `m`. */
  lemma ModDouble(x: int, m: nat)
    requires m >= 1
    ensures x % (2 * m) == 2 * ((x / 2) % m) + x % 2
  {
    var q, b := x / 2, x % 2;
    var u, t := q / m, q % m;
    assert q == m * u + t;
    assert x == (2 * m) * u + (2 * t + b) by {
      assert x == 2 * q + b;
      assert 2 * (m * u) == (2 * m) * u;
    }
    DivModUnique(x, 2 * m, u, 2 * t + b);
  }

  /** Reducing modulo `n * k` first does not change the remainder modulo `n`. */
  lemma ModOfMultiple(x: int, n: nat, k: nat)
    requires n >= 1 && k >= 1
    ensures (x % (n * k)) % n == x % n
  {
    var nk := n * k;
    assert nk >= 1 by { assert n * k == n * (k - 1) + n; assert n * (k - 1) >= 0; }
    var q, t := x / nk, x % nk;
    var u, v := t / n, t % n;
    assert x == n * (k * q + u) + v by {
      assert x == nk * q + t;
      assert t == n * u + v;
      assert nk * q == n * (k * q);
      assert n * (k * q) + n * u == n * (k * q + u);
    }
    DivModUnique(x, n, k * q + u, v);
  }

  // ---------------------------------------------------------------------------
  // Powers of two

  /** 2^k. */
  function Pow2(k: nat): (p: nat)
    ensures p >= 1
  {
    if k == 0 then 1 else 2 * Pow2(k - 1)
  }

  predicate IsPowerOfTwo(n: nat)
  {
    if n == 1 then true else n >= 2 && n % 2 == 0 && IsPowerOfTwo(n / 2)
  }

  lemma {:induction false} Pow2IsPowerOfTwo(k: nat)
    ensures IsPowerOfTwo(Pow2(k))
  {
    if k > 0 {
      Pow2IsPowerOfTwo(k - 1);
      assert Pow2(k) / 2 == Pow2(k - 1);
    }
  }

  lemma {:induction false} Pow2Split(a: nat, b: nat)
    ensures Pow2(a + b) == Pow2(a) * Pow2(b)
  {
    if a > 0 {
      Pow2Split(a - 1, b);
      assert Pow2(a) * Pow2(b) == 2 * (Pow2(a - 1) * Pow2(b));
    }
  }

  lemma {:induction false} Pow2Monotone(a: nat, b: nat)
    requires a <= b
    ensures Pow2(a) <= Pow2(b)
  {
    if a < b {
      Pow2Monotone(a, b - 1);
    }
  }

  /** Every power of two is 2^k for some k. */
  lemma {:induction false} PowerOfTwoIsPow2(n: nat) returns (k: nat)
    requires IsPowerOfTwo(n)
    ensures Pow2(k) == n
    decreases n
  {
    if n == 1 {
      k := 0;
    } else {
      var j := PowerOfTwoIsPow2(n / 2);
      k := j + 1;
    }
  }

  lemma Pow2Of32()
    ensures Pow2(32) == TWO_32
  {
    Pow2OfByte();
    Pow2Split(8, 8);
    Pow2Split(16, 16);
  }

  /** Every power of two up to 2^32 divides 2^32. */
  lemma DividesTWO_32(n: nat) returns (k: nat)
    requires IsPowerOfTwo(n) && n <= TWO_32
    ensures TWO_32 == n * k
  {
    var e := PowerOfTwoIsPow2(n);
    Pow2Of32();
    if e > 32 {
      Pow2Monotone(33, e);
      assert false;
    }
    Pow2Split(e, 32 - e);
    k := Pow2(32 - e);
  }

  /** Of two distinct powers of two, the larger is at least twice the smaller. */
  lemma {:induction false} PowerOfTwoGap(p: nat, q: nat)
    requires IsPowerOfTwo(p) && IsPowerOfTwo(q) && p < q
    ensures 2 * p <= q
    decreases p
  {
    if p != 1 {
      PowerOfTwoGap(p / 2, q / 2);
    }
  }

  /** The largest power of two that does not exceed `n`; 0 when `n` is 0. */
  function Pow2Floor(n: nat): (p: nat)
    ensures n == 0 ==> p == 0
    ensures n >= 1 ==> 1 <= p <= n < 2 * p
  {
    if n <= 1 then n else 2 * Pow2Floor(n / 2)
  }

  lemma {:induction false} Pow2FloorIsPowerOfTwo(n: nat)
    requires n >= 1
    ensures IsPowerOfTwo(Pow2Floor(n))
  {
    if n > 1 {
      Pow2FloorIsPowerOfTwo(n / 2);
      var q := Pow2Floor(n / 2);
      assert Pow2Floor(n) == 2 * q;
      assert (2 * q) % 2 == 0 && (2 * q) / 2 == q;
    }
  }

  /** The bracket `p <= n < 2p` pins a power of two down. */
  lemma Pow2FloorUnique(n: nat, p: nat)
    requires IsPowerOfTwo(p) && p <= n < 2 * p
    ensures p == Pow2Floor(n)
  {
    var f := Pow2Floor(n);
    Pow2FloorIsPowerOfTwo(n);
    if p < f {
      PowerOfTwoGap(p, f);
    } else if f < p {
      PowerOfTwoGap(f, p);
    }
  }

  /** largestPowerOf2: the largest power of two not above `n`, or 0 when
      `n <= 0`. The loop guard is the overflow-free form of `power * 2 <= n`;
      see LargestPowerOf2AsWrittenNeverExits for the form the source uses. */
  method LargestPowerOf2(n: int) returns (power: nat)
    ensures n <= 0 ==> power == 0
    ensures n >= 1 ==> IsPowerOfTwo(power) && power <= n < 2 * power
    ensures n >= 0 ==> power == Pow2Floor(n)
  {
    if n <= 0 {
      return 0;
    }
    if n == 1 {
      return 1;
    }
    power := 1;
    while power <= n / 2
      invariant 1 <= power <= n && IsPowerOfTwo(power)
    {
      assert (power * 2) / 2 == power;
      power := power * 2;
    }
    Pow2FloorUnique(n, power);
  }

  // ---------------------------------------------------------------------------
  // Java `int` arithmetic

  /** The 32-bit pattern of a Java `int` holding (the wrap-around of) `x`, read unsigned. */
  function Wrap32(x: int): (u: nat)
    ensures u < TWO_32 && u % TWO_32 == x % TWO_32
  {
    x % TWO_32
  }

  /** Java's `int` value of the exact integer `x`: wrap-around to -2^31..2^31-1. */
  function Int32(x: int): (v: int)
    ensures -0x8000_0000 <= v < 0x8000_0000
  {
    (x + 0x8000_0000) % TWO_32 - 0x8000_0000
  }

  /** Adding `k` multiples of `a` adds `k` to the quotient and leaves the remainder. */
  lemma DivAddMultiple(x: int, a: nat, k: int)
    requires a >= 1
    ensures (x + a * k) / a == x / a + k && (x + a * k) % a == x % a
  {
    DivModUnique(x + a * k, a, x / a + k, x % a);
  }

  /** Adding a multiple of `n` does not change the remainder by `n`. */
  lemma ModAddMultiple(x: int, n: nat, m: int)
    requires n >= 1
    ensures (x + n * m) % n == x % n
  {
    assert x + n * m == n * (x / n + m) + x % n;
    DivModUnique(x + n * m, n, x / n + m, x % n);
  }

  /** Congruent values stay congruent under `a + _` and `_ * c`. */
  lemma ModCongruent(x: int, y: int, n: nat, a: int, c: int)
    requires n >= 1 && x % n == y % n
    ensures (a + x) % n == (a + y) % n && (x * c) % n == (y * c) % n
  {
    var m := x / n - y / n;
    assert x == y + n * m;
    ModAddMultiple(a + y, n, m);
    assert x * c == y * c + n * (m * c);
    ModAddMultiple(y * c, n, m * c);
  }

  /** Java's wrap-around keeps the remainder by any power of two up to 2^32. */
  lemma Int32Mod(x: int, n: nat)
    requires IsPowerOfTwo(n) && n <= TWO_32
    ensures Int32(x) % n == x % n
  {
    var k := DividesTWO_32(n);
    var q := (x + 0x8000_0000) / TWO_32;
    var t := (x + 0x8000_0000) % TWO_32;
    assert x + 0x8000_0000 == TWO_32 * q + t;
    assert Int32(x) == x + TWO_32 * (-q);
    assert TWO_32 * (-q) == n * (k * (-q));
    ModAddMultiple(x, n, k * (-q));
  }

  // ---------------------------------------------------------------------------
  // `&` and `|` on non-negative values

  /** Java's `a & b` for values whose bit patterns are `a` and `b`. */
  function BitAnd(a: nat, b: nat): nat
  {
    if a == 0 || b == 0 then 0
    else 2 * BitAnd(a / 2, b / 2) + (if a % 2 == 1 && b % 2 == 1 then 1 else 0)
  }

  /** Java's `a | b` for values whose bit patterns are `a` and `b`. */
  function BitOr(a: nat, b: nat): nat
  {
    if a == 0 then b
    else if b == 0 then a
    else 2 * BitOr(a / 2, b / 2) + (if a % 2 == 1 || b % 2 == 1 then 1 else 0)
  }

  /** One step of `&` against an odd mask `2m - 1`. */
  lemma BitAndOddMask(a: nat, m: nat)
    requires a != 0 && m >= 1
    ensures BitAnd(a, 2 * m - 1) == 2 * BitAnd(a / 2, m - 1) + a % 2
  {
    assert (2 * m - 1) / 2 == m - 1 && (2 * m - 1) % 2 == 1;
  }

  /** Multiplying by a non-negative number keeps order. */
  lemma MulMonotone(a: nat, b: nat, c: nat)
    requires a <= b
    ensures a * c <= b * c
  {
    assert b * c == a * c + (b - a) * c;
  }

  /** Dividing a non-negative number by a positive one gives a non-negative
      quotient no larger than the number. */
  lemma DivIsNat(v: nat, d: nat)
    requires d >= 1
    ensures 0 <= v / d <= v
  {
    var q, t := v / d, v % d;
    assert v == d * q + t && 0 <= t < d;
    if q >= 0 {
      MulMonotone(1, d, q);
    }
  }

  /** Masking with `N - 1` is reducing modulo `N` when `N` is a power of two. */
  lemma {:induction false} MaskIsMod(a: nat, n: nat)
    requires IsPowerOfTwo(n)
    ensures BitAnd(a, n - 1) == a % n
    decreases n
  {
    if n == 1 {
      assert BitAnd(a, 0) == 0;
    } else if a == 0 {
      assert BitAnd(0, n - 1) == 0;
    } else {
      var m := n / 2;
      assert n == 2 * m;
      MaskIsMod(a / 2, m);
      calc {
        BitAnd(a, n - 1);
        { BitAndOddMask(a, m); }
        2 * BitAnd(a / 2, m - 1) + a % 2;
        2 * ((a / 2) % m) + a % 2;
        { ModDouble(a, m); }
        a % (2 * m);
      }
    }
  }

  /** `x & (N - 1)` on a Java `int` is the Euclidean `x mod N` for a power of
      two `N` up to 2^31, whatever the sign of `x` and however it wrapped. */
  lemma MaskedIntIsMod(x: int, n: nat)
    requires IsPowerOfTwo(n) && n <= 0x8000_0000
    ensures BitAnd(Wrap32(x), n - 1) == x % n
  {
    MaskIsMod(Wrap32(x), n);
    var k := DividesTWO_32(n);
    ModOfMultiple(x, n, k);
  }

  /** `v & 0xFE` clears the low bit of a byte value. */
  lemma ClearLowBit(v: nat)
    requires v < 256
    ensures BitAnd(v, 0xFE) == v - v % 2
  {
    if v != 0 {
      MaskIsMod(v / 2, 128);
    }
  }

  /** `a | b` adds a single bit `b` to an even `a`. */
  lemma SetLowBit(a: nat, b: nat)
    requires a % 2 == 0 && b <= 1
    ensures BitOr(a, b) == a + b
  {
  }

  /** `r | (1 << i)` adds 2^i to an `r` below 2^i. */
  lemma {:induction false} SetHighBit(r: nat, i: nat)
    requires r < Pow2(i)
    ensures BitOr(r, Pow2(i)) == r + Pow2(i)
  {
    if r != 0 {
      assert i >= 1;
      SetHighBit(r / 2, i - 1);
    }
  }

  /** `b & 0xFF` on a Java byte: its sample value 0..255. */
  function U8(b: I8): (v: nat)
    ensures v < 256 && v == (b as int) % 256
  {
    MaskedIntIsMod(b as int, 256);
    BitAnd(Wrap32(b as int), 0xFF)
  }

  /** The unsigned value of a byte: negative bytes stand for 128..255. */
  lemma U8Value(b: I8)
    ensures U8(b) == if b < 0 then b as int + 256 else b as int
  {
    if b < 0 {
      DivModUnique(b as int, 256, -1, b as int + 256);
    } else {
      DivModUnique(b as int, 256, 0, b as int);
    }
  }

  /** The Java byte that an 8-bit sample value 0..255 is stored as. */
  function ToI8(v: nat): (b: I8)
    requires v < 256
    ensures U8(b) == v
  {
    var b: I8 := if v < 128 then v as I8 else (v - 256) as I8;
    assert (b as int) % 256 == v;
    b
  }

  /** One pass of largestPowerOf2's loop as the source writes it,
      `while (power * 2 <= n) power *= 2;`, with the product computed in
      32-bit `int` arithmetic; a pass whose guard fails leaves `power`. */
  function AsWrittenStep(n: int, p: int): int
  {
    if Int32(p * 2) <= n then Int32(p * 2) else p
  }

  /** The value of `power` after `k` passes of that loop. */
  function AsWrittenPower(n: int, k: nat): int
  {
    if k == 0 then 1 else AsWrittenStep(n, AsWrittenPower(n, k - 1))
  }

  lemma Pow2OfByte()
    ensures Pow2(6) == 64 && Pow2(7) == 128 && Pow2(8) == 256
  {
    assert Pow2(1) == 2;
    assert Pow2(2) == 4;
    assert Pow2(3) == 8;
    assert Pow2(4) == 16;
    assert Pow2(5) == 32;
    assert Pow2(6) == 64;
  }

  lemma Pow2Of30()
    ensures Pow2(30) == 0x4000_0000
  {
    Pow2OfByte();
    Pow2Split(8, 8);
    Pow2Split(16, 8);
    Pow2Split(24, 6);
  }

  lemma Int32Identity(x: int)
    requires -0x8000_0000 <= x < 0x8000_0000
    ensures Int32(x) == x
  {
    DivModUnique(x + 0x8000_0000, TWO_32, 0, x + 0x8000_0000);
  }

  /** The values `power` takes in the source's loop once `n >= 2^30`. */
  lemma {:induction false} AsWrittenPowerValues(n: int, k: nat)
    requires 0x4000_0000 <= n < 0x8000_0000
    ensures k <= 30 ==> AsWrittenPower(n, k) == Pow2(k)
    ensures k == 31 ==> AsWrittenPower(n, k) == -0x8000_0000
    ensures k >= 32 ==> AsWrittenPower(n, k) == 0
  {
    if k > 0 {
      AsWrittenPowerValues(n, k - 1);
      var p := AsWrittenPower(n, k - 1);
      assert AsWrittenPower(n, k) == AsWrittenStep(n, p);
      if k <= 30 {
        assert p * 2 == Pow2(k);
        Pow2Monotone(k, 30);
        Pow2Of30();
        Int32Identity(p * 2);
      } else if k == 31 {
        Pow2Of30();
        assert p * 2 == 0x8000_0000;
        assert Int32(0x8000_0000) == -0x8000_0000;
      } else if k == 32 {
        assert p * 2 == -0x1_0000_0000;
        assert Int32(-0x1_0000_0000) == 0;
      } else {
        assert p * 2 == 0;
        assert Int32(0) == 0;
      }
    }
  }

  /** For every `n` from 2^30 to `Integer.MAX_VALUE` the guard of the source's
      loop holds after any number of passes, so the loop never exits: `power`
      climbs to 2^30, doubles to `Integer.MIN_VALUE`, then to 0, and 0 <= n. */
  lemma LargestPowerOf2AsWrittenNeverExits(n: int, k: nat)
    requires 0x4000_0000 <= n < 0x8000_0000
    ensures Int32(AsWrittenPower(n, k) * 2) <= n
  {
    AsWrittenPowerValues(n, k);
    var p := AsWrittenPower(n, k);
    Pow2Of30();
    if k <= 29 {
      Pow2Monotone(k + 1, 30);
      Int32Identity(p * 2);
    } else if k == 30 {
      assert Int32(p * 2) == -0x8000_0000;
    } else if k == 31 {
      assert Int32(p * 2) == 0;
    } else {
      assert Int32(p * 2) == 0;
    }
  }
}
