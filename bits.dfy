/**
 * Machine words and the bit-manipulation macros of the simulator
 * (BIT_GET, BIT_SET, GET_MASK, BITS_GET, BITS_SET).
 *
 * Words are modelled as bounded naturals. The C operators are defined on
 * naturals: `x & y` is And, `x | y` is Or, `~x` on 32 bits is Not32,
 * `x << m` is Shl and `x >> m` is Shr. `Bit(x, k)` is the bit view in which
 * the effect of the macros on each bit position is stated.
 */
module Bits {

  type u8 = x: int | 0 <= x < 0x100
  type u32 = x: int | 0 <= x < 0x1_0000_0000
  type u64 = x: int | 0 <= x < 0x1_0000_0000_0000_0000
  type int8 = x: int | -0x80 <= x < 0x80
  type int32 = x: int | -0x8000_0000 <= x < 0x8000_0000

  /** The moduli of 32- and 64-bit unsigned arithmetic. */
  const U32: nat := 0x1_0000_0000
  const U64: nat := 0x1_0000_0000_0000_0000

  /** x + 1 in uint64_t arithmetic: past the largest value it wraps to 0. */
  function Inc64(x: u64): u64
  {
    if x == U64 - 1 then 0 else x + 1
  }

  /** n increments of x in uint64_t arithmetic. */
  function Inc64Times(x: u64, n: nat): u64
  {
    if n == 0 then x else Inc64(Inc64Times(x, n - 1))
  }

  function Pow2(n: nat): (r: nat)
    ensures r >= 1
  {
    if n == 0 then 1 else 2 * Pow2(n - 1)
  }

  /** Bit k of x (bit 0 is the least significant one). */
  predicate Bit(x: nat, k: nat)
  {
    if k == 0 then x % 2 == 1 else Bit(x / 2, k - 1)
  }

  /** `x & y` on non-negative operands. */
  function And(x: nat, y: nat): (r: nat)
    ensures r <= x && r <= y
    decreases x
  {
    if x == 0 || y == 0 then 0
    else 2 * And(x / 2, y / 2) + (if x % 2 == 1 && y % 2 == 1 then 1 else 0)
  }

  /** `x | y` on non-negative operands. */
  function Or(x: nat, y: nat): (r: nat)
    ensures x <= r <= x + y && y <= r
    decreases x + y
  {
    if x == 0 then y
    else if y == 0 then x
    else 2 * Or(x / 2, y / 2) + (if x % 2 == 1 || y % 2 == 1 then 1 else 0)
  }

  /** `~x` on a 32-bit unsigned word. */
  function Not32(x: u32): u32
  {
    0xFFFF_FFFF - x
  }

  /** `x << m` (without truncation; callers bound the result). */
  function Shl(x: nat, m: nat): nat
  {
    if m == 0 then x else 2 * Shl(x, m - 1)
  }

  /** `x >> m` on a non-negative operand. */
  function Shr(x: nat, m: nat): (r: nat)
    ensures r <= x
  {
    if m == 0 then x else Shr(x / 2, m - 1)
  }

  // ---------------------------------------------------------------------
  // The macros of sim/orionsim.cc. The shift `1 << n` is on a C `int`, so
  // the source only defines them while that shift stays below bit 31.

  /** BIT_GET(x, n): x & (1 << n); non-zero exactly when bit n of x is set. */
  function BitGet(x: u32, n: nat): (r: u32)
    requires n < 31
    ensures r != 0 <==> Bit(x, n)
    ensures r == 0 || r == Pow2(n)
  {
    AndPow2(x, n);
    And(x, Shl(1, n))
  }

  /** BIT_SET(x, n, v): bit n becomes v, every other bit keeps its value. */
  function BitSet(x: u32, n: nat, v: bool): (r: u32)
    requires n < 31
    ensures forall k :: 0 <= k < 32 ==> (Bit(r, k) <==> (if k == n then v else Bit(x, k)))
  {
    BitSetBits(x, n, v);
    if v then Or(x, Shl(1, n)) else And(x, Not32(Shl(1, n)))
  }

  /** GET_MASK(n, m): ones in bit positions m..n and nowhere else. */
  function GetMask(n: nat, m: nat): (r: u32)
    requires m <= n < 31
    ensures forall k: nat :: Bit(r, k) <==> m <= k <= n
  {
    ShlOne(n - m + 1);
    var mask := Shl(Shl(1, n - m + 1) - 1, m);
    GetMaskBits(n, m, mask);
    mask
  }

  /** BITS_GET(x, n, m): (GET_MASK(n, m) & x) >> m. */
  function BitsGet(x: u32, n: nat, m: nat): (r: u32)
    requires m <= n < 31
  {
    Shr(And(GetMask(n, m), x), m)
  }

  /** BITS_SET(x, n, m, v): GET_MASK(n, m) & (v << m) | (x & ~GET_MASK(n, m)). */
  function BitsSet(x: u32, n: nat, m: nat, v: nat): (r: u32)
    requires m <= n < 31
    requires Shl(v, m) < 0x8000_0000
  {
    var a := And(GetMask(n, m), Shl(v, m));
    var b := And(x, Not32(GetMask(n, m)));
    Pow2Values();
    OrBelow(a, b, 32);
    Or(a, b)
  }

  // ---------------------------------------------------------------------
  // Properties of the macros.

  /** BITS_GET(x, n, m) is the field x[n:m]: x shifted right m places, reduced to n-m+1 bits. */
  lemma BitsGetIsField(x: u32, n: nat, m: nat)
    requires m <= n < 31
    ensures BitsGet(x, n, m) == Shr(x, m) % Pow2(n - m + 1)
  {
    var w := n - m + 1;
    var field := Shr(x, m) % Pow2(w);
    forall k: nat ensures Bit(BitsGet(x, n, m), k) <==> Bit(field, k) {
      BitShr(And(GetMask(n, m), x), m, k);
      BitAnd(GetMask(n, m), x, k + m);
      BitMod(Shr(x, m), w, k);
      BitShr(x, m, k);
    }
    BitsExt(BitsGet(x, n, m), field);
  }

  /** BIT_SET(x, n, false) clears bit n and leaves every other bit of x as it was;
      arithmetically, it subtracts 2^n exactly when bit n was set. */
  lemma BitClearOnlyBitN(x: u32, n: nat)
    requires n < 31
    ensures !Bit(BitSet(x, n, false), n)
    ensures forall k :: 0 <= k < 32 && k != n ==> (Bit(BitSet(x, n, false), k) <==> Bit(x, k))
    ensures BitSet(x, n, false) == if Bit(x, n) then x - Pow2(n) else x
  {
    var r := BitSet(x, n, false);
    Pow2Values();
    if Bit(x, n) {
      BitSetMeansGe(x, n);
      forall k | 0 <= k < 32 ensures Bit(r, k) <==> Bit(x - Pow2(n), k) {
        BitSubPow2(x, n, k);
      }
      WordExt(r, x - Pow2(n), 32);
    } else {
      WordExt(r, x, 32);
    }
  }

  /** Reading back the field that BITS_SET wrote gives v reduced to the field width,
      and every bit outside the field is unchanged. */
  lemma BitsSetThenGet(x: u32, n: nat, m: nat, v: nat)
    requires m <= n < 31
    requires Shl(v, m) < 0x8000_0000
    ensures BitsGet(BitsSet(x, n, m, v), n, m) == v % Pow2(n - m + 1)
    ensures forall k :: 0 <= k < 32 && !(m <= k <= n) ==> (Bit(BitsSet(x, n, m, v), k) <==> Bit(x, k))
  {
    var w := n - m + 1;
    var r := BitsSet(x, n, m, v);
    forall k | 0 <= k < 32 && !(m <= k <= n) ensures Bit(r, k) <==> Bit(x, k) {
      BitsSetBit(x, n, m, v, k);
    }
    BitsGetIsField(r, n, m);
    var got := Shr(r, m) % Pow2(w);
    forall k: nat ensures Bit(got, k) <==> Bit(v % Pow2(w), k) {
      BitMod(Shr(r, m), w, k);
      BitShr(r, m, k);
      BitMod(v, w, k);
      if k < w {
        BitsSetBit(x, n, m, v, k + m);
        BitShl(v, m, k + m);
      }
    }
    BitsExt(got, v % Pow2(w));
  }

  lemma BitsSetBit(x: u32, n: nat, m: nat, v: nat, k: nat)
    requires m <= n < 31
    requires Shl(v, m) < 0x8000_0000
    requires k < 32
    ensures Bit(BitsSet(x, n, m, v), k) <==> (if m <= k <= n then Bit(Shl(v, m), k) else Bit(x, k))
  {
    var mask := GetMask(n, m);
    BitOr(And(mask, Shl(v, m)), And(x, Not32(mask)), k);
    BitAnd(mask, Shl(v, m), k);
    BitAnd(x, Not32(mask), k);
    BitNot32(mask, k);
  }

  lemma BitSetBits(x: u32, n: nat, v: bool)
    requires n < 31
    ensures Shl(1, n) < 0x1_0000_0000
    ensures var r := if v then Or(x, Shl(1, n)) else And(x, Not32(Shl(1, n)));
      r < 0x1_0000_0000 &&
      forall k :: 0 <= k < 32 ==> (Bit(r, k) <==> (if k == n then v else Bit(x, k)))
  {
    ShlOne(n);
    Pow2Lt32(n);
    Pow2Values();
    if v {
      OrBelow(x, Pow2(n), 32);
      forall k | 0 <= k < 32 ensures Bit(Or(x, Pow2(n)), k) <==> (if k == n then v else Bit(x, k)) {
        BitOr(x, Pow2(n), k);
        BitPow2(n, k);
      }
    } else {
      forall k | 0 <= k < 32 ensures Bit(And(x, Not32(Pow2(n))), k) <==> (if k == n then v else Bit(x, k)) {
        BitAnd(x, Not32(Pow2(n)), k);
        BitNot32(Pow2(n), k);
        BitPow2(n, k);
      }
    }
  }

  lemma GetMaskBits(n: nat, m: nat, mask: int)
    requires m <= n < 31
    requires Shl(1, n - m + 1) >= 1 && mask == Shl(Shl(1, n - m + 1) - 1, m)
    ensures 0 <= mask < 0x8000_0000
    ensures forall k: nat :: Bit(mask, k) <==> m <= k <= n
  {
    var w := n - m + 1;
    ShlOne(w);
    forall k: nat ensures Bit(mask, k) <==> m <= k <= n {
      BitShl(Pow2(w) - 1, m, k);
      if m <= k {
        LowMaskBit(w, k - m);
      }
    }
    BitsBelow(mask, 31);
    Pow2Values();
  }

  // ---------------------------------------------------------------------
  // Arithmetic helpers.

  lemma MulLe(d: int, a: int, b: int)
    requires d >= 0 && a <= b
    ensures d * a <= d * b
  {
    assert d * b - d * a == d * (b - a);
  }

  /** Quotient and remainder are determined by x == d * q + r with 0 <= r < d. */
  lemma DivModUnique(x: int, d: int, q: int, r: int)
    requires d > 0 && 0 <= r < d && x == d * q + r
    ensures x / d == q && x % d == r
  {
    var q', r' := x / d, x % d;
    assert x == d * q' + r';
    if q' < q {
      MulLe(d, q' + 1, q);
      assert false;
    } else if q < q' {
      MulLe(d, q + 1, q');
      assert false;
    }
  }

  /** Dividing by a * p is dividing by a and then by p; the remainder splits the same way. */
  lemma DivModNest(x: nat, a: nat, p: nat)
    requires a > 0 && p > 0
    ensures x / (a * p) == (x / a) / p
    ensures x % (a * p) == a * ((x / a) % p) + x % a
  {
    var q := (x / a) / p;
    var r := (x / a) % p;
    assert x / a == p * q + r;
    assert x == a * (x / a) + x % a;
    assert x == (a * p) * q + (a * r + x % a) by {
      assert a * (p * q + r) == (a * p) * q + a * r;
    }
    MulLe(a, r, p - 1);
    assert a * (p - 1) == a * p - a;
    DivModUnique(x, a * p, q, a * r + x % a);
  }

  lemma DivHalf(x: nat, p: nat)
    requires p > 0
    ensures x / (2 * p) == (x / 2) / p
  {
    var q := (x / 2) / p;
    var r := (x / 2) % p;
    assert x / 2 == p * q + r;
    assert x == (2 * p) * q + (2 * r + x % 2);
    DivModUnique(x, 2 * p, q, 2 * r + x % 2);
  }

  lemma ModHalf(x: nat, p: nat)
    requires p > 0
    ensures (x % (2 * p)) / 2 == (x / 2) % p
    ensures (x % (2 * p)) % 2 == x % 2
  {
    var q := x / (2 * p);
    var s := x % (2 * p);
    assert x == (2 * p) * q + s;
    assert x == 2 * (p * q + s / 2) + s % 2;
    DivModUnique(x, 2, p * q + s / 2, s % 2);
    DivModUnique(x / 2, p, q, s / 2);
  }

  lemma Pow2Add(a: nat, b: nat)
    ensures Pow2(a + b) == Pow2(a) * Pow2(b)
  {
    if a > 0 {
      Pow2Add(a - 1, b);
    }
  }

  lemma Pow2Mono(a: nat, b: nat)
    requires a <= b
    ensures Pow2(a) <= Pow2(b)
  {
    if a < b {
      Pow2Mono(a, b - 1);
    }
  }

  lemma Pow2Values()
    ensures Pow2(8) == 0x100 && Pow2(16) == 0x1_0000 && Pow2(31) == 0x8000_0000
    ensures Pow2(32) == 0x1_0000_0000 && Pow2(64) == 0x1_0000_0000_0000_0000
  {
    Pow2Add(16, 16);
    Pow2Add(31, 1);
    Pow2Add(32, 32);
  }

  lemma Pow2Lt32(n: nat)
    requires n < 32
    ensures Pow2(n) < 0x1_0000_0000
  {
    Pow2Mono(n + 1, 32);
    Pow2Values();
  }

  /** `1 << n` is 2^n. */
  lemma ShlOne(n: nat)
    ensures Shl(1, n) == Pow2(n)
  {
    if n > 0 {
      ShlOne(n - 1);
    }
  }

  /** `x << m` is x * 2^m. */
  lemma ShlIsMul(x: nat, m: nat)
    ensures Shl(x, m) == x * Pow2(m)
  {
    if m > 0 {
      ShlIsMul(x, m - 1);
      assert x * Pow2(m) == 2 * (x * Pow2(m - 1));
    }
  }

  /** Shifting right by a and then by b is shifting right by a + b. */
  lemma ShrAdd(x: nat, a: nat, b: nat)
    ensures Shr(x, a + b) == Shr(Shr(x, a), b)
  {
    if a > 0 {
      ShrAdd(x / 2, a - 1, b);
    }
  }

  /** `x >> m` is x / 2^m. */
  lemma ShrIsDiv(x: nat, m: nat)
    ensures Shr(x, m) == x / Pow2(m)
  {
    if m > 0 {
      ShrIsDiv(x / 2, m - 1);
      DivHalf(x, Pow2(m - 1));
    }
  }

  // ---------------------------------------------------------------------
  // The bit view: how Bit interacts with the operators.

  lemma BitZero(k: nat)
    ensures !Bit(0, k)
  {
    if k > 0 {
      BitZero(k - 1);
    }
  }

  lemma BitPow2(n: nat, k: nat)
    ensures Bit(Pow2(n), k) <==> k == n
  {
    if k == 0 {
    } else if n == 0 {
      BitZero(k - 1);
    } else {
      BitPow2(n - 1, k - 1);
    }
  }

  lemma BitAnd(x: nat, y: nat, k: nat)
    ensures Bit(And(x, y), k) <==> Bit(x, k) && Bit(y, k)
    decreases k
  {
    if x == 0 || y == 0 {
      BitZero(k);
    } else if k > 0 {
      BitAnd(x / 2, y / 2, k - 1);
    }
  }

  lemma BitOr(x: nat, y: nat, k: nat)
    ensures Bit(Or(x, y), k) <==> Bit(x, k) || Bit(y, k)
    decreases k
  {
    if x == 0 || y == 0 {
      BitZero(k);
    } else if k > 0 {
      BitOr(x / 2, y / 2, k - 1);
    }
  }

  /** Shifting right m places moves bit k + m to bit k. */
  lemma BitShr(x: nat, m: nat, k: nat)
    ensures Bit(Shr(x, m), k) <==> Bit(x, k + m)
  {
    if m > 0 {
      BitShr(x / 2, m - 1, k);
    }
  }

  /** Shifting left m places moves bit k - m to bit k. */
  lemma BitShl(x: nat, m: nat, k: nat)
    ensures Bit(Shl(x, m), k) <==> m <= k && Bit(x, k - m)
  {
    if m > 0 && k > 0 {
      BitShl(x, m - 1, k - 1);
    }
  }

  /** Bits at or above w of a number below 2^w are clear. */
  lemma BitBound(x: nat, w: nat, k: nat)
    requires x < Pow2(w) && w <= k
    ensures !Bit(x, k)
  {
    if w == 0 {
      BitZero(k);
    } else {
      BitBound(x / 2, w - 1, k - 1);
    }
  }

  /** A number whose bits at or above w are clear is below 2^w. */
  lemma BitsBelow(x: nat, w: nat)
    requires forall k: nat :: w <= k ==> !Bit(x, k)
    ensures x < Pow2(w)
  {
    if w == 0 {
      forall k: nat ensures Bit(x, k) <==> Bit(0, k) {
        BitZero(k);
      }
      BitsExt(x, 0);
    } else {
      forall k: nat | w - 1 <= k ensures !Bit(x / 2, k) {
        assert !Bit(x, k + 1);
      }
      BitsBelow(x / 2, w - 1);
    }
  }

  /** Two numbers with the same bits are equal. */
  lemma BitsExt(x: nat, y: nat)
    requires forall k: nat :: Bit(x, k) <==> Bit(y, k)
    ensures x == y
    decreases x + y
  {
    assert Bit(x, 0) <==> Bit(y, 0);
    if x + y > 0 {
      forall k: nat ensures Bit(x / 2, k) <==> Bit(y / 2, k) {
        assert Bit(x, k + 1) <==> Bit(y, k + 1);
      }
      BitsExt(x / 2, y / 2);
    }
  }

  /** Two w-bit numbers with the same low w bits are equal. */
  lemma WordExt(x: nat, y: nat, w: nat)
    requires x < Pow2(w) && y < Pow2(w)
    requires forall k :: 0 <= k < w ==> (Bit(x, k) <==> Bit(y, k))
    ensures x == y
  {
    forall k: nat ensures Bit(x, k) <==> Bit(y, k) {
      if k >= w {
        BitBound(x, w, k);
        BitBound(y, w, k);
      }
    }
    BitsExt(x, y);
  }

  /** Reducing modulo 2^w keeps exactly the bits below w. */
  lemma BitMod(x: nat, w: nat, k: nat)
    ensures Bit(x % Pow2(w), k) <==> k < w && Bit(x, k)
  {
    if w == 0 {
      BitZero(k);
    } else {
      ModHalf(x, Pow2(w - 1));
      if k > 0 {
        BitMod(x / 2, w - 1, k - 1);
      }
    }
  }

  /** The bits of 2^w - 1 are the positions below w. */
  lemma LowMaskBit(w: nat, k: nat)
    ensures Bit(Pow2(w) - 1, k) <==> k < w
  {
    if w == 0 {
      BitZero(k);
    } else if k > 0 {
      assert (Pow2(w) - 1) / 2 == Pow2(w - 1) - 1;
      LowMaskBit(w - 1, k - 1);
    }
  }

  /** `x & (2^w - 1)` is x modulo 2^w. */
  lemma AndLowMask(x: nat, w: nat)
    ensures And(x, Pow2(w) - 1) == x % Pow2(w)
  {
    forall k: nat ensures Bit(And(x, Pow2(w) - 1), k) <==> Bit(x % Pow2(w), k) {
      BitAnd(x, Pow2(w) - 1, k);
      LowMaskBit(w, k);
      BitMod(x, w, k);
    }
    BitsExt(And(x, Pow2(w) - 1), x % Pow2(w));
  }

  /** The bits of ~x on 32 bits. */
  lemma BitNot32(x: u32, k: nat)
    requires k < 32
    ensures Bit(Not32(x), k) <==> !Bit(x, k)
  {
    Pow2Values();
    BitNotW(x, 32, k);
  }

  lemma BitNotW(x: nat, w: nat, k: nat)
    requires x < Pow2(w) && k < w
    ensures Bit(Pow2(w) - 1 - x, k) <==> !Bit(x, k)
  {
    if k > 0 {
      assert (Pow2(w) - 1 - x) / 2 == Pow2(w - 1) - 1 - x / 2;
      BitNotW(x / 2, w - 1, k - 1);
    }
  }

  /** x & (1 << n) is 2^n when bit n is set and 0 otherwise. */
  lemma AndPow2(x: nat, n: nat)
    ensures And(x, Shl(1, n)) == if Bit(x, n) then Pow2(n) else 0
  {
    ShlOne(n);
    var e := if Bit(x, n) then Pow2(n) else 0;
    forall k: nat ensures Bit(And(x, Pow2(n)), k) <==> Bit(e, k) {
      BitAnd(x, Pow2(n), k);
      BitPow2(n, k);
      BitZero(k);
    }
    BitsExt(And(x, Pow2(n)), e);
  }

  lemma BitSetMeansGe(x: nat, n: nat)
    requires Bit(x, n)
    ensures x >= Pow2(n)
  {
    if x < Pow2(n) {
      BitBound(x, n, n);
    }
  }

  /** Subtracting 2^n from a number whose bit n is set clears exactly that bit. */
  lemma BitSubPow2(x: nat, n: nat, k: nat)
    requires Bit(x, n)
    ensures x >= Pow2(n)
    ensures Bit(x - Pow2(n), k) <==> (k != n && Bit(x, k))
  {
    BitSetMeansGe(x, n);
    if n == 0 {
      if k > 0 {
        assert (x - 1) / 2 == x / 2;
      }
    } else {
      assert (x - Pow2(n)) % 2 == x % 2;
      if k > 0 {
        assert (x - Pow2(n)) / 2 == x / 2 - Pow2(n - 1);
        BitSubPow2(x / 2, n - 1, k - 1);
      }
    }
  }

  /** If x and y are below 2^w, so is x | y. */
  lemma OrBelow(x: nat, y: nat, w: nat)
    requires x < Pow2(w) && y < Pow2(w)
    ensures Or(x, y) < Pow2(w)
  {
    if x != 0 && y != 0 {
      OrBelow(x / 2, y / 2, w - 1);
    }
  }

  /** `(hi << w) | lo` is hi * 2^w + lo when lo fits in w bits. */
  lemma OrShiftedHigh(hi: nat, lo: nat, w: nat)
    requires lo < Pow2(w)
    ensures Or(Shl(hi, w), lo) == hi * Pow2(w) + lo
  {
    ShlIsMul(hi, w);
    var z := hi * Pow2(w) + lo;
    DivModUnique(z, Pow2(w), hi, lo);
    forall k: nat ensures Bit(Or(Shl(hi, w), lo), k) <==> Bit(z, k) {
      BitOr(Shl(hi, w), lo, k);
      BitShl(hi, w, k);
      if k < w {
        BitMod(z, w, k);
      } else {
        BitBound(lo, w, k);
        BitShr(z, w, k - w);
        ShrIsDiv(z, w);
      }
    }
    BitsExt(Or(Shl(hi, w), lo), z);
  }

  /** Numbers that agree on their low w bits agree modulo 2^w. */
  lemma ModFromBits(x: nat, y: nat, w: nat)
    requires forall k :: 0 <= k < w ==> (Bit(x, k) <==> Bit(y, k))
    ensures x % Pow2(w) == y % Pow2(w)
  {
    forall k: nat ensures Bit(x % Pow2(w), k) <==> Bit(y % Pow2(w), k) {
      BitMod(x, w, k);
      BitMod(y, w, k);
    }
    BitsExt(x % Pow2(w), y % Pow2(w));
  }

  /** n wrapping increments add n modulo 2^64. */
  lemma {:induction false} Inc64TimesIsMod(x: u64, n: nat)
    ensures Inc64Times(x, n) == (x + n) % U64
  {
    if n > 0 {
      Inc64TimesIsMod(x, n - 1);
      var q, y := (x + n - 1) / U64, (x + n - 1) % U64;
      if y == U64 - 1 {
        DivModUnique(x + n, U64, q + 1, 0);
      } else {
        DivModUnique(x + n, U64, q, y + 1);
      }
    }
  }
}
