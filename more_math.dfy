/**
  The integer side of `MoreMath`: a 4096-entry sine table indexed by a
  masked angle, `cos` as a shifted look-up in the same table, `sign`,
  the `n & (n - 1)` power-of-two test and the shift loop that counts bits.
  The table values themselves (filled from `Math.sin`) are an arbitrary
  sequence of reals here; only which slot is read is modelled.
*/
module MoreMath {
  import opened JavaLang

  const TableSizeBits: nat := 12
  /** `1 << TABLE_SIZE_BITS` */
  const TableSize: nat := Pow2(TableSizeBits)
  const TableSizeMask: Int32 := 4095
  /** A quarter turn: `TABLE_SIZE / 4`. */
  const HalfPi: Int32 := 1024

  /** The sine table as `init` leaves it: 4096 entries. */
  type SinTable = t: seq<real> | |t| == 4096 witness seq(4096, i => 0.0)

  lemma TableConstants()
    ensures TableSize == 4096 && TableSizeMask == TableSize - 1 && HalfPi == TableSize / 4
  {
  }

  /** The slot `sin(angle)` reads: `angle & TABLE_SIZE_MASK`. */
  function SinIndex(angle: Int32): (i: int)
    ensures 0 <= i < 4096
  {
    BitAndBounded(Unsigned32(angle), Unsigned32(TableSizeMask));
    And32(angle, TableSizeMask)
  }

  /** The slot `cos(angle)` reads: `(HALF_PI - angle) & TABLE_SIZE_MASK`, in `int` arithmetic. */
  function CosIndex(angle: Int32): (i: int)
    ensures 0 <= i < 4096
  {
    SinIndex(ToInt(HalfPi - angle))
  }


  /** The mask keeps the angle modulo 4096, negative angles included. */
  lemma {:induction false} SinIndexIsMod(angle: Int32)
    ensures SinIndex(angle) == angle % 4096
  {
    var u := Unsigned32(angle);
    BitAndLowMask(u, 12);
    Pow2Values();
    if angle < 0 {
      ModOfShift(angle, 4096, 0x10_0000);
    }
  }

  /** The cosine slot is `(1024 - angle) mod 4096`, even where `HALF_PI - angle` overflows. */
  lemma CosIndexIsMod(angle: Int32)
    ensures CosIndex(angle) == (HalfPi - angle) % 4096
  {
    var x := HalfPi - angle;
    ToIntNear(x);
    SinIndexIsMod(ToInt(x));
    if x > MaxInt32 {
      ModOfShift(x, 4096, -0x10_0000);
    }
  }

  /** `sin(angle)`: the table entry of the angle taken modulo a full turn. */
  function Sin(table: SinTable, angle: Int32): (r: real)
    ensures r == table[angle % 4096]
  {
    SinIndexIsMod(angle);
    table[SinIndex(angle)]
  }

  /** `cos(angle)` is `sin(HALF_PI - angle)`: the entry a quarter turn back, modulo a full turn. */
  function Cos(table: SinTable, angle: Int32): (r: real)
    ensures r == table[(HalfPi - angle) % 4096]
  {
    CosIndexIsMod(angle);
    table[CosIndex(angle)]
  }

  /** Adding a full turn (with `int` wrap-around) leaves `sin` unchanged. */
  lemma SinPeriodic(table: SinTable, angle: Int32)
    ensures Sin(table, ToInt(angle + 4096)) == Sin(table, angle)
  {
    var x := angle + 4096;
    ToIntNear(x);
    SinIndexIsMod(angle);
    SinIndexIsMod(ToInt(x));
    ModOfShift(angle, 4096, 1);
    if x > MaxInt32 {
      ModOfShift(x, 4096, -0x10_0000);
    }
  }

  /** Adding a full turn (with `int` wrap-around) leaves `cos` unchanged. */
  lemma CosPeriodic(table: SinTable, angle: Int32)
    ensures Cos(table, ToInt(angle + 4096)) == Cos(table, angle)
  {
    var x := angle + 4096;
    ToIntNear(x);
    var b := ToInt(x);
    CosIndexIsMod(angle);
    CosIndexIsMod(b);
    ModOfShift(HalfPi - x, 4096, 1);
    if x > MaxInt32 {
      ModOfShift(HalfPi - x, 4096, 0x10_0000);
    }
  }

  /** `sign` of a `short`, `int` or `long` (each widens to `long` without loss). */
  function Sign(v: Int64): (r: Int32)
    ensures r == 1 <==> v > 0
    ensures r == -1 <==> v < 0
    ensures r == 0 <==> v == 0
  {
    if v > 0 then 1 else if v < 0 then -1 else 0
  }

  /** `isPowerOfTwo(n)`: `(n & (n - 1)) == 0`, with `n - 1` in `int` arithmetic. */
  predicate IsPowerOfTwo(n: Int32)
  {
    And32(n, ToInt(n - 1)) == 0
  }

  ghost predicate IsPow2(m: nat)
  {
    exists k: nat :: Pow2(k) == m
  }

  /**
    The bit trick is exact on positive numbers; as written it also accepts 0
    and `Integer.MIN_VALUE`, whose bit pattern is the single bit 2^31.
  */
  lemma IsPowerOfTwoMeaning(n: Int32)
    ensures IsPowerOfTwo(n) <==> n == 0 || n == MinInt32 || (n > 0 && IsPow2(n))
  {
    var u := Unsigned32(n);
    if n != 0 {
      assert Unsigned32(ToInt(n - 1)) == u - 1;
      BitAndBounded(u, u - 1);
      assert IsPowerOfTwo(n) <==> BitAnd(u, u - 1) == 0;
      PowerAndPredecessor(u);
      if n < 0 {
        Pow2InTopRange(u);
      }
    }
  }

  /** A positive m has no bit in common with m - 1 exactly when it is a power of two. */
  lemma {:induction false} PowerAndPredecessor(m: nat)
    requires m >= 1
    ensures BitAnd(m, m - 1) == 0 <==> IsPow2(m)
    decreases m
  {
    if m == 1 {
      assert Pow2(0) == 1;
    } else if m % 2 == 1 {
      BitAndSelf(m / 2);
      assert BitAnd(m, m - 1) == 2 * (m / 2);
      forall k: nat ensures Pow2(k) != m {
        if k > 0 {
          assert Pow2(k) == 2 * Pow2(k - 1);
        }
      }
    } else {
      var q := m / 2;
      assert (m - 1) / 2 == q - 1;
      assert BitAnd(m, m - 1) == 2 * BitAnd(q, q - 1);
      PowerAndPredecessor(q);
      if IsPow2(q) {
        var k: nat :| Pow2(k) == q;
        assert Pow2(k + 1) == m;
      }
      if IsPow2(m) {
        var k: nat :| Pow2(k) == m;
        assert k > 0;
        assert Pow2(k - 1) == q;
      }
    }
  }

  /** The only power of two in [2^31, 2^32) is 2^31. */
  lemma Pow2InTopRange(u: nat)
    requires 0x8000_0000 <= u < 0x1_0000_0000
    ensures IsPow2(u) <==> u == 0x8000_0000
  {
    Pow2Values();
    if IsPow2(u) {
      var k: nat :| Pow2(k) == u;
      if k < 31 {
        Pow2Monotone(k, 30);
      } else if k > 31 {
        Pow2Monotone(32, k);
      }
    }
  }

  lemma {:induction false} Pow2Monotone(j: nat, k: nat)
    requires j <= k
    ensures Pow2(j) <= Pow2(k)
    decreases k - j
  {
    if j < k {
      Pow2Monotone(j, k - 1);
    }
  }

  /** The number of 1 bits of a binary numeral, least significant bit first. */
  function BitCount(m: nat): nat
    decreases m
  {
    if m == 0 then 0 else m % 2 + BitCount(m / 2)
  }

  /** Bit k of m. */
  function Bit(m: nat, k: nat): nat
  {
    (m / Pow2(k)) % 2
  }

  /** How many of the bit positions below w are set. */
  function BitsSetBelow(m: nat, w: nat): nat
  {
    if w == 0 then 0 else BitsSetBelow(m, w - 1) + Bit(m, w - 1)
  }

  /**
    `getBitCount(n)`: while `n > 0`, add `n & 1` and shift `n` right by one.
    A negative `n` never enters the loop.
  */
  method GetBitCount(n: Int32) returns (count: Int32)
    ensures n >= 0 ==> count == BitCount(n) == BitsSetBelow(n, 31)
    ensures n < 0 ==> count == 0
    ensures 0 <= count <= 31
  {
    count := 0;
    var m := n;
    if n >= 0 {
      Pow2Values();
      BitCountBelow(n, 31);
      BitCountIsBitsSet(n, 31);
    }
    while m > 0
      invariant 0 <= m || m == n
      invariant m < 0 ==> count == 0
      invariant m >= 0 ==> n >= 0 && count + BitCount(m) == BitCount(n)
      invariant m >= 0 ==> BitCount(n) <= 31
      decreases m
    {
      var low := And32(m, 1);
      assert low == m % 2 by {
        BitAndLowMask(m, 1);
        Pow2Values();
      }
      count := count + low;
      m := m / 2;  // `n >>= 1` is an arithmetic shift: floor division by two
    }
  }

  /** A number below 2^w has at most w bits set. */
  lemma {:induction false} BitCountBelow(m: nat, w: nat)
    requires m < Pow2(w)
    ensures BitCount(m) <= w
    decreases w
  {
    if m > 0 {
      assert w > 0;
      BitCountBelow(m / 2, w - 1);
    }
  }

  /** BitCount counts exactly the set bit positions: for m < 2^w, it is the sum of bits 0 .. w-1. */
  lemma {:induction false} BitCountIsBitsSet(m: nat, w: nat)
    requires m < Pow2(w)
    ensures BitCount(m) == BitsSetBelow(m, w)
    decreases w
  {
    if w == 0 {
    } else {
      BitCountIsBitsSet(m / 2, w - 1);
      // BitsSetBelow(m, w) = Bit(m, 0) + BitsSetBelow(m / 2, w - 1)
      BitsSetShift(m, w - 1);
    }
  }

  /** Bits 1 .. w of m are bits 0 .. w-1 of m / 2. */
  lemma {:induction false} BitsSetShift(m: nat, w: nat)
    ensures BitsSetBelow(m, w + 1) == m % 2 + BitsSetBelow(m / 2, w)
    decreases w
  {
    if w == 0 {
      assert Bit(m, 0) == m % 2;
    } else {
      BitsSetShift(m, w - 1);
      BitOfHalf(m, w - 1);
    }
  }

  /** Bit k+1 of m is bit k of m / 2. */
  lemma BitOfHalf(m: nat, k: nat)
    ensures Bit(m, k + 1) == Bit(m / 2, k)
  {
    var p := Pow2(k);
    assert Pow2(k + 1) == 2 * p;
    DivDiv(m, p);
  }

  /** `m / (2p) == (m / 2) / p` */
  lemma DivDiv(m: nat, p: nat)
    requires p > 0
    ensures m / (2 * p) == (m / 2) / p
  {
    var h := m / 2;
    var q, r := h / p, h % p;
    assert h == q * p + r;
    assert m == 2 * h + m % 2;
    assert 2 * (q * p) == q * (2 * p);
    assert m == q * (2 * p) + (2 * r + m % 2);
    DivModUnique(m, 2 * p, q, 2 * r + m % 2);
  }

  /** For a positive `int`, the power-of-two test agrees with a bit count of one. */
  lemma PowerOfTwoHasOneBit(n: Int32)
    requires n > 0
    ensures IsPowerOfTwo(n) <==> BitCount(n) == 1
  {
    IsPowerOfTwoMeaning(n);
    OneBitIsPow2(n);
  }

  lemma {:induction false} OneBitIsPow2(m: nat)
    requires m >= 1
    ensures BitCount(m) == 1 <==> IsPow2(m)
    decreases m
  {
    if m == 1 {
      assert Pow2(0) == 1;
    } else if m % 2 == 1 {
      NoBitsIsZero(m / 2);
      forall k: nat ensures Pow2(k) != m {
        if k > 0 {
          assert Pow2(k) == 2 * Pow2(k - 1);
        }
      }
    } else {
      var q := m / 2;
      OneBitIsPow2(q);
      if IsPow2(q) {
        var k: nat :| Pow2(k) == q;
        assert Pow2(k + 1) == m;
      }
      if IsPow2(m) {
        var k: nat :| Pow2(k) == m;
        assert k > 0;
        assert Pow2(k - 1) == q;
      }
    }
  }

  lemma {:induction false} NoBitsIsZero(m: nat)
    ensures BitCount(m) == 0 <==> m == 0
    decreases m
  {
    if m > 0 && m % 2 == 0 {
      NoBitsIsZero(m / 2);
    }
  }
}
