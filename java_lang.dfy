/**
  The parts of the Java platform that the modelled classes lean on: the
  primitive integer types and the narrowing casts between them, the bitwise
  AND of two `int`s, `String.toLowerCase`, `Integer.parseInt` and
  `Integer.toString`.  Java's fixed-width integers are subset types of `int`;
  every wrap-around is written out as a cast function.
*/
module JavaLang {

  /** A reference that may be `null`. */
  datatype Option<T> = None | Some(value: T)

  type Int8 = x: int | -0x80 <= x < 0x80
  type Int16 = x: int | -0x8000 <= x < 0x8000
  type Int32 = x: int | -0x8000_0000 <= x < 0x8000_0000
  type Int64 = x: int | -0x8000_0000_0000_0000 <= x < 0x8000_0000_0000_0000
  /** A Java `char`: one unsigned 16-bit UTF-16 code unit. */
  type Char16 = c: int | 0 <= c < 0x1_0000

  const MinInt32: Int32 := -0x8000_0000
  const MaxInt32: Int32 := 0x7FFF_FFFF

  // ---------------------------------------------------------------------
  // Narrowing casts: keep the low bits, read them back as the target type.
  // Each result is the one value of the target type congruent to the input.
  // ---------------------------------------------------------------------

  /** `(byte) x` */
  function ToByte(x: int): (r: Int8)
    ensures (r - x) % 0x100 == 0
    ensures -0x80 <= x < 0x80 ==> r == x
  {
    var m := x % 0x100;
    if m < 0x80 then m else m - 0x100
  }

  /** `(short) x` */
  function ToShort(x: int): (r: Int16)
    ensures (r - x) % 0x1_0000 == 0
    ensures -0x8000 <= x < 0x8000 ==> r == x
  {
    var m := x % 0x1_0000;
    if m < 0x8000 then m else m - 0x1_0000
  }

  /** `(int) x`, and the wrap-around of 32-bit `int` arithmetic. */
  function ToInt(x: int): (r: Int32)
    ensures (r - x) % 0x1_0000_0000 == 0
    ensures MinInt32 <= x <= MaxInt32 ==> r == x
  {
    var m := x % 0x1_0000_0000;
    if m < 0x8000_0000 then m else m - 0x1_0000_0000
  }

  /** The wrap-around of 64-bit `long` arithmetic. */
  function ToLong(x: int): (r: Int64)
    ensures (r - x) % 0x1_0000_0000_0000_0000 == 0
    ensures -0x8000_0000_0000_0000 <= x < 0x8000_0000_0000_0000 ==> r == x
  {
    var m := x % 0x1_0000_0000_0000_0000;
    if m < 0x8000_0000_0000_0000 then m else m - 0x1_0000_0000_0000_0000
  }

  /** `(char) x`: the low 16 bits, unsigned. */
  function ToChar(x: int): (r: Char16)
    ensures (r - x) % 0x1_0000 == 0
    ensures 0 <= x < 0x1_0000 ==> r == x
  {
    x % 0x1_0000
  }

  /** Java's `a / 2` on integers: the quotient rounded toward zero. */
  function HalfTowardZero(a: int): (r: int)
    ensures a >= 0 ==> 0 <= 2 * r <= a && a - 2 * r <= 1
    ensures a < 0 ==> a <= 2 * r <= 0 && 2 * r - a <= 1
  {
    if a >= 0 then a / 2 else -((-a) / 2)
  }

  // ---------------------------------------------------------------------
  // Bitwise AND.  Java's `&` on two `int`s works on their 32-bit two's
  // complement patterns, i.e. on the unsigned values congruent to them
  // modulo 2^32.
  // ---------------------------------------------------------------------

  function Pow2(k: nat): (p: nat)
    ensures p > 0
  {
    if k == 0 then 1 else 2 * Pow2(k - 1)
  }

  /** The powers of two that the modelled constants and ranges need. */
  lemma Pow2Values()
    ensures Pow2(1) == 2 && Pow2(12) == 0x1000
    ensures Pow2(30) == 0x4000_0000 && Pow2(31) == 0x8000_0000 && Pow2(32) == 0x1_0000_0000
  {
    assert Pow2(12) == 0x1000;
    assert Pow2(24) == 0x100_0000;
  }

  /** The unsigned value of a 32-bit pattern. */
  function Unsigned32(x: Int32): (u: nat)
    ensures u < 0x1_0000_0000
    ensures (u - x) % 0x1_0000_0000 == 0
  {
    if x < 0 then x + 0x1_0000_0000 else x
  }

  /** AND of two unsigned binary numerals, bit by bit from the least significant bit. */
  function BitAnd(a: nat, b: nat): nat
    decreases a
  {
    if a == 0 || b == 0 then 0
    else 2 * BitAnd(a / 2, b / 2) + (if a % 2 == 1 && b % 2 == 1 then 1 else 0)
  }

  /** Java's `a & b` on `int`s. */
  function And32(a: Int32, b: Int32): Int32
  {
    BitAndBounded(Unsigned32(a), Unsigned32(b));
    ToInt(BitAnd(Unsigned32(a), Unsigned32(b)))
  }

  /** The AND of two numbers is no larger than either. */
  lemma {:induction false} BitAndBounded(a: nat, b: nat)
    ensures BitAnd(a, b) <= a && BitAnd(a, b) <= b
    decreases a
  {
    if a != 0 && b != 0 {
      BitAndBounded(a / 2, b / 2);
    }
  }

  /** Masking with `2^k - 1` keeps the low k bits: `a & (2^k - 1) == a mod 2^k`. */
  lemma {:induction false} BitAndLowMask(a: nat, k: nat)
    ensures BitAnd(a, Pow2(k) - 1) == a % Pow2(k)
    decreases k
  {
    if k == 0 {
    } else if a == 0 {
    } else {
      var p := Pow2(k - 1);
      assert Pow2(k) == 2 * p;
      assert (2 * p - 1) / 2 == p - 1 && (2 * p - 1) % 2 == 1;
      BitAndLowMask(a / 2, k - 1);
      assert BitAnd(a, 2 * p - 1) == 2 * ((a / 2) % p) + a % 2;
      DivModTwice(a, p);
    }
  }

  /** `a mod 2p` from `a div 2` and the low bit. */
  lemma DivModTwice(a: nat, p: nat)
    requires p > 0
    ensures a % (2 * p) == 2 * ((a / 2) % p) + a % 2
  {
    var h := a / 2;
    var q, r := h / p, h % p;
    assert h == q * p + r;
    assert a == 2 * h + a % 2;
    assert 2 * (q * p) == q * (2 * p);
    assert a == q * (2 * p) + (2 * r + a % 2);
    DivModUnique(a, 2 * p, q, 2 * r + a % 2);
  }

  /** Euclidean division has one quotient and one remainder. */
  lemma DivModUnique(a: int, d: int, q: int, r: int)
    requires d > 0 && 0 <= r < d && a == q * d + r
    ensures a / d == q && a % d == r
  {
    var q', r' := a / d, a % d;
    assert a == q' * d + r';
    assert (q - q') * d == r' - r;
    if q - q' >= 1 {
      assert false;
    } else if q - q' <= -1 {
      assert false;
    }
  }

  /** Adding a multiple of d does not change the remainder modulo d. */
  lemma ModOfShift(x: int, d: int, j: int)
    requires d > 0
    ensures (x + d * j) % d == x % d
  {
    var q, r := x / d, x % d;
    assert x == q * d + r;
    assert (q + j) * d == q * d + d * j;
    DivModUnique(x + d * j, d, q + j, r);
  }

  /** The wrap-around of a sum that overflows by less than one turn. */
  lemma ToIntNear(x: int)
    requires MinInt32 - 0x1_0000_0000 <= x <= MaxInt32 + 0x1_0000_0000
    ensures ToInt(x) == if x > MaxInt32 then x - 0x1_0000_0000
                        else if x < MinInt32 then x + 0x1_0000_0000 else x
  {
    var t := 0x1_0000_0000;
    if x > MaxInt32 {
      ModOfShift(x - t, t, 1);
      if x < t {
        DivModUnique(x, t, 0, x);
      } else {
        DivModUnique(x, t, 1, x - t);
      }
    } else if x < MinInt32 {
      if x < -t {
        DivModUnique(x, t, -2, x + 2 * t);
      } else {
        DivModUnique(x, t, -1, x + t);
      }
    }
  }

  /** `a & a == a` */
  lemma {:induction false} BitAndSelf(a: nat)
    ensures BitAnd(a, a) == a
    decreases a
  {
    if a != 0 {
      BitAndSelf(a / 2);
    }
  }

  // ---------------------------------------------------------------------
  // Text.  Java strings are modelled as Dafny strings; only the ASCII
  // letters and digits these classes look at are given their Java meaning.
  // ---------------------------------------------------------------------

  function LowerChar(c: char): char
  {
    if 'A' <= c <= 'Z' then (c as int - 'A' as int + 'a' as int) as char else c
  }

  /** `String.toLowerCase`, restricted to the ASCII letters. */
  function ToLowerCase(s: string): (r: string)
    ensures |r| == |s|
    ensures forall i :: 0 <= i < |s| ==> r[i] == LowerChar(s[i])
  {
    seq(|s|, i requires 0 <= i < |s| => LowerChar(s[i]))
  }

  predicate IsDigit(c: char)
  {
    '0' <= c <= '9'
  }

  predicate AllDigits(s: string)
  {
    forall i :: 0 <= i < |s| ==> IsDigit(s[i])
  }

  function DigitValue(c: char): (d: nat)
    requires IsDigit(c)
    ensures d < 10
  {
    c as int - '0' as int
  }

  function DigitChar(d: nat): (c: char)
    requires d < 10
    ensures IsDigit(c) && DigitValue(c) == d
  {
    ('0' as int + d) as char
  }

  /** The value of a numeral of decimal digits, the last digit least significant. */
  function DecimalValue(s: string): nat
    requires AllDigits(s)
    decreases |s|
  {
    if |s| == 0 then 0 else 10 * DecimalValue(s[..|s| - 1]) + DigitValue(s[|s| - 1])
  }

  /** What `Integer.parseInt` yields: the value, or the exception it throws. */
  datatype ParsedInt = Parsed(value: Int32) | NumberFormatException

  /**
    `Integer.parseInt(s)`: an optional `-` or `+` followed by at least one
    decimal digit, whose value must fit in an `int`; anything else throws.
  */
  function ParseInt(s: string): (r: ParsedInt)
    ensures |s| == 0 ==> r == NumberFormatException
    ensures r.Parsed? <==>
              (|s| > 0 && AllDigits(s) && DecimalValue(s) <= MaxInt32) ||
              (|s| > 1 && s[0] == '+' && AllDigits(s[1..]) && DecimalValue(s[1..]) <= MaxInt32) ||
              (|s| > 1 && s[0] == '-' && AllDigits(s[1..]) && DecimalValue(s[1..]) <= -(MinInt32 as int))
    ensures r.Parsed? && AllDigits(s) ==> r.value == DecimalValue(s)
    ensures r.Parsed? && s[0] == '+' ==> r.value == DecimalValue(s[1..])
    ensures r.Parsed? && s[0] == '-' ==> r.value == -(DecimalValue(s[1..]) as int)
  {
    if |s| == 0 then NumberFormatException
    else
      var signed := s[0] == '-' || s[0] == '+';
      var digits := if signed then s[1..] else s;
      if |digits| == 0 || !AllDigits(digits) then NumberFormatException
      else
        var v: int := if s[0] == '-' then -(DecimalValue(digits) as int) else DecimalValue(digits);
        if MinInt32 <= v <= MaxInt32 then Parsed(v) else NumberFormatException
  }

  /** The shortest decimal numeral of a natural number. */
  function NatToDecimal(n: nat): (s: string)
    ensures |s| > 0 && AllDigits(s)
    ensures s[0] == '0' <==> n == 0
    ensures n == 0 ==> s == "0"
    decreases n
  {
    if n < 10 then [DigitChar(n)] else NatToDecimal(n / 10) + [DigitChar(n % 10)]
  }

  /** `Integer.toString(n)`, which is also what `"" + n` appends. */
  function IntToString(n: int): (s: string)
    ensures |s| > 0
    ensures n >= 0 ==> AllDigits(s) && (s[0] == '0' ==> s == "0")
    ensures n < 0 ==> |s| > 1 && s[0] == '-' && AllDigits(s[1..]) && s[1] != '0'
  {
    if n < 0 then "-" + NatToDecimal(-n) else NatToDecimal(n)
  }

  /** A numeral written by NatToDecimal is all digits and denotes its number. */
  lemma {:induction false} NatToDecimalValue(n: nat)
    ensures AllDigits(NatToDecimal(n))
    ensures DecimalValue(NatToDecimal(n)) == n
    decreases n
  {
    var s := NatToDecimal(n);
    if n >= 10 {
      NatToDecimalValue(n / 10);
      assert s[..|s| - 1] == NatToDecimal(n / 10);
    }
  }

  /** `Integer.parseInt(Integer.toString(n)) == n` for every `int`. */
  lemma ParseIntOfToString(n: Int32)
    ensures ParseInt(IntToString(n)) == Parsed(n)
  {
    var s := IntToString(n);
    if n < 0 {
      var m: nat := -(n as int);
      NatToDecimalValue(m);
      assert s[1..] == NatToDecimal(m);
      assert s[0] == '-';
    } else {
      NatToDecimalValue(n);
      assert IsDigit(s[0]);
    }
  }
}
