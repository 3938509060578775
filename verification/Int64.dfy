/** Signed 64-bit arithmetic as the agent-expression machine of `gdb_expression.rs` does it. */
module Int64 {
  import opened Words

  type i64 = x: int | -TWO_63 <= x < TWO_63

  const MIN: i64 := -TWO_63

  /** The two's-complement value of the low 64 bits of `x`. */
  function Signed(x: int): i64 {
    (x + TWO_63) % TWO_64 - TWO_63
  }

  /** `a as u64`. */
  function Unsigned(a: i64): u64 {
    if a < 0 then a + TWO_64 else a
  }

  // ----- Operators that Rust rounds or masks differently from Dafny

  /** Division rounding toward zero; the one overflowing case wraps, as `overflowing_div` does. */
  function DivSigned(a: i64, b: i64): i64
    requires b != 0
  {
    var q := Abs(a) / Abs(b);
    Signed(if (a < 0) == (b < 0) then q else -q)
  }

  function Abs(a: int): nat {
    if a < 0 then -a else a
  }

  /** `%` takes the sign of the dividend; Rust panics on the overflowing case. */
  function RemSigned(a: i64, b: i64): i64
    requires b != 0 && !(a == MIN && b == -1)
  {
    var r := Abs(a) % Abs(b);
    if a < 0 then -r else r
  }

  /** `overflowing_shl` and `overflowing_shr` use the low six bits of the shift count. */
  function ShiftCount(b: i64): nat {
    Unsigned(b) % 64
  }

  function ShiftLeft(a: i64, n: nat): i64 {
    Signed(a * Pow2(n))
  }

  function ShiftRightSigned(a: i64, n: nat): (r: i64) {
    FloorBetween(a, Pow2(n));
    a / Pow2(n)
  }

  lemma FloorBetween(a: i64, p: nat)
    requires p >= 1
    ensures -TWO_63 <= a / p < TWO_63
  {
    if a >= 0 {
      DivBelow(a, p);
    } else {
      var q := a / p;
      assert a == q * p + a % p;
      if q < a {
        assert q * p <= q by { assert q * (p - 1) <= 0; }
      }
    }
  }

  function ShiftRightUnsigned(a: i64, n: nat): i64 {
    Signed(Unsigned(a) / Pow2(n))
  }

  function Bits(op: BitOp, a: i64, b: i64): i64 {
    Signed(Bitwise(op, Unsigned(a), Unsigned(b), 64))
  }

  function BitNot(a: i64): i64 {
    -1 - a
  }

  /** `(1i64 << n) - 1`, wrapping for `n == 63`. */
  function LowMask(n: nat): i64 {
    Signed(Signed(Pow2(n)) - 1)
  }

  function SignBit(a: i64, n: nat): i64
    requires 0 < n < 64
  {
    Bits(And, ShiftRightSigned(a, n - 1), 1)
  }

  /** The source's expression for `OP_ext`. */
  function Extend(a: i64, n: nat): i64
    requires 0 < n < 64
  {
    var mask := LowMask(n);
    Bits(Or, Signed(SignBit(a, n) * BitNot(mask)), Bits(And, a, mask))
  }

  /** The source's expression for `OP_zero_ext`. */
  function ZeroExtend(a: i64, n: nat): i64
    requires n < 64
  {
    Bits(And, a, LowMask(n))
  }

  /** The value of the low `n` bits of `a` read as a signed number. */
  function SignExtend(a: i64, n: nat): i64
    requires 0 < n < 64
  {
    LowMaskIs(n);
    var low := a % Pow2(n);
    if low < Pow2(n - 1) then low else low - Pow2(n)
  }

  /** The value of the low `n` bits of `a` read as an unsigned number. */
  function LowBits(a: i64, n: nat): i64
    requires n < 64
  {
    LowMaskIs(n);
    a % Pow2(n)
  }

  // ----- Wrapping is reduction modulo 2^64

  lemma SignedOf(x: int)
    ensures exists k: int :: Signed(x) == x + k * TWO_64
    ensures -TWO_63 <= x < TWO_63 ==> Signed(x) == x
  {
    assert Signed(x) == x + (-((x + TWO_63) / TWO_64)) * TWO_64;
  }

  lemma SignedShift(x: int, k: int)
    ensures Signed(x + k * TWO_64) == Signed(x)
  {
    var y := x + TWO_63;
    ModUnique(y + k * TWO_64, TWO_64, y / TWO_64 + k, y % TWO_64);
  }

  lemma SignedAdd(x: int, y: int)
    ensures Signed(Signed(x) + Signed(y)) == Signed(x + y)
    ensures Signed(Signed(x) - Signed(y)) == Signed(x - y)
  {
    SignedOf(x);
    SignedOf(y);
    var j: int :| Signed(x) == x + j * TWO_64;
    var k: int :| Signed(y) == y + k * TWO_64;
    SignedShift(x + y, j + k);
    SignedShift(x - y, j - k);
  }

  lemma SignedMul(x: int, y: int)
    ensures Signed(Signed(x) * Signed(y)) == Signed(x * y)
  {
    SignedOf(x);
    SignedOf(y);
    var j: int :| Signed(x) == x + j * TWO_64;
    var k: int :| Signed(y) == y + k * TWO_64;
    ProductShift(x, y, j, k);
    SignedShift(x * y, x * k + j * y + j * k * TWO_64);
  }

  lemma ProductShift(x: int, y: int, j: int, k: int)
    ensures (x + j * TWO_64) * (y + k * TWO_64) == x * y + (x * k + j * y + j * k * TWO_64) * TWO_64
  {
    var t := TWO_64;
    assert (x + j * t) * (y + k * t) == x * y + x * (k * t) + (j * t) * y + (j * t) * (k * t);
    assert x * (k * t) == (x * k) * t && (j * t) * y == (j * y) * t && (j * t) * (k * t) == (j * k * t) * t;
  }

  // ----- What the bit tricks of OP_ext and OP_zero_ext compute

  lemma SignedFits(x: i64)
    ensures Signed(x) == x
  {
  }

  lemma SignedOfLow(p: nat)
    requires 1 <= p <= TWO_63
    ensures Signed(Signed(p) - 1) == p - 1
  {
    SignedAdd(p, 1);
    SignedFits(1);
    SignedFits(p - 1);
  }

  lemma LowMaskIs(n: nat)
    requires n < 64
    ensures LowMask(n) == Pow2(n) - 1 && 1 <= Pow2(n) <= TWO_63
  {
    Pow2Below64(n);
    SignedOfLow(Pow2(n));
  }

  lemma Pow2Below64(n: nat)
    requires n < 64
    ensures 1 <= Pow2(n) <= TWO_63
  {
    Pow2Values();
    Pow2Monotone(n, 63);
  }

  lemma UnsignedModPow2(a: i64, n: nat)
    requires n <= 64
    ensures Unsigned(a) % Pow2(n) == a % Pow2(n)
  {
    Pow2Values();
    Pow2Sum(64 - n, n);
    ModShift(a, Pow2(n), Pow2(64 - n));
  }

  lemma ZeroExtendMeaning(a: i64, n: nat)
    requires n < 64
    ensures ZeroExtend(a, n) == LowBits(a, n)
  {
    LowMaskIs(n);
    AndWithMask(Unsigned(a), n, 64);
    UnsignedModPow2(a, n);
    SignedFits(a % Pow2(n));
  }

  lemma SignBitMeaning(a: i64, n: nat)
    requires 0 < n < 64
    ensures SignBit(a, n) == if a % Pow2(n) < Pow2(n - 1) then 0 else 1
  {
    var p := Pow2(n - 1);
    var s := ShiftRightSigned(a, n - 1);
    ModDouble(a, p);
    assert Pow2(1) == 2;
    AndWithMask(Unsigned(s), 1, 64);
    UnsignedModPow2(s, 1);
    SignedFits(s % 2);
    assert SignBit(a, n) == a / p % 2;
    assert 0 <= a % p < p;
  }

  lemma OrNothing(low: nat, n: nat)
    requires n < 64 && low < Pow2(n) <= TWO_63
    ensures Bits(Or, 0, low) == low
  {
    BitwiseCommutes(Or, 0, low, 64);
    OrOfDisjointBits(low, 0, n, 64);
    SignedFits(low);
  }

  lemma OrHighBits(low: nat, n: nat)
    requires n < 64 && low < Pow2(n) <= TWO_63
    ensures Bitwise(Or, TWO_64 - Pow2(n), low, 64) == low + TWO_64 - Pow2(n)
  {
    var p, high := Pow2(n), Pow2(64 - n) - 1;
    assert high * p == TWO_64 - p by {
      Pow2Values();
      Pow2Sum(64 - n, n);
      assert (Pow2(64 - n) - 1) * p == Pow2(64 - n) * p - p;
    }
    OrOfDisjointBits(low, high, n, 64);
    BitwiseCommutes(Or, TWO_64 - p, low, 64);
  }

  /** OR-ing the sign bits above the low `n` bits subtracts `2^n`. */
  lemma OrSignBits(low: nat, n: nat, m: i64)
    requires n < 64 && low < Pow2(n) <= TWO_63 && m + Pow2(n) == 0
    ensures Bits(Or, m, low) == low + m
  {
    OrHighBits(low, n);
    assert Unsigned(m) == TWO_64 - Pow2(n);
    SignedShift(low + m, 1);
    SignedFits(low + m);
  }

  lemma OneBitTimes(bit: i64, m: i64)
    requires bit == 0 || bit == 1
    ensures Signed(bit * m) == if bit == 0 then 0 else m
  {
    SignedFits(0);
    SignedFits(m);
  }

  /** The bit trick of OP_ext sign-extends. */
  lemma ExtendMeaning(a: i64, n: nat)
    requires 0 < n < 64
    ensures Extend(a, n) == SignExtend(a, n)
  {
    var low := a % Pow2(n);
    LowMaskIs(n);
    var high := BitNot(LowMask(n));
    assert Bits(And, a, LowMask(n)) == low by { ZeroExtendMeaning(a, n); }
    SignBitMeaning(a, n);
    OneBitTimes(SignBit(a, n), high);
    OrNothing(low, n);
    OrSignBits(low, n, high);
  }
}
