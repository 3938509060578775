/** Machine words as subset types of `int`, byte-order codecs and other types shared by the other modules. */
module Words {

  datatype Option<+T> = None | Some(value: T)

  /** The architectures rd supports. */
  datatype Arch = X86 | X64

  /** How many addresses there are. */
  function Width(arch: Arch): (w: nat)
    ensures 0 < w <= TWO_64
  {
    if arch.X86? then TWO_32 else TWO_64
  }

  const TWO_32: int := 0x1_0000_0000
  const TWO_63: int := 0x8000_0000_0000_0000
  const TWO_64: int := 0x1_0000_0000_0000_0000

  type byte = x: int | 0 <= x < 256
  type u16 = x: int | 0 <= x < 0x1_0000
  type u32 = x: int | 0 <= x < TWO_32
  type u64 = x: int | 0 <= x < TWO_64

  /** The mapped bytes of a tracee. */
  type Memory = map<int, byte>

  function Pow2(n: nat): (p: nat)
    ensures p >= 1
  {
    if n == 0 then 1 else 2 * Pow2(n - 1)
  }

  lemma {:induction false} Pow2Sum(m: nat, n: nat)
    ensures Pow2(m + n) == Pow2(m) * Pow2(n)
  {
    if m > 0 {
      Pow2Sum(m - 1, n);
    }
  }

  lemma Pow2Values()
    ensures Pow2(8) == 256 && Pow2(16) == 0x1_0000 && Pow2(32) == TWO_32 && Pow2(63) == TWO_63 && Pow2(64) == TWO_64
  {
    assert Pow2(3) == 8 && Pow2(4) == 2 * Pow2(3);
    Pow2Sum(4, 4);
    Pow2Sum(8, 8);
    Pow2Sum(16, 16);
    Pow2Sum(32, 32);
  }

  datatype BitOp = And | Or | Xor

  function ApplyBit(op: BitOp, a: bool, b: bool): bool {
    match op
    case And => a && b
    case Or => a || b
    case Xor => a != b
  }

  /** The low `n` bits of `a op b`, bit by bit. */
  function Bitwise(op: BitOp, a: nat, b: nat, n: nat): (r: nat)
    ensures r < Pow2(n)
    decreases n, a, b
  {
    if n == 0 then 0
    else (if ApplyBit(op, a % 2 == 1, b % 2 == 1) then 1 else 0) + 2 * Bitwise(op, a / 2, b / 2, n - 1)
  }

  function Bitwise32(op: BitOp, a: u32, b: u32): u32 {
    Pow2Values();
    Bitwise(op, a, b, 32)
  }

  function Pow256(n: nat): (p: nat)
    ensures p >= 1
  {
    if n == 0 then 1 else 256 * Pow256(n - 1)
  }

  /** Adding a number below `2^m` to a multiple of `2^m` is the same as OR-ing them. */
  lemma {:induction false} OrOfDisjointBits(a: nat, high: nat, m: nat, n: nat)
    requires m <= n && a < Pow2(m) && high < Pow2(n - m)
    ensures Bitwise(Or, a, high * Pow2(m), n) == a + high * Pow2(m)
    decreases n
  {
    if m > 0 {
      var p := high * Pow2(m - 1);
      assert high * Pow2(m) == 2 * p by {
        assert Pow2(m) == 2 * Pow2(m - 1);
        assert high * (2 * Pow2(m - 1)) == 2 * (high * Pow2(m - 1));
      }
      OrOfDisjointBits(a / 2, high, m - 1, n - 1);
      OrEven(a, p, n);
    } else {
      OrOfZero(high, n);
    }
  }

  lemma OrEven(a: nat, p: nat, n: nat)
    requires n > 0
    ensures Bitwise(Or, a, 2 * p, n) == a % 2 + 2 * Bitwise(Or, a / 2, p, n - 1)
  {
    var b := 2 * p;
    assert b % 2 == 0 && b / 2 == p;
  }

  /** OR-ing a low and a high half of 16 bits. */
  lemma OrOfHalves(a: nat, high: nat)
    requires a < 0x1_0000 && high < 0x1_0000
    ensures Bitwise(Or, a, high * 0x1_0000, 32) == a + high * 0x1_0000
  {
    Pow2Values();
    OrOfDisjointBits(a, high, 16, 32);
  }

  lemma {:induction false} OrOfZero(b: nat, n: nat)
    requires b < Pow2(n)
    ensures Bitwise(Or, 0, b, n) == b
    decreases n
  {
    if n > 0 {
      OrOfZero(b / 2, n - 1);
    }
  }

  /** Masking with `2^m - 1` keeps the low `m` bits. */
  lemma {:induction false} AndWithMask(a: nat, m: nat, n: nat)
    requires m <= n
    ensures Bitwise(And, a, Pow2(m) - 1, n) == a % Pow2(m)
    decreases n
  {
    if m == 0 {
      AndWithZero(a, n);
    } else {
      var p := Pow2(m - 1);
      assert Pow2(m) == 2 * p;
      AndWithMask(a / 2, m - 1, n - 1);
      MaskStep(a, p, n);
    }
  }

  lemma MaskStep(a: nat, p: nat, n: nat)
    requires n > 0 && p > 0 && Bitwise(And, a / 2, p - 1, n - 1) == a / 2 % p
    ensures Bitwise(And, a, 2 * p - 1, n) == a % (2 * p)
  {
    AndOdd(a, p - 1, n);
    HalfMod(a, p);
  }

  lemma AndOdd(a: nat, q: nat, n: nat)
    requires n > 0
    ensures Bitwise(And, a, 2 * q + 1, n) == a % 2 + 2 * Bitwise(And, a / 2, q, n - 1)
  {
    var b := 2 * q + 1;
    assert b % 2 == 1 && b / 2 == q;
  }

  lemma {:induction false} BitwiseCommutes(op: BitOp, a: nat, b: nat, n: nat)
    ensures Bitwise(op, a, b, n) == Bitwise(op, b, a, n)
    decreases n
  {
    if n > 0 {
      BitwiseCommutes(op, a / 2, b / 2, n - 1);
    }
  }

  lemma {:induction false} Pow2Monotone(m: nat, n: nat)
    requires m <= n
    ensures Pow2(m) <= Pow2(n)
    decreases n
  {
    if m < n {
      Pow2Monotone(m, n - 1);
    }
  }

  lemma {:induction false} AndWithZero(a: nat, n: nat)
    ensures Bitwise(And, a, 0, n) == 0
    decreases n
  {
    if n > 0 {
      AndWithZero(a / 2, n - 1);
    }
  }

  lemma HalfMod(a: nat, p: nat)
    requires p > 0
    ensures a % (2 * p) == a % 2 + 2 * (a / 2 % p)
  {
    var q, r := a / 2 / p, a / 2 % p;
    assert a / 2 == q * p + r;
    assert a == 2 * (q * p + r) + a % 2;
    assert a == q * (2 * p) + (2 * r + a % 2) by {
      assert 2 * (q * p) == q * (2 * p);
    }
    ModUnique(a, 2 * p, q, 2 * r + a % 2);
  }

  lemma ModUnique(a: int, m: nat, q: int, r: nat)
    requires m > 0 && r < m && a == q * m + r
    ensures a % m == r && a / m == q
  {
    var q', r' := a / m, a % m;
    assert (q - q') * m == q * m - q' * m && (q' - q) * m == q' * m - q * m;
    if q > q' {
      MulAtLeast(q - q', m);
    } else if q < q' {
      MulAtLeast(q' - q, m);
    }
  }

  lemma ModShift(a: int, m: nat, k: int)
    requires m > 0
    ensures (a + k * m) % m == a % m
  {
    var q, r := a / m, a % m;
    assert a == q * m + r;
    assert (q + k) * m == q * m + k * m;
    ModUnique(a + k * m, m, q + k, r);
  }

  /** The remainder modulo `2 * p`, from the quotient and remainder by `p`. */
  lemma ModDouble(a: int, p: nat)
    requires p > 0
    ensures a % (2 * p) == a / p % 2 * p + a % p
  {
    var q, r := a / p, a % p;
    var h, b := q / 2, q % 2;
    assert a == q * p + r;
    assert q * p == h * (2 * p) + b * p by {
      assert q == 2 * h + b;
      assert (2 * h + b) * p == 2 * h * p + b * p;
      assert 2 * h * p == h * (2 * p);
    }
    assert 0 <= b * p + r < 2 * p;
    ModUnique(a, 2 * p, h, b * p + r);
  }

  lemma DivBelow(a: nat, p: nat)
    requires p >= 1
    ensures 0 <= a / p <= a
  {
    var q, r := a / p, a % p;
    assert a == p * q + r;
    MulAtLeast(p, q);
  }

  lemma MulAtLeast(k: int, m: nat)
    requires k >= 1
    ensures k * m >= m
  {
  }

  /** The `n` low-order bytes of `v`, least significant first (`to_le_bytes`). */
  function ToLittleEndian(v: nat, n: nat): (s: seq<byte>)
    ensures |s| == n
  {
    if n == 0 then [] else [v % 256] + ToLittleEndian(v / 256, n - 1)
  }

  /** The number whose bytes, least significant first, are `s` (`from_le_bytes`). */
  function FromLittleEndian(s: seq<byte>): (v: nat)
    ensures v < Pow256(|s|)
  {
    if s == [] then 0 else s[0] + 256 * FromLittleEndian(s[1..])
  }

  lemma {:induction false} LittleEndianDecodes(v: nat, n: nat)
    ensures v < Pow256(n) ==> FromLittleEndian(ToLittleEndian(v, n)) == v
  {
    if n > 0 {
      assert ToLittleEndian(v, n)[1..] == ToLittleEndian(v / 256, n - 1);
      LittleEndianDecodes(v / 256, n - 1);
    }
  }

  lemma {:induction false} LittleEndianEncodes(s: seq<byte>)
    ensures ToLittleEndian(FromLittleEndian(s), |s|) == s
  {
    if s != [] {
      LittleEndianEncodes(s[1..]);
      var v := FromLittleEndian(s);
      assert v % 256 == s[0] && v / 256 == FromLittleEndian(s[1..]);
    }
  }

  /** The `n` low-order bytes of `v`, most significant first. */
  function ToBigEndian(v: nat, n: nat): (s: seq<byte>)
    ensures |s| == n
  {
    if n == 0 then [] else ToBigEndian(v / 256, n - 1) + [v % 256]
  }

  /** The number whose bytes, most significant first, are `s`. */
  function FromBigEndian(s: seq<byte>): (v: nat)
    ensures v < Pow256(|s|)
  {
    if s == [] then 0 else FromBigEndian(s[..|s| - 1]) * 256 + s[|s| - 1]
  }

  lemma {:induction false} BigEndianDecodes(v: nat, n: nat)
    requires v < Pow256(n)
    ensures FromBigEndian(ToBigEndian(v, n)) == v
  {
    if n > 0 {
      assert ToBigEndian(v, n)[..n - 1] == ToBigEndian(v / 256, n - 1);
      BigEndianDecodes(v / 256, n - 1);
    }
  }
}
