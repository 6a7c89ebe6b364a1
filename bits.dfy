/** Integer bit arithmetic as the C source uses it: powers of two, the
    arithmetic right shift, the bitwise operators on non-negative ints, and the
    byte <-> 8-bit conversions `charToBinary` / `binaryToChar`. */
module Bits {

  /** Number of bits in a C `char`. */
  const CHARBITS: nat := 8

  /** The value `fgetc` returns at end of input. */
  const EOF: int := -1

  type Byte = x: int | 0 <= x < 256

  function Pow2(n: nat): (p: nat)
    ensures p >= 1
  {
    if n == 0 then 1 else 2 * Pow2(n - 1)
  }

  /** `x >> n` on a C int (arithmetic shift): halve n times, rounding down. */
  function Shr(x: int, n: nat): int
  {
    if n == 0 then x else Shr(x, n - 1) / 2
  }

  /** Bit k of x, i.e. `(x >> k) & 1`. */
  function BitOf(x: int, k: nat): (b: int)
    ensures b == 0 || b == 1
  {
    Shr(x, k) % 2
  }

  /** `a & b` on non-negative ints. */
  function And(a: nat, b: nat): nat
    decreases a
  {
    if a == 0 || b == 0 then 0
    else 2 * And(a / 2, b / 2) + (if a % 2 == 1 && b % 2 == 1 then 1 else 0)
  }

  /** `a | b` on non-negative ints. */
  function Or(a: nat, b: nat): nat
    decreases a + b
  {
    if a == 0 && b == 0 then 0
    else 2 * Or(a / 2, b / 2) + (if a % 2 == 1 || b % 2 == 1 then 1 else 0)
  }

  /** `a ^ b` on non-negative ints. */
  function Xor(a: nat, b: nat): nat
    decreases a + b
  {
    if a == 0 && b == 0 then 0
    else 2 * Xor(a / 2, b / 2) + (a + b) % 2
  }

  /** `v ^ 1` on a C int (two's complement): toggles the lowest bit, so
      0 and 1 swap and the padding value -1 becomes -2. */
  function XorOne(v: int): (r: int)
    ensures r / 2 == v / 2 && r % 2 == 1 - v % 2
  {
    if v % 2 == 0 then v + 1 else v - 1
  }

  // ---------------------------------------------------------------------------
  // Shifts and powers of two

  lemma {:induction false} Pow2Add(a: nat, b: nat)
    ensures Pow2(a + b) == Pow2(a) * Pow2(b)
  {
    if b > 0 {
      Pow2Add(a, b - 1);
      assert Pow2(a + b) == 2 * Pow2(a + b - 1);
    }
  }

  lemma {:induction false} Pow2Monotone(a: nat, b: nat)
    ensures a < b ==> Pow2(a) < Pow2(b)
  {
    if a < b && b - 1 > a {
      Pow2Monotone(a, b - 1);
    }
  }

  lemma Pow2Injective(a: nat, b: nat)
    requires Pow2(a) == Pow2(b)
    ensures a == b
  {
    if a < b {
      Pow2Monotone(a, b);
    } else if b < a {
      Pow2Monotone(b, a);
    }
  }

  /** `y << k`: doubling k times. */
  function Shl(y: int, k: nat): (r: int)
    ensures y >= 0 ==> r >= y
    ensures y == 0 ==> r == 0
  {
    if k == 0 then y else 2 * Shl(y, k - 1)
  }

  lemma {:induction false} ShlIsMul(y: int, k: nat)
    ensures Shl(y, k) == y * Pow2(k)
  {
    if k > 0 {
      ShlIsMul(y, k - 1);
    }
  }

  lemma {:induction false} ShlMonotone(a: int, b: int, k: nat)
    ensures a <= b ==> Shl(a, k) <= Shl(b, k)
  {
    if k > 0 {
      ShlMonotone(a, b, k - 1);
    }
  }

  /** Shifting a non-negative x right by n and back does not exceed x. */
  lemma {:induction false} ShrBound(x: nat, n: nat)
    ensures Shr(x, n) >= 0
    ensures Shl(Shr(x, n), n) <= x
  {
    if n > 0 {
      ShrBound(x, n - 1);
      var y := Shr(x, n - 1);
      assert Shr(x, n) == y / 2;
      ShlDouble(y / 2, n - 1);
      ShlMonotone(2 * (y / 2), y, n - 1);
    }
  }

  lemma {:induction false} ShlDouble(y: int, k: nat)
    ensures Shl(y, k + 1) == Shl(2 * y, k)
  {
    if k > 0 {
      ShlDouble(y, k - 1);
    }
  }

  /** A value below 2^n vanishes after shifting right by n. */
  lemma ShrSmall(x: nat, n: nat)
    requires x < Pow2(n)
    ensures Shr(x, n) == 0
  {
    ShrBound(x, n);
    ShlMonotone(1, Shr(x, n), n);
    ShlIsMul(1, n);
  }

  /** If bit k of x is set then x >= 2^k. */
  lemma BitSetBound(x: nat, k: nat)
    requires BitOf(x, k) == 1
    ensures Pow2(k) <= x
  {
    ShrBound(x, k);
    ShlMonotone(1, Shr(x, k), k);
    ShlIsMul(1, k);
  }

  // ---------------------------------------------------------------------------
  // Xor algebra

  lemma {:induction false} XorZero(a: nat)
    ensures Xor(a, 0) == a && Xor(0, a) == a
    decreases a
  {
    if a != 0 {
      XorZero(a / 2);
    }
  }

  lemma {:induction false} XorComm(a: nat, b: nat)
    ensures Xor(a, b) == Xor(b, a)
    decreases a + b
  {
    if a != 0 || b != 0 {
      XorComm(a / 2, b / 2);
    }
  }

  lemma {:induction false} XorSelf(a: nat)
    ensures Xor(a, a) == 0
    decreases a
  {
    if a != 0 {
      XorSelf(a / 2);
    }
  }

  /** The xor's high part is the xor of the high parts; its low bit is the
      xor of the low bits. */
  lemma XorParts(a: nat, b: nat)
    ensures Xor(a, b) / 2 == Xor(a / 2, b / 2)
    ensures Xor(a, b) % 2 == (a + b) % 2
  {
    if a == 0 && b == 0 {
      XorZero(0);
    }
  }

  /** Proof step: an int is fixed by its half and its lowest bit. */
  lemma HalvesEqual(l: int, r: int)
    requires l / 2 == r / 2 && l % 2 == r % 2
    ensures l == r
  {
  }

  /** Proof step: the parity of a sum, from the parities of its parts. */
  lemma ParitySum(x: int, y: int)
    ensures (x + y) % 2 == (x % 2 + y % 2) % 2
  {
  }

  /** The low-bit half of xor associativity. */
  lemma ParityAssoc(a: int, b: int, c: int, u: int, v: int, l: int, r: int)
    requires u % 2 == (a + b) % 2 && v % 2 == (b + c) % 2
    requires l % 2 == (u + c) % 2 && r % 2 == (a + v) % 2
    ensures l % 2 == r % 2
  {
    ParitySum(a, b);
    ParitySum(b, c);
    ParitySum(u, c);
    ParitySum(a, v);
  }

  lemma {:induction false} XorAssoc(a: nat, b: nat, c: nat)
    ensures Xor(Xor(a, b), c) == Xor(a, Xor(b, c))
    decreases a + b + c
  {
    if a == 0 && b == 0 && c == 0 {
    } else {
      var u, v := Xor(a, b), Xor(b, c);
      var l, r := Xor(u, c), Xor(a, v);
      XorParts(a, b);
      XorParts(b, c);
      XorParts(u, c);
      XorParts(a, v);
      XorAssoc(a / 2, b / 2, c / 2);
      assert l / 2 == r / 2;
      ParityAssoc(a, b, c, u, v, l, r);
      HalvesEqual(l, r);
    }
  }

  /** Xor is zero exactly on equal arguments. */
  lemma {:induction false} XorZeroIff(a: nat, b: nat)
    ensures Xor(a, b) == 0 <==> a == b
    decreases a + b
  {
    if a == b {
      XorSelf(a);
    } else {
      XorParts(a, b);
      if a / 2 != b / 2 {
        XorZeroIff(a / 2, b / 2);
      }
    }
  }

  /** Xor of values below 2^n stays below 2^n. */
  lemma {:induction false} XorBound(a: nat, b: nat, n: nat)
    requires a < Pow2(n) && b < Pow2(n)
    ensures Xor(a, b) < Pow2(n)
    decreases n
  {
    if a == 0 && b == 0 {
    } else if n == 0 {
    } else {
      XorBound(a / 2, b / 2, n - 1);
    }
  }

  /** Proof step: adding one flips the parity. */
  lemma OddStep(x: nat)
    ensures (x + 1) % 2 == 1 - x % 2
  {
  }

  /** `x ^= 1` on a single bit flips it. */
  lemma XorToggle(b: nat)
    requires b < 2
    ensures Xor(b, 1) == 1 - b
  {
    assert Xor(0, 0) == 0;
  }

  lemma XorDouble(a: nat, b: nat)
    ensures Xor(2 * a, 2 * b) == 2 * Xor(a, b)
  {
    assert (2 * a) / 2 == a && (2 * b) / 2 == b && (2 * a + 2 * b) % 2 == 0;
  }

  /** Xor-ing 2^k into y << k with y odd clears that bit. */
  lemma {:induction false} XorClearsBit(y: nat, k: nat)
    requires y % 2 == 1
    ensures Shl(y, k) >= 0
    ensures Xor(Shl(y, k), Shl(1, k)) == Shl(y - 1, k)
  {
    if k == 0 {
      XorZero(y / 2);
      XorParts(y, 1);
    } else {
      XorClearsBit(y, k - 1);
      XorDouble(Shl(y, k - 1), Shl(1, k - 1));
    }
  }

  /** x with its low k bits cleared: `(x >> k) << k`. */
  function HighBits(x: nat, k: nat): nat
  {
    ShrBound(x, k);
    Shl(Shr(x, k), k)
  }

  /** Clearing the low bits one at a time with xor: the step the encoder's
      parity-setting loop takes for every set bit of the syndrome. */
  lemma HighBitsStep(x: nat, k: nat)
    ensures BitOf(x, k) == 1 ==> Xor(HighBits(x, k), Pow2(k)) == HighBits(x, k + 1)
    ensures BitOf(x, k) != 1 ==> HighBits(x, k) == HighBits(x, k + 1)
  {
    ShrBound(x, k);
    var y := Shr(x, k);
    assert Shr(x, k + 1) == y / 2;
    ShlDouble(y / 2, k);
    ShlIsMul(1, k);
    if BitOf(x, k) == 1 {
      XorClearsBit(y, k);
      assert 2 * (y / 2) == y - 1;
    } else {
      assert 2 * (y / 2) == y;
    }
  }

  lemma HighBitsEnds(x: nat, n: nat)
    requires x < Pow2(n)
    ensures HighBits(x, 0) == x
    ensures HighBits(x, n) == 0
  {
    ShrSmall(x, n);
  }

  // ---------------------------------------------------------------------------
  // Or on disjoint bits

  /** Or of values below 2^n stays below 2^n. */
  lemma {:induction false} OrBound(a: nat, b: nat, n: nat)
    requires a < Pow2(n) && b < Pow2(n)
    ensures Or(a, b) < Pow2(n)
    decreases n
  {
    if a == 0 && b == 0 {
    } else if n == 0 {
    } else {
      OrBound(a / 2, b / 2, n - 1);
    }
  }

  lemma {:induction false} OrZero(a: nat)
    ensures Or(a, 0) == a
    decreases a
  {
    if a != 0 {
      OrZero(a / 2);
    }
  }

  lemma OrDouble(a: nat, b: nat)
    ensures Or(2 * a, 2 * b) == 2 * Or(a, b)
  {
    if a != 0 || b != 0 {
      assert (2 * a) / 2 == a && (2 * b) / 2 == b;
    }
  }

  /** Or-ing a single bit b (0 or 1) at position k into a value whose bits
      up to k are clear is addition. */
  lemma {:induction false} OrDisjoint(a: nat, b: nat, k: nat)
    requires b <= 1
    ensures Shl(a, k + 1) >= 0 && Shl(b, k) >= 0
    ensures Or(Shl(a, k + 1), Shl(b, k)) == Shl(2 * a + b, k)
  {
    ShlMonotone(0, a, k + 1);
    ShlMonotone(0, b, k);
    if k == 0 {
      OrZero(a);
      if a != 0 || b != 0 {
        assert (2 * a) / 2 == a && b / 2 == 0;
      }
    } else {
      OrDisjoint(a, b, k - 1);
      ShlMonotone(0, a, k);
      ShlMonotone(0, b, k - 1);
      OrDouble(Shl(a, k), Shl(b, k - 1));
    }
  }

  // ---------------------------------------------------------------------------
  // Bytes and bits

  /** The value a byte read by `fgetc` has once stored in a (signed) C `char`:
      0x80..0xFF become negative, and 0xFF becomes -1, equal to `EOF`. */
  function ToSignedChar(c: int): (r: int)
    requires EOF <= c < 256
    ensures -128 <= r < 128
    ensures r % 256 == c % 256
    ensures r == EOF <==> c == EOF || c == 0xFF
  {
    if c >= 128 then c - 256 else c
  }

  /** The 8 bits `charToBinary` stores for `c`: `c >> (7 - i) & 1`, most
      significant first. */
  function MsbBits(c: int): (bits: seq<int>)
    ensures |bits| == CHARBITS
  {
    seq(CHARBITS, i requires 0 <= i < CHARBITS => BitOf(c, CHARBITS - 1 - i))
  }

  /** What `binaryToChar` computes from the first |vals| buffer cells, as the
      bit pattern of the resulting `char` (0..255): each cell shifted to
      position 7 - i and or-ed in, the `char` keeping the low 8 bits. */
  function OrInto(vals: seq<int>): (c: nat)
    requires |vals| <= CHARBITS
  {
    if vals == [] then 0
    else
      var n := |vals| - 1;
      Or(OrInto(vals[..n]), Shl(vals[n], CHARBITS - 1 - n) % 256)
  }

  /** The number the bits spell, most significant first. */
  function BitsValue(bits: seq<int>): int
  {
    if bits == [] then 0 else 2 * BitsValue(bits[..|bits| - 1]) + bits[|bits| - 1]
  }

  predicate AllBits(vals: seq<int>)
  {
    forall i :: 0 <= i < |vals| ==> vals[i] == 0 || vals[i] == 1
  }

  lemma ShlPow2Small(b: int, k: nat)
    requires 0 <= b <= 1 && k < CHARBITS
    ensures 0 <= Shl(b, k) < 256
  {
    ShlIsMul(b, k);
    if k < 7 { Pow2Monotone(k, 7); }
    assert Pow2(7) == 128 by {
      assert Pow2(1) == 2 && Pow2(2) == 4 && Pow2(3) == 8;
      assert Pow2(4) == 16 && Pow2(5) == 32 && Pow2(6) == 64;
    }
  }

  /** For 0/1 cells, or-ing at positions 7, 6, ... gives the left-aligned
      binary value of the cells. */
  lemma {:induction false} OrIntoBits(vals: seq<int>)
    requires |vals| <= CHARBITS && AllBits(vals)
    ensures BitsValue(vals) >= 0
    ensures OrInto(vals) == Shl(BitsValue(vals), CHARBITS - |vals|)
  {
    if vals != [] {
      var n := |vals| - 1;
      var pre := vals[..n];
      assert AllBits(pre) by {
        forall i | 0 <= i < |pre| ensures pre[i] == 0 || pre[i] == 1 {
          assert pre[i] == vals[i];
        }
      }
      OrIntoBits(pre);
      var p := BitsValue(pre);
      var b := vals[n];
      var k := CHARBITS - 1 - n;
      assert b == 0 || b == 1;
      assert k + 1 == CHARBITS - |pre|;
      assert OrInto(pre) == Shl(p, k + 1);
      ShlPow2Small(b, k);
      assert Shl(b, k) % 256 == Shl(b, k);
      assert OrInto(vals) == Or(Shl(p, k + 1), Shl(b, k));
      OrDisjoint(p, b, k);
      assert BitsValue(vals) == 2 * p + b;
    }
  }

  /** The high part of c plus the value of its low bits, read most
      significant first from position n - 1 down to 0. */
  lemma {:induction false} MsbBitsValue(c: int, n: nat)
    requires n <= CHARBITS
    ensures BitsValue(MsbBits(c)[..n]) == Shr(c, CHARBITS - n) - Shl(Shr(c, CHARBITS), n)
  {
    if n > 0 {
      MsbBitsValue(c, n - 1);
      var bits := MsbBits(c);
      assert bits[..n][..n - 1] == bits[..n - 1];
      var x := Shr(c, CHARBITS - n);
      assert Shr(c, CHARBITS - n + 1) == x / 2;
      assert bits[n - 1] == BitOf(c, CHARBITS - n);
    }
  }

  /** The bits `charToBinary` stores are 0/1 and spell c modulo 256. */
  lemma MsbBitsRoundTrip(c: int)
    ensures AllBits(MsbBits(c))
    ensures BitsValue(MsbBits(c)) == c % 256
  {
    var bits := MsbBits(c);
    forall i | 0 <= i < |bits| ensures bits[i] == 0 || bits[i] == 1 {
      assert bits[i] == BitOf(c, CHARBITS - 1 - i);
    }
    MsbBitsValue(c, CHARBITS);
    assert bits[..CHARBITS] == bits;
    ShlIsMul(Shr(c, CHARBITS), CHARBITS);
    assert Pow2(CHARBITS) == 256;
    BitsBound(bits);
  }

  lemma {:induction false} BitsBound(bits: seq<int>)
    requires AllBits(bits)
    ensures 0 <= BitsValue(bits) < Pow2(|bits|)
  {
    if bits != [] {
      BitsBound(bits[..|bits| - 1]);
    }
  }

  /** `binaryToChar` applied to the 8 bits `charToBinary` wrote for the char
      holding byte b returns b. */
  lemma {:induction false} CharBinaryRoundTrip(b: Byte)
    ensures OrInto(MsbBits(ToSignedChar(b))) == b
  {
    var c := ToSignedChar(b);
    MsbBitsRoundTrip(c);
    OrIntoBits(MsbBits(c));
    assert Pow2(0) == 1;
  }
}
