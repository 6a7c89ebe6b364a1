/** Pure specification of one block. The d x d matrix is taken as its d * d
    cells in row-major order, cell k being [k / d][k % d], each holding 0, 1,
    or the padding value -1 (`EOF`). */
module Block {
  import opened Bits
  import opened Geometry

  predicate IsBlock(d: nat, c: seq<int>)
  {
    ValidDimension(d) && |c| == d * d
  }

  /** The t-th value a stream hands out, or padding once it is exhausted. */
  function Pad(s: seq<int>, t: nat): int
  {
    if t < |s| then s[t] else EOF
  }

  /** The number of data cells before cell k in row-major order. */
  function Rank(d: nat, k: nat): nat
  {
    |Below(k, DataTest(d))|
  }

  /** Visiting cell k advances the data rank exactly when k is a data cell. */
  lemma RankStep(d: nat, k: nat)
    ensures Rank(d, k + 1) == Rank(d, k) + (if IsDataCell(d, k) then 1 else 0)
  {
    assert Below(k + 1, DataTest(d)) == Below(k, DataTest(d)) + (if IsDataCell(d, k) then [k] else []);
  }

  /** The number of data cells of a block. */
  function Payload(d: nat): nat
  {
    |DataCells(d)|
  }

  /** The values of the cells ks, in that order. */
  function Values(c: seq<int>, ks: seq<nat>): (vs: seq<int>)
    requires forall t :: 0 <= t < |ks| ==> ks[t] < |c|
    ensures |vs| == |ks|
  {
    seq(|ks|, t requires 0 <= t < |ks| => c[ks[t]])
  }

  lemma ValuesConcat(c: seq<int>, a: seq<nat>, b: seq<nat>)
    requires forall t :: 0 <= t < |a| ==> a[t] < |c|
    requires forall t :: 0 <= t < |b| ==> b[t] < |c|
    ensures Values(c, a + b) == Values(c, a) + Values(c, b)
  {
  }

  /** The reserved cells below d * d are exactly the cells that are not data cells. */
  predicate ReservedZero(d: nat, c: seq<int>)
    requires |c| == d * d
  {
    forall k :: 0 <= k < d * d && IsReservedCell(d, k) ==> c[k] == 0
  }

  // ---------------------------------------------------------------------------
  // encode_matrix_fill

  /** The block `encode_matrix_fill` builds from the values the bit stream
      hands out: reserved cells 0, data cells (row-major) the successive
      stream values, padding once the stream is exhausted. */
  function Filled(d: nat, s: seq<int>): (c: seq<int>)
    ensures |c| == d * d
  {
    seq(d * d, k requires 0 <= k < d * d => if IsDataCell(d, k) then Pad(s, Rank(d, k)) else 0)
  }

  /** The data cells of a filled block, row-major, hold the first
      Payload(d) stream values, padded. */
  lemma FilledData(d: nat, s: seq<int>)
    ensures Values(Filled(d, s), DataCells(d)) == seq(Payload(d), t requires 0 <= t => Pad(s, t))
  {
    var c := Filled(d, s);
    var ks := DataCells(d);
    forall t | 0 <= t < |ks| ensures Values(c, ks)[t] == Pad(s, t) {
      var k := ks[t];
      assert k < d * d && DataTest(d)(k);
      BelowRank(d * d, DataTest(d), t);
      assert Rank(d, k) == t;
      assert c[k] == Pad(s, t);
    }
  }

  /** Every reserved cell of a filled block, [0][0] included, holds 0. */
  lemma FilledReserved(d: nat, s: seq<int>)
    ensures ReservedZero(d, Filled(d, s))
  {
  }

  /** Once the stream is exhausted at a data cell, that cell and every later
      data cell hold padding. */
  lemma FilledPadding(d: nat, s: seq<int>, k: nat)
    requires k < d * d && IsDataCell(d, k) && Rank(d, k) >= |s|
    ensures forall k' :: k <= k' < d * d && IsDataCell(d, k') ==> Filled(d, s)[k'] == EOF
  {
    forall k' | k <= k' < d * d && IsDataCell(d, k') ensures Filled(d, s)[k'] == EOF {
      BelowPrefix(k, k', DataTest(d));
    }
  }

  // ---------------------------------------------------------------------------
  // Syndrome and parity

  /** XOR of the linear indices of the cells below n that hold 1. */
  function Syndrome(c: seq<int>, n: nat): nat
    requires n <= |c|
  {
    if n == 0 then 0
    else if c[n - 1] == 1 then Xor(Syndrome(c, n - 1), n - 1)
    else Syndrome(c, n - 1)
  }

  /** The number of cells among 1 .. n - 1 that hold 1; cell 0, the
      extended parity bit, is not counted. */
  function Weight(c: seq<int>, n: nat): nat
    requires n <= |c|
  {
    if n <= 1 then 0 else Weight(c, n - 1) + (if c[n - 1] == 1 then 1 else 0)
  }

  /** The number of cells that hold 1, the extended parity bit included. */
  function Ones(c: seq<int>): nat
  {
    if |c| == 0 then 0 else (if c[0] == 1 then 1 else 0) + Weight(c, |c|)
  }

  /** The number of cells among 0 .. n - 1 that hold 1. */
  function OnesBelow(c: seq<int>, n: nat): nat
    requires n <= |c|
  {
    if n == 0 then 0 else OnesBelow(c, n - 1) + (if c[n - 1] == 1 then 1 else 0)
  }

  /** Counting from cell 0 adds the extended parity bit to Weight. */
  lemma {:induction false} OnesBelowWeight(c: seq<int>, n: nat)
    requires 0 < n <= |c|
    ensures OnesBelow(c, n) == (if c[0] == 1 then 1 else 0) + Weight(c, n)
    ensures n == |c| ==> OnesBelow(c, n) == Ones(c)
  {
    if n > 1 {
      OnesBelowWeight(c, n - 1);
    }
  }

  lemma {:induction false} SyndromeBound(c: seq<int>, n: nat, m: nat)
    requires n <= |c| && n <= Pow2(m)
    ensures Syndrome(c, n) < Pow2(m)
  {
    if n > 0 {
      SyndromeBound(c, n - 1, m);
      if c[n - 1] == 1 {
        XorBound(Syndrome(c, n - 1), n - 1, m);
      }
    }
  }

  /** The syndrome of a block is the linear index of one of its cells. */
  lemma SyndromeInBlock(d: nat, c: seq<int>)
    requires IsBlock(d, c)
    ensures Syndrome(c, d * d) < d * d
  {
    DimensionFacts(d);
    SyndromeBound(c, d * d, 2 * Log2(d));
  }

  lemma XorSwap(a: nat, b: nat, e: nat)
    ensures Xor(Xor(a, b), e) == Xor(Xor(a, e), b)
  {
    XorAssoc(a, b, e);
    XorComm(b, e);
    XorAssoc(a, e, b);
  }

  /** Setting cell q changes the syndrome by q exactly when it changes
      whether the cell holds 1. */
  lemma {:induction false} SyndromeUpdate(c: seq<int>, n: nat, q: nat, v: int)
    requires n <= |c| && q < |c|
    ensures q >= n ==> Syndrome(c[q := v], n) == Syndrome(c, n)
    ensures q < n && (c[q] == 1) != (v == 1) ==> Syndrome(c[q := v], n) == Xor(Syndrome(c, n), q)
    ensures q < n && (c[q] == 1) == (v == 1) ==> Syndrome(c[q := v], n) == Syndrome(c, n)
  {
    if n > 0 {
      SyndromeUpdate(c, n - 1, q, v);
      var s := Syndrome(c, n - 1);
      if q == n - 1 {
        if c[q] == 1 && v != 1 {
          XorAssoc(s, q, q);
          XorSelf(q);
          XorZero(s);
        }
      } else if q < n - 1 && (c[q] == 1) != (v == 1) && c[n - 1] == 1 {
        XorSwap(s, q, n - 1);
      }
    }
  }

  /** Setting cell q >= 1 changes the weight by one exactly when it changes
      whether the cell holds 1; cell 0 does not count. */
  lemma {:induction false} WeightUpdate(c: seq<int>, n: nat, q: nat, v: int)
    requires n <= |c| && q < |c|
    ensures q == 0 || q >= n ==> Weight(c[q := v], n) == Weight(c, n)
    ensures 1 <= q < n ==>
      Weight(c[q := v], n) + (if c[q] == 1 then 1 else 0) == Weight(c, n) + (if v == 1 then 1 else 0)
  {
    if n > 1 {
      WeightUpdate(c, n - 1, q, v);
    }
  }

  // ---------------------------------------------------------------------------
  // encode_matrix_parity

  /** `sizeof(int) * 4`: the number of syndrome bits the encoder examines. */
  const INT_BITS: nat := 16

  /** The number of set bits of p below bit k. */
  function BitsSet(p: nat, k: nat): nat
  {
    if k == 0 then 0 else BitsSet(p, k - 1) + BitOf(p, k - 1)
  }

  /** c with cell 2^j set to 1 for every bit j < k of p that is set. */
  function SetParityBits(c: seq<int>, p: nat, k: nat): (r: seq<int>)
    requires p < |c|
    ensures |r| == |c|
  {
    if k == 0 then c
    else
      var r := SetParityBits(c, p, k - 1);
      if BitOf(p, k - 1) == 1 then
        BitSetBound(p, k - 1);
        r[Pow2(k - 1) := 1]
      else r
  }

  /** The block `encode_matrix_parity` leaves: the syndrome p of the block
      is spread over the cells 2^k for its set bits k < INT_BITS, and [0][0]
      is set to 1 when the ones counted, [0][0] included, and the bits set
      make an odd number (otherwise it is left as it was). */
  function Encoded(d: nat, c: seq<int>): (e: seq<int>)
    requires IsBlock(d, c)
    ensures |e| == d * d > 0
  {
    SyndromeInBlock(d, c);
    var p := Syndrome(c, d * d);
    var r := SetParityBits(c, p, INT_BITS);
    if (Ones(c) + BitsSet(p, INT_BITS)) % 2 == 1 then r[0 := 1] else r
  }

  /** Cell q after SetParityBits: 1 if q is 2^j for a set bit j < k, else unchanged. */
  lemma {:induction false} SetParityBitsAt(c: seq<int>, p: nat, k: nat, q: nat)
    requires p < |c| && q < |c|
    ensures SetParityBits(c, p, k)[q] ==
      if q == Pow2(Log2(q)) && Log2(q) < k && BitOf(p, Log2(q)) == 1 then 1 else c[q]
  {
    if k > 0 {
      SetParityBitsAt(c, p, k - 1, q);
      if q == Pow2(k - 1) {
        Log2OfPow2(k - 1);
      }
    }
  }

  /** The parity cells 2^j of c that the encoder may set hold 0. */
  ghost predicate ParityCellsClear(c: seq<int>)
  {
    forall j: nat :: Pow2(j) < |c| ==> c[Pow2(j)] == 0
  }

  /** Each parity cell set adds its index to the syndrome and one to the weight. */
  lemma {:induction false} SetParityBitsEffect(c: seq<int>, p: nat, k: nat)
    requires p < |c| && Syndrome(c, |c|) == p && ParityCellsClear(c)
    ensures Syndrome(SetParityBits(c, p, k), |c|) == HighBits(p, k)
    ensures Weight(SetParityBits(c, p, k), |c|) == Weight(c, |c|) + BitsSet(p, k)
  {
    if k == 0 {
      HighBitsEnds(p, p + 1) by { Pow2Grows(p); }
    } else {
      SetParityBitsEffect(c, p, k - 1);
      var r := SetParityBits(c, p, k - 1);
      HighBitsStep(p, k - 1);
      if BitOf(p, k - 1) == 1 {
        var q := Pow2(k - 1);
        BitSetBound(p, k - 1);
        SetParityBitsAt(c, p, k - 1, q);
        Log2OfPow2(k - 1);
        assert r[q] == 0;
        SyndromeUpdate(r, |c|, q, 1);
        WeightUpdate(r, |c|, q, 1);
      }
    }
  }

  /** A filled block's parity cells are clear. */
  lemma ReservedZeroClear(d: nat, c: seq<int>)
    requires IsBlock(d, c) && ReservedZero(d, c)
    ensures ParityCellsClear(c)
  {
    forall j: nat | Pow2(j) < |c| ensures c[Pow2(j)] == 0 {
      ParityBitCell(d, j);
    }
  }

  /** On a filled block, whose [0][0] is 0, encode_matrix_parity stores in
      [0][0] the parity of all the other ones. */
  lemma EncodedClear(d: nat, c: seq<int>)
    requires IsBlock(d, c) && ReservedZero(d, c)
    ensures Syndrome(c, d * d) < d * d
    ensures Encoded(d, c) == SetParityBits(c, Syndrome(c, d * d), INT_BITS)
      [0 := (Weight(c, d * d) + BitsSet(Syndrome(c, d * d), INT_BITS)) % 2]
  {
    SyndromeInBlock(d, c);
    var p := Syndrome(c, d * d);
    assert IsReservedCell(d, 0);
    SetParityBitsAt(c, p, INT_BITS, 0);
    var r := SetParityBits(c, p, INT_BITS);
    var w := (Weight(c, d * d) + BitsSet(p, INT_BITS)) % 2;
    assert Ones(c) == Weight(c, d * d);
    if w == 0 {
      assert r[0 := w] == r;
    }
    assert Encoded(d, c) == r[0 := w];
  }

  /** After encode_matrix_parity the syndrome of the block is 0. */
  lemma EncodedSyndromeZero(d: nat, c: seq<int>)
    requires IsBlock(d, c) && ReservedZero(d, c)
    ensures Syndrome(Encoded(d, c), d * d) == 0
  {
    EncodedClear(d, c);
    DimensionFacts(d);
    Pow2Table();
    var p := Syndrome(c, d * d);
    ReservedZeroClear(d, c);
    SetParityBitsEffect(c, p, INT_BITS);
    HighBitsEnds(p, INT_BITS);
    var r := SetParityBits(c, p, INT_BITS);
    SyndromeUpdate(r, d * d, 0, (Weight(c, d * d) + BitsSet(p, INT_BITS)) % 2);
    XorZero(0);
  }

  /** Setting cell 0 to the parity of the other cells' ones makes the total even. */
  lemma MetaParityEven(r: seq<int>, w: nat)
    requires |r| > 0 && Weight(r, |r|) == w
    ensures Ones(r[0 := w % 2]) % 2 == 0
  {
    WeightUpdate(r, |r|, 0, w % 2);
    assert Weight(r[0 := w % 2], |r|) == w;
  }

  /** After encode_matrix_parity the block holds an even number of ones,
      the extended parity bit included. */
  lemma EncodedEvenParity(d: nat, c: seq<int>)
    requires IsBlock(d, c) && ReservedZero(d, c)
    ensures Ones(Encoded(d, c)) % 2 == 0
    ensures Encoded(d, c)[0] == 0 || Encoded(d, c)[0] == 1
  {
    EncodedClear(d, c);
    var p := Syndrome(c, d * d);
    ReservedZeroClear(d, c);
    SetParityBitsEffect(c, p, INT_BITS);
    var r := SetParityBits(c, p, INT_BITS);
    MetaParityEven(r, Weight(c, d * d) + BitsSet(p, INT_BITS));
  }

  /** encode_matrix_parity changes no data cell, and leaves every reserved
      cell of a filled block holding 0 or 1. */
  lemma EncodedKeepsData(d: nat, c: seq<int>)
    requires IsBlock(d, c) && ReservedZero(d, c)
    ensures forall k :: 0 <= k < d * d && IsDataCell(d, k) ==> Encoded(d, c)[k] == c[k]
    ensures forall k :: 0 <= k < d * d && IsReservedCell(d, k) ==> Encoded(d, c)[k] == 0 || Encoded(d, c)[k] == 1
  {
    EncodedClear(d, c);
    var p := Syndrome(c, d * d);
    forall k | 0 <= k < d * d
      ensures IsDataCell(d, k) ==> Encoded(d, c)[k] == c[k]
      ensures IsReservedCell(d, k) ==> Encoded(d, c)[k] == 0 || Encoded(d, c)[k] == 1
    {
      SetParityBitsAt(c, p, INT_BITS, k);
      ReservedIffPow2OrZero(d, k);
      if k == Pow2(Log2(k)) {
        Pow2Passes(Log2(k));
      }
    }
  }

  // ---------------------------------------------------------------------------
  // Cell order on the wire (encode_matrix_write, decode_matrix_fill)

  /** Rows i >= 1 passing the test: the rows whose column-0 cell is reserved. */
  function ColumnTest(): nat -> bool
  {
    (i: nat) => i >= 1 && Pow2OrZero(i)
  }

  /** The column-0 cells of the given rows. */
  function ColumnCells(d: nat, rows: seq<nat>): (ks: seq<nat>)
    ensures |ks| == |rows|
  {
    seq(|rows|, t requires 0 <= t < |rows| => rows[t] * d)
  }

  /** The reserved cells in the order they are written and read: row 0 at
      the columns passing the test ([0][0] first), then column 0 at the rows
      i >= 1 passing it. */
  function ReservedOrder(d: nat): seq<nat>
  {
    Axis(d) + ColumnCells(d, Below(d, ColumnTest()))
  }

  /** The position of reserved cell k in ReservedOrder(d). */
  function ReservedPos(d: nat, k: nat): nat
  {
    if d == 0 || k < d then |Below(k, Pow2OrZero)| else |Axis(d)| + |Below(k / d, ColumnTest())|
  }

  lemma {:induction false} AxisSplit(n: nat)
    requires n >= 1
    ensures Below(n, Pow2OrZero) == [0] + Below(n, ColumnTest())
  {
    if n > 1 {
      AxisSplit(n - 1);
    } else {
      assert Below(1, Pow2OrZero) == Below(0, Pow2OrZero) + [0];
    }
  }

  /** There are 2 * log2(d) + 1 reserved cells, and everything else is data. */
  lemma ReservedOrderCount(d: nat)
    requires ValidDimension(d)
    ensures |ReservedOrder(d)| == 2 * Log2(d) + 1
    ensures |ReservedOrder(d)| + Payload(d) == d * d
  {
    AxisList(d);
    AxisSplit(d);
    DataCount(d);
  }

  /** ReservedOrder lists reserved cells of the block only. */
  lemma ReservedOrderCells(d: nat)
    requires ValidDimension(d)
    ensures forall t :: 0 <= t < |ReservedOrder(d)| ==>
      ReservedOrder(d)[t] < d * d && IsReservedCell(d, ReservedOrder(d)[t])
  {
    var ro := ReservedOrder(d);
    var ax := Axis(d);
    var rows := Below(d, ColumnTest());
    forall t | 0 <= t < |ro| ensures ro[t] < d * d && IsReservedCell(d, ro[t]) {
      if t < |ax| {
        var j := ax[t];
        DivModUnique(d, 0, j, j);
        MulMonotone(1, d, d);
      } else {
        var i := rows[t - |ax|];
        assert ro[t] == i * d;
        LinSplit(d, i, 0);
      }
    }
  }

  /** Every reserved cell k appears in ReservedOrder(d), at ReservedPos(d, k). */
  lemma ReservedOrderPos(d: nat, k: nat)
    requires ValidDimension(d) && k < d * d && IsReservedCell(d, k)
    ensures ReservedPos(d, k) < |ReservedOrder(d)|
    ensures ReservedOrder(d)[ReservedPos(d, k)] == k
  {
    if k < d {
      DivModUnique(d, 0, k, k);
      BelowAt(d, Pow2OrZero, k);
    } else {
      Split(d, k);
      var i := k / d;
      if i == 0 {
        MulMonotone(1, d, d);
        assert false;
      }
      assert k == i * d;
      BelowAt(d, ColumnTest(), i);
    }
  }

  // ---------------------------------------------------------------------------
  // Serialization

  /** The character `fprintf("%d", v)` writes for a one-digit cell in
      encode_matrix_write (source.c:392, 401, 424). */
  function DigitChar(v: int): char
    requires 0 <= v <= 9
  {
    ('0' as int + v) as char
  }

  /** The value `fscanf("%1d")` stores from a digit character in
      decode_matrix_fill (source.c:436, 444, 462). */
  function DigitValue(ch: char): int
  {
    ch as int - '0' as int
  }

  predicate IsDigits(text: seq<char>)
  {
    forall t :: 0 <= t < |text| ==> '0' <= text[t] <= '9'
  }

  function Digits(vs: seq<int>): (text: seq<char>)
    requires forall t :: 0 <= t < |vs| ==> 0 <= vs[t] <= 9
    ensures |text| == |vs| && IsDigits(text)
    ensures forall t :: 0 <= t < |vs| ==> DigitValue(text[t]) == vs[t]
  {
    seq(|vs|, t requires 0 <= t < |vs| => DigitChar(vs[t]))
  }

  /** The longest prefix of vs holding no padding. */
  function UntilPad(vs: seq<int>): (r: seq<int>)
    ensures |r| <= |vs| && r == vs[..|r|]
    ensures forall t :: 0 <= t < |r| ==> r[t] != EOF
    ensures |r| < |vs| ==> vs[|r|] == EOF
  {
    if vs == [] || vs[0] == EOF then [] else [vs[0]] + UntilPad(vs[1..])
  }

  /** UntilPad stops at n when the n values before it hold no padding and
      vs ends or holds padding at n. */
  lemma UntilPadUpTo(vs: seq<int>, n: nat)
    requires n <= |vs| && (n == |vs| || vs[n] == EOF)
    requires forall t :: 0 <= t < n ==> vs[t] != EOF
    ensures UntilPad(vs) == vs[..n]
  {
  }

  /** Blocks whose cells `fprintf("%d")` writes as one character each:
      values -1 .. 9, with no padding in a reserved cell. */
  predicate Printable(d: nat, c: seq<int>)
    requires |c| == d * d
  {
    forall k :: 0 <= k < d * d ==> -1 <= c[k] <= 9 && (IsReservedCell(d, k) ==> c[k] != EOF)
  }

  /** The characters encode_matrix_write emits for a block: the reserved
      cells in ReservedOrder, then the data cells row-major up to the first
      padding cell. */
  function Written(d: nat, c: seq<int>): (text: seq<char>)
    requires IsBlock(d, c) && Printable(d, c)
    ensures IsDigits(text)
  {
    ReservedOrderCells(d);
    Digits(Values(c, ReservedOrder(d)) + UntilPad(Values(c, DataCells(d))))
  }

  /** The characters the first two loops of encode_matrix_write emit: the
      reserved cells in ReservedOrder. */
  function ReservedText(d: nat, c: seq<int>): (text: seq<char>)
    requires IsBlock(d, c) && Printable(d, c)
    ensures |text| == |ReservedOrder(d)|
  {
    ReservedOrderCells(d);
    Digits(Values(c, ReservedOrder(d)))
  }

  /** The characters the last loop of encode_matrix_write emits: the data
      cells up to the first padding cell. */
  function DataText(d: nat, c: seq<int>): (text: seq<char>)
    requires IsBlock(d, c) && Printable(d, c)
    ensures |text| == Sent(d, c)
  {
    Digits(UntilPad(Values(c, DataCells(d))))
  }

  lemma WrittenSplit(d: nat, c: seq<int>)
    requires IsBlock(d, c) && Printable(d, c)
    ensures Written(d, c) == ReservedText(d, c) + DataText(d, c)
  {
    ReservedOrderCells(d);
    var a := Values(c, ReservedOrder(d));
    var b := UntilPad(Values(c, DataCells(d)));
    assert Digits(a + b) == Digits(a) + Digits(b);
  }

  /** The digit at pos, or dflt when the text ends before it. */
  function ReadAt(text: seq<char>, pos: nat, dflt: int): int
  {
    if pos < |text| then DigitValue(text[pos]) else dflt
  }

  /** The block decode_matrix_fill leaves when the input continues with
      text: reserved cells read in ReservedOrder (a failed read leaves the
      cell as it was), then data cells row-major (a failed read gives padding). */
  function ReadBlock(d: nat, prev: seq<int>, text: seq<char>): (c: seq<int>)
    requires |prev| == d * d
    ensures |c| == d * d
  {
    seq(d * d, k requires 0 <= k < d * d =>
      if IsDataCell(d, k) then ReadAt(text, |ReservedOrder(d)| + Rank(d, k), EOF)
      else ReadAt(text, ReservedPos(d, k), prev[k]))
  }

  /** The number of data cells encode_matrix_write emits. */
  function Sent(d: nat, c: seq<int>): nat
    requires |c| == d * d
  {
    |UntilPad(Values(c, DataCells(d)))|
  }

  /** c with every data cell from the first padding on set to padding. */
  function PaddedAfterSent(d: nat, c: seq<int>): (r: seq<int>)
    requires |c| == d * d
    ensures |r| == d * d
  {
    seq(d * d, k requires 0 <= k < d * d =>
      if IsDataCell(d, k) && Rank(d, k) >= Sent(d, c) then EOF else c[k])
  }

  /** encode_matrix_write emits exactly a full block's cells when no data
      cell is padding, and fewer otherwise. */
  lemma WrittenLength(d: nat, c: seq<int>)
    requires IsBlock(d, c) && Printable(d, c)
    ensures |Written(d, c)| == |ReservedOrder(d)| + Sent(d, c)
    ensures |Written(d, c)| <= d * d
    ensures |Written(d, c)| == d * d <==> Sent(d, c) == Payload(d)
  {
    ReservedOrderCount(d);
  }

  /** A reserved cell reads back as written. */
  lemma ReadBackReserved(d: nat, c: seq<int>, prev: seq<int>, more: seq<char>, k: nat)
    requires IsBlock(d, c) && Printable(d, c) && |prev| == d * d
    requires k < d * d && IsReservedCell(d, k)
    ensures ReadAt(Written(d, c) + more, ReservedPos(d, k), prev[k]) == c[k]
  {
    var w := Written(d, c);
    ReservedOrderCells(d);
    ReservedOrderPos(d, k);
    var pos := ReservedPos(d, k);
    assert (w + more)[pos] == w[pos];
    assert DigitValue(w[pos]) == Values(c, ReservedOrder(d))[pos];
  }

  /** A data cell reads back as written, or as padding from the first
      padding cell on. */
  lemma ReadBackData(d: nat, c: seq<int>, more: seq<char>, k: nat)
    requires IsBlock(d, c) && Printable(d, c)
    requires Sent(d, c) < Payload(d) ==> more == []
    requires k < d * d && IsDataCell(d, k)
    ensures ReadAt(Written(d, c) + more, |ReservedOrder(d)| + Rank(d, k), EOF)
      == if Rank(d, k) >= Sent(d, c) then EOF else c[k]
  {
    var w := Written(d, c);
    var ro := ReservedOrder(d);
    var vs := Values(c, DataCells(d));
    var r := Rank(d, k);
    ReservedOrderCells(d);
    WrittenLength(d, c);
    BelowAt(d * d, DataTest(d), k);
    if r < Sent(d, c) {
      assert (w + more)[|ro| + r] == w[|ro| + r];
      assert DigitValue(w[|ro| + r]) == UntilPad(vs)[r] == vs[r];
    }
  }

  /** Reading back what encode_matrix_write emitted, followed by end of
      input when the block was cut short, reproduces the block, with data
      cells after the first padding cell read as padding. */
  lemma WriteReadRoundTrip(d: nat, c: seq<int>, prev: seq<int>, more: seq<char>)
    requires IsBlock(d, c) && Printable(d, c) && |prev| == d * d
    requires Sent(d, c) < Payload(d) ==> more == []
    ensures ReadBlock(d, prev, Written(d, c) + more) == PaddedAfterSent(d, c)
  {
    var text := Written(d, c) + more;
    forall k | 0 <= k < d * d ensures ReadBlock(d, prev, text)[k] == PaddedAfterSent(d, c)[k] {
      var a := ReadBlock(d, prev, text)[k];
      if IsDataCell(d, k) {
        ReadBackData(d, c, more, k);
        assert a == ReadAt(text, |ReservedOrder(d)| + Rank(d, k), EOF);
      } else {
        assert IsReservedCell(d, k);
        ReadBackReserved(d, c, prev, more, k);
        assert a == ReadAt(text, ReservedPos(d, k), prev[k]);
      }
    }
  }

  // ---------------------------------------------------------------------------
  // decode_matrix_parity

  /** The decoder's error counters: `errors` and `correctable`. */
  datatype Tally = Tally(errors: int, correctable: int)

  /** What decode_matrix_parity does to a block and the counters: nothing
      when the syndrome is 0; a double error when it is not but the parity of
      the other ones agrees with [0][0]; otherwise it flips the cell the
      syndrome names. */
  function Corrected(d: nat, c: seq<int>, tally: Tally): (r: (seq<int>, Tally))
    requires IsBlock(d, c)
    ensures |r.0| == d * d
    ensures r.1.errors >= tally.errors
    ensures r.1.correctable == tally.correctable || r.1.correctable == 0
  {
    SyndromeInBlock(d, c);
    var p := Syndrome(c, d * d);
    if p == 0 then (c, tally)
    else if Weight(c, d * d) % 2 == c[0] then (c, Tally(tally.errors + 2, 0))
    else (c[p := XorOne(c[p])], Tally(tally.errors + 1, tally.correctable))
  }

  /** A block as the encoder leaves it: syndrome 0, an even number of ones,
      and [0][0] a bit. */
  predicate Codeword(d: nat, e: seq<int>)
  {
    IsBlock(d, e) && Syndrome(e, d * d) == 0 && Ones(e) % 2 == 0 && (e[0] == 0 || e[0] == 1)
  }

  /** encode_matrix_parity turns a filled block into a codeword. */
  lemma EncodedIsCodeword(d: nat, c: seq<int>)
    requires IsBlock(d, c) && ReservedZero(d, c)
    ensures Codeword(d, Encoded(d, c))
  {
    EncodedSyndromeZero(d, c);
    EncodedEvenParity(d, c);
  }

  /** decode_matrix_parity leaves a block straight from the encoder, and the
      counters, as they are. */
  lemma CleanBlockUnchanged(d: nat, c: seq<int>, tally: Tally)
    requires IsBlock(d, c) && ReservedZero(d, c)
    ensures Corrected(d, Encoded(d, c), tally) == (Encoded(d, c), tally)
  {
    EncodedSyndromeZero(d, c);
  }

  /** One bit flipped in a cell other than [0][0]. */
  function Flip(e: seq<int>, q: nat): seq<int>
    requires q < |e|
  {
    e[q := 1 - e[q]]
  }

  /** Flipping a bit cell changes the syndrome by its index, and the weight
      by one. */
  lemma FlipEffect(e: seq<int>, q: nat)
    requires 1 <= q < |e| && (e[q] == 0 || e[q] == 1)
    ensures Syndrome(Flip(e, q), |e|) == Xor(Syndrome(e, |e|), q)
    ensures Weight(Flip(e, q), |e|) % 2 != Weight(e, |e|) % 2
    ensures Flip(e, q)[0] == e[0]
  {
    SyndromeUpdate(e, |e|, q, 1 - e[q]);
    WeightUpdate(e, |e|, q, 1 - e[q]);
  }

  /** The parity of the other ones of a codeword is its [0][0]. */
  lemma CodewordMeta(d: nat, e: seq<int>)
    requires Codeword(d, e)
    ensures Weight(e, |e|) % 2 == e[0]
  {
  }

  /** A single flipped bit outside [0][0] is flipped back: the block is
      restored, errors rises by 1 and correctable is untouched. */
  lemma SingleErrorCorrected(d: nat, e: seq<int>, q: nat, tally: Tally)
    requires Codeword(d, e) && 1 <= q < d * d && (e[q] == 0 || e[q] == 1)
    ensures Corrected(d, Flip(e, q), tally) == (e, Tally(tally.errors + 1, tally.correctable))
  {
    var c := Flip(e, q);
    FlipEffect(e, q);
    CodewordMeta(d, e);
    XorZero(q);
    assert Syndrome(c, |c|) == q;
    assert Weight(c, |c|) % 2 != c[0];
    assert c[q := XorOne(c[q])] == e;
  }

  /** Two flipped bits in distinct cells outside [0][0] are detected and
      left alone: errors rises by 2 and correctable becomes 0. */
  lemma DoubleErrorDetected(d: nat, e: seq<int>, q1: nat, q2: nat, tally: Tally)
    requires Codeword(d, e) && 1 <= q1 < d * d && 1 <= q2 < d * d && q1 != q2
    requires (e[q1] == 0 || e[q1] == 1) && (e[q2] == 0 || e[q2] == 1)
    ensures Corrected(d, Flip(Flip(e, q1), q2), tally) == (Flip(Flip(e, q1), q2), Tally(tally.errors + 2, 0))
  {
    var c1 := Flip(e, q1);
    var c := Flip(c1, q2);
    FlipEffect(e, q1);
    FlipEffect(c1, q2);
    CodewordMeta(d, e);
    XorZero(q1);
    XorZeroIff(q1, q2);
    assert Syndrome(c, |c|) != 0;
    assert Weight(c, |c|) % 2 == c[0];
  }

  // ---------------------------------------------------------------------------
  // decode_matrix_write

  /** vs without its padding values. */
  function Unpadded(vs: seq<int>): (r: seq<int>)
    ensures |r| <= |vs|
    ensures forall t :: 0 <= t < |r| ==> r[t] != EOF
  {
    if vs == [] then []
    else Unpadded(vs[..|vs| - 1]) + (if vs[|vs| - 1] == EOF then [] else [vs[|vs| - 1]])
  }

  /** The bits decode_matrix_write enqueues: the data cells, row-major,
      without the padding cells. */
  function DataBits(d: nat, c: seq<int>): seq<int>
    requires |c| == d * d
  {
    Unpadded(Values(c, DataCells(d)))
  }

  /** The bytes binaryToChar assembles from bits, eight at a time. */
  function Pack(bits: seq<int>): (bytes: seq<int>)
    ensures forall t :: 0 <= t < |bytes| ==> 0 <= bytes[t] < 256
  {
    if |bits| < CHARBITS then []
    else
      Or8Bound(bits[..CHARBITS]);
      [OrInto(bits[..CHARBITS])] + Pack(bits[CHARBITS..])
  }

  /** The bits left over in the buffer after the bytes are packed. */
  function Leftover(bits: seq<int>): (r: seq<int>)
    ensures |r| < CHARBITS
  {
    if |bits| < CHARBITS then bits else Leftover(bits[CHARBITS..])
  }

  lemma {:induction false} Or8Bound(vals: seq<int>)
    requires |vals| <= CHARBITS
    ensures OrInto(vals) < 256
  {
    if vals != [] {
      var n := |vals| - 1;
      Or8Bound(vals[..n]);
      OrBound(OrInto(vals[..n]), Shl(vals[n], CHARBITS - 1 - n) % 256, 8);
      Pow2Table();
    }
  }

  /** Adding one bit to the buffer: a byte is emitted when it fills. */
  lemma {:induction false} PackSnoc(bits: seq<int>, x: int)
    ensures |Leftover(bits)| == CHARBITS - 1 ==>
      Pack(bits + [x]) == Pack(bits) + [OrInto(Leftover(bits) + [x])] && Leftover(bits + [x]) == []
    ensures |Leftover(bits)| < CHARBITS - 1 ==>
      Pack(bits + [x]) == Pack(bits) && Leftover(bits + [x]) == Leftover(bits) + [x]
    decreases |bits|
  {
    if |bits| >= CHARBITS {
      PackSnoc(bits[CHARBITS..], x);
      assert (bits + [x])[..CHARBITS] == bits[..CHARBITS];
      assert (bits + [x])[CHARBITS..] == bits[CHARBITS..] + [x];
    } else if |bits| == CHARBITS - 1 {
      assert (bits + [x])[CHARBITS..] == [];
      assert (bits + [x])[..CHARBITS] == bits + [x];
    }
  }

  /** Packing a concatenation: the left part's leftover bits carry over. */
  lemma {:induction false} PackConcat(a: seq<int>, b: seq<int>)
    ensures Pack(a + b) == Pack(a) + Pack(Leftover(a) + b)
    ensures Leftover(a + b) == Leftover(Leftover(a) + b)
    decreases |a|
  {
    if |a| >= CHARBITS {
      var rest := a[CHARBITS..];
      PackConcat(rest, b);
      assert (a + b)[..CHARBITS] == a[..CHARBITS];
      assert (a + b)[CHARBITS..] == rest + b;
    }
  }

  /** Every bit ends up in a packed byte or in the leftover. */
  lemma {:induction false} PackLength(bits: seq<int>)
    ensures |Pack(bits)| * CHARBITS + |Leftover(bits)| == |bits|
    decreases |bits|
  {
    if |bits| >= CHARBITS {
      PackLength(bits[CHARBITS..]);
    }
  }
}
