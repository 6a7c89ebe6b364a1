/** The three block steps of `encode()`: encode_matrix_fill,
    encode_matrix_parity and encode_matrix_write, each proved to compute the
    block function of the same name in module Block. */
module Encoder {
  import opened Bits
  import opened Geometry
  import opened Block
  import opened Streams
  import opened Grid

  /** The stream values still to come after t have been handed out. */
  function Drop(s: seq<int>, t: nat): (r: seq<int>)
    ensures t <= |s| ==> |r| == |s| - t
    ensures t >= |s| ==> r == []
  {
    if t <= |s| then s[t..] else []
  }

  /** Handing out one more value from what is left of the stream. */
  lemma DropStep(s: seq<int>, t: nat)
    ensures Drop(Drop(s, t), 1) == Drop(s, t + 1)
    ensures Pad(Drop(s, t), 0) == Pad(s, t)
    ensures (1 > |Drop(s, t)|) == (t + 1 > |s|)
  {
  }

  /** a and b agree on their first n cells. */
  ghost predicate SamePrefix(a: seq<int>, b: seq<int>, n: nat)
  {
    n <= |a| && n <= |b| && forall q :: 0 <= q < n ==> a[q] == b[q]
  }

  /** The state of `encode_matrix_fill` after visiting the first n cells
      of the block, row-major, having handed out t values of the stream s:
      those cells hold what they hold in Filled(d, s), the values handed out
      are gone, and the end-of-file indicator is set once more values were
      asked for than s holds. */
  ghost predicate FillState(m: Matrix, buffer: Buffer, input: ByteInput,
                            s: seq<int>, eof0: bool, n: nat, t: nat)
    reads m, m.matrix, buffer, buffer.buffer, input
  {
    m.Valid() && buffer.Valid() && buffer.capacity == CHARBITS && input.Valid()
    && t == Rank(m.dimension, n)
    && buffer.Remaining(input) == Drop(s, t) && input.eof == (eof0 || t > |s|)
    && SamePrefix(m.Cells(), Filled(m.dimension, s), n)
  }

  /** One pass of the inner loop of `encode_matrix_fill`: cell [i][j]
      becomes 0 when it is reserved, and otherwise takes the next value
      buffer_dequeue hands out. */
  method FillCell(m: Matrix, buffer: Buffer, input: ByteInput, i: nat, j: nat,
                  ghost s: seq<int>, ghost eof0: bool, ghost t: nat) returns (ghost t': nat)
    requires m.Valid() && i < m.dimension && j < m.dimension
    requires FillState(m, buffer, input, s, eof0, Lin(m.dimension, i, j), t)
    modifies m.matrix, buffer, buffer.buffer, input
    ensures FillState(m, buffer, input, s, eof0, Lin(m.dimension, i, j) + 1, t')
  {
    var k := Lin(m.dimension, i, j);
    ghost var e := Filled(m.dimension, s);
    LinSplit(m.dimension, i, j);
    RankStep(m.dimension, k);
    DropStep(s, t);
    if i == 0 && Pow2OrZero(j) {
      m.Set(i, j, 0);
      assert m.Cells()[k] == e[k];
      return t;
    }
    if j == 0 && Pow2OrZero(i) {
      m.Set(i, j, 0);
      assert m.Cells()[k] == e[k];
      return t;
    }
    var v := buffer.Dequeue(input);
    m.Set(i, j, v);
    assert m.Cells()[k] == e[k];
    t' := t + 1;
  }

  /** The inner loop of `encode_matrix_fill` over row i, which starts at
      linear index i * d. */
  method FillRow(m: Matrix, buffer: Buffer, input: ByteInput, i: nat,
                 ghost s: seq<int>, ghost eof0: bool, ghost t: nat) returns (ghost t': nat)
    requires m.Valid() && i < m.dimension
    requires FillState(m, buffer, input, s, eof0, i * m.dimension, t)
    modifies m.matrix, buffer, buffer.buffer, input
    ensures FillState(m, buffer, input, s, eof0, (i + 1) * m.dimension, t')
  {
    var d := m.dimension;
    ghost var row := i * d;
    RowEnd(d, i);
    t' := t;
    for j := 0 to d
      invariant FillState(m, buffer, input, s, eof0, row + j, t')
    {
      assert Lin(d, i, j) == row + j;
      t' := FillCell(m, buffer, input, i, j, s, eof0, t');
    }
  }

  /** `encode_matrix_fill`: reserved cells become 0 and data cells, row-major,
      take the successive values buffer_dequeue hands out. The values that
      fill the block are gone from the buffer and the input, and the input's
      end-of-file indicator is set exactly when the block asked for more
      values than were left. */
  method EncodeFill(m: Matrix, buffer: Buffer, input: ByteInput)
    requires m.Valid() && ValidDimension(m.dimension)
    requires buffer.Valid() && buffer.capacity == CHARBITS && input.Valid()
    modifies m.matrix, buffer, buffer.buffer, input
    ensures buffer.Valid() && input.Valid()
    ensures m.Cells() == Filled(m.dimension, old(buffer.Remaining(input)))
    ensures buffer.Remaining(input) == Drop(old(buffer.Remaining(input)), Payload(m.dimension))
    ensures input.eof == (old(input.eof) || |old(buffer.Remaining(input))| < Payload(m.dimension))
  {
    ghost var s := buffer.Remaining(input);
    ghost var eof0 := input.eof;
    ghost var t := FillRows(m, buffer, input, s, eof0);
    FillEnd(m, buffer, input, s, eof0, t);
  }

  /** The two loops of `encode_matrix_fill`, row by row. */
  method FillRows(m: Matrix, buffer: Buffer, input: ByteInput, ghost s: seq<int>, ghost eof0: bool)
    returns (ghost t: nat)
    requires FillState(m, buffer, input, s, eof0, 0, 0)
    modifies m.matrix, buffer, buffer.buffer, input
    ensures FillState(m, buffer, input, s, eof0, m.dimension * m.dimension, t)
  {
    var d := m.dimension;
    t := 0;
    for i := 0 to d
      invariant FillState(m, buffer, input, s, eof0, i * d, t)
    {
      t := FillRow(m, buffer, input, i, s, eof0, t);
    }
  }

  /** Once every cell is visited the block is Filled, and Payload values
      were taken. */
  lemma FillEnd(m: Matrix, buffer: Buffer, input: ByteInput, s: seq<int>, eof0: bool, t: nat)
    requires FillState(m, buffer, input, s, eof0, m.dimension * m.dimension, t)
    ensures m.Cells() == Filled(m.dimension, s)
    ensures buffer.Remaining(input) == Drop(s, Payload(m.dimension))
    ensures input.eof == (eof0 || |s| < Payload(m.dimension))
  {
    assert m.Cells() == Filled(m.dimension, s);
  }

  /** The first loop of `encode_matrix_parity`: the XOR of the linear
      indices of the cells holding 1, and the parity of their number. */
  method EncodeSyndrome(m: Matrix) returns (parity: nat, metaParity: nat)
    requires m.Valid()
    ensures parity == Syndrome(m.Cells(), m.capacity)
    ensures metaParity == Ones(m.Cells()) % 2
  {
    ghost var c := m.Cells();
    var d := m.dimension;
    parity, metaParity := 0, 0;
    for i := 0 to d
      invariant parity == Syndrome(c, i * d) && metaParity == OnesBelow(c, i * d) % 2
    {
      ghost var row := i * d;
      RowEnd(d, i);
      for j := 0 to d
        invariant parity == Syndrome(c, row + j) && metaParity == OnesBelow(c, row + j) % 2
      {
        var k := Lin(d, i, j);
        var v := m.matrix[i, j];
        m.CellsAt(i, j);
        assert k == row + j && c[k] == v;
        if v == 1 {
          assert Syndrome(c, k + 1) == Xor(parity, k);
          assert OnesBelow(c, k + 1) == OnesBelow(c, k) + 1;
          OddStep(OnesBelow(c, k));
          XorToggle(metaParity);
          parity := Xor(parity, k);
          metaParity := Xor(metaParity, 1);
        }
      }
    }
    OnesBelowWeight(c, |c|);
  }

  /** Encoded(d, c) is c with the parity cells set, and with [0][0] set
      when the given overall parity is odd. */
  lemma EncodedBy(d: nat, c: seq<int>, p: nat, metaParity: nat)
    requires IsBlock(d, c) && p == Syndrome(c, d * d) && p < d * d
    requires metaParity == (Ones(c) + BitsSet(p, INT_BITS)) % 2
    ensures var r := SetParityBits(c, p, INT_BITS);
      Encoded(d, c) == if metaParity == 1 then r[Lin(d, 0, 0) := 1] else r
  {
  }

  /** The second loop of `encode_matrix_parity`: for every set bit k of
      the syndrome p below `sizeof(int) * 4` set cell 2^k to 1, toggling the
      running parity once for each. */
  method SetParityCells(m: Matrix, p: nat, metaParity: nat, ghost c: seq<int>) returns (metaParity': nat)
    requires m.Valid() && ValidDimension(m.dimension)
    requires c == m.Cells() && p < m.capacity && metaParity == Ones(c) % 2
    modifies m.matrix
    ensures m.Cells() == SetParityBits(c, p, INT_BITS)
    ensures metaParity' == (Ones(c) + BitsSet(p, INT_BITS)) % 2
  {
    var d := m.dimension;
    metaParity' := metaParity;
    for k := 0 to INT_BITS
      invariant metaParity' == (Ones(c) + BitsSet(p, k)) % 2
      invariant m.Cells() == SetParityBits(c, p, k)
    {
      if BitOf(p, k) == 1 {
        OddStep(Ones(c) + BitsSet(p, k));
        XorToggle(metaParity');
        metaParity' := Xor(metaParity', 1);
        var position := Shl(1, k);
        ShlIsMul(1, k);
        BitSetBound(p, k);
        Split(d, position);
        var x := position / d;
        var y := position % d;
        m.Set(x, y, 1);
      }
    }
  }

  /** `encode_matrix_parity`: XOR the linear indices of the cells holding 1
      and count them, then set cell 2^k for every set bit k of the result
      below `sizeof(int) * 4`, counting each, and set [0][0] to 1 when the
      count is odd. */
  method EncodeParity(m: Matrix)
    requires m.Valid() && ValidDimension(m.dimension)
    modifies m.matrix
    ensures m.Cells() == Encoded(m.dimension, old(m.Cells()))
  {
    ghost var c := m.Cells();
    var parity, metaParity := EncodeSyndrome(m);
    SyndromeInBlock(m.dimension, c);
    assert parity == Syndrome(c, m.dimension * m.dimension) < m.capacity;
    metaParity := SetParityCells(m, parity, metaParity, c);
    EncodedBy(m.dimension, c, parity, metaParity);
    if metaParity == 1 {
      m.Set(0, 0, 1);
    }
  }

  /** The state of the first loop of `encode_matrix_write` after columns
      0 .. j - 1 of row 0: it has written the reserved cells among them. */
  ghost predicate RowZeroWritten(d: nat, c: seq<int>, j: nat, text: seq<char>)
    requires IsBlock(d, c) && Printable(d, c)
  {
    |Below(j, Pow2OrZero)| <= |Axis(d)| && text == ReservedText(d, c)[..|Below(j, Pow2OrZero)|]
  }

  /** Visiting column j of row 0 writes its digit when it is reserved. */
  lemma RowZeroStep(d: nat, c: seq<int>, j: nat, text: seq<char>)
    requires IsBlock(d, c) && Printable(d, c) && j < d
    requires RowZeroWritten(d, c, j, text)
    ensures Pow2OrZero(j) ==>
      0 <= c[Lin(d, 0, j)] <= 9 && RowZeroWritten(d, c, j + 1, text + [DigitChar(c[Lin(d, 0, j)])])
    ensures !Pow2OrZero(j) ==> RowZeroWritten(d, c, j + 1, text)
  {
    BelowPrefix(j + 1, d, Pow2OrZero);
    if Pow2OrZero(j) {
      var n := |Below(j, Pow2OrZero)|;
      BelowAt(d, Pow2OrZero, j);
      ReservedStep(d, c, n, Lin(d, 0, j));
      assert Below(j + 1, Pow2OrZero) == Below(j, Pow2OrZero) + [j];
    }
  }

  /** The n-th reserved cell, cell k, is written as the n-th character of
      ReservedText. */
  lemma ReservedStep(d: nat, c: seq<int>, n: nat, k: nat)
    requires IsBlock(d, c) && Printable(d, c)
    requires n < |ReservedOrder(d)| && ReservedOrder(d)[n] == k
    ensures k < d * d && 0 <= c[k] <= 9
    ensures ReservedText(d, c)[..n + 1] == ReservedText(d, c)[..n] + [DigitChar(c[k])]
  {
    ReservedOrderCells(d);
  }

  /** The state of the second loop of `encode_matrix_write` after rows
      1 .. i - 1: it has written row 0's reserved cells and then those of
      column 0 among these rows. */
  ghost predicate ColumnWritten(d: nat, c: seq<int>, i: nat, text: seq<char>)
    requires IsBlock(d, c) && Printable(d, c)
  {
    |Axis(d)| + |Below(i, ColumnTest())| <= |ReservedOrder(d)|
    && text == ReservedText(d, c)[..|Axis(d)| + |Below(i, ColumnTest())|]
  }

  /** Visiting row i of column 0 writes its digit when it is reserved. */
  lemma ColumnStep(d: nat, c: seq<int>, i: nat, text: seq<char>)
    requires IsBlock(d, c) && Printable(d, c) && 1 <= i < d
    requires ColumnWritten(d, c, i, text)
    ensures Pow2OrZero(i) ==>
      0 <= c[Lin(d, i, 0)] <= 9 && ColumnWritten(d, c, i + 1, text + [DigitChar(c[Lin(d, i, 0)])])
    ensures !Pow2OrZero(i) ==> ColumnWritten(d, c, i + 1, text)
  {
    BelowPrefix(i + 1, d, ColumnTest());
    if Pow2OrZero(i) {
      var n := |Axis(d)| + |Below(i, ColumnTest())|;
      BelowAt(d, ColumnTest(), i);
      ReservedStep(d, c, n, Lin(d, i, 0));
      assert Below(i + 1, ColumnTest()) == Below(i, ColumnTest()) + [i];
    }
  }

  /** The first loop of `encode_matrix_write`: the reserved cells of row 0,
      which come first in ReservedOrder. */
  method WriteRowZero(m: Matrix, ghost c: seq<int>) returns (text: seq<char>)
    requires m.Valid() && ValidDimension(m.dimension)
    requires c == m.Cells() && Printable(m.dimension, c)
    ensures ColumnWritten(m.dimension, c, 1, text)
  {
    var d := m.dimension;
    text := [];
    for j := 0 to d
      invariant RowZeroWritten(d, c, j, text)
    {
      RowZeroStep(d, c, j, text);
      if Pow2OrZero(j) {
        var v := m.matrix[0, j];
        m.CellsAt(0, j);
        text := text + [DigitChar(v)];
      }
    }
  }

  /** The second loop of `encode_matrix_write`: the reserved cells of
      column 0 from row 1 on, which follow row 0's in ReservedOrder. */
  method WriteColumnZero(m: Matrix, ghost c: seq<int>, text: seq<char>) returns (text': seq<char>)
    requires m.Valid() && ValidDimension(m.dimension)
    requires c == m.Cells() && Printable(m.dimension, c)
    requires ColumnWritten(m.dimension, c, 1, text)
    ensures text' == ReservedText(m.dimension, c)
  {
    var d := m.dimension;
    text' := text;
    for i := 1 to d
      invariant ColumnWritten(d, c, i, text')
    {
      ColumnStep(d, c, i, text');
      if Pow2OrZero(i) {
        var v := m.matrix[i, 0];
        m.CellsAt(i, 0);
        text' := text' + [DigitChar(v)];
      }
    }
  }

  /** The first two loops of `encode_matrix_write`: the reserved cells of
      row 0, then those of column 0 from row 1 on. */
  method WriteReserved(m: Matrix) returns (text: seq<char>)
    requires m.Valid() && ValidDimension(m.dimension) && Printable(m.dimension, m.Cells())
    ensures text == ReservedText(m.dimension, m.Cells())
  {
    text := WriteRowZero(m, m.Cells());
    text := WriteColumnZero(m, m.Cells(), text);
  }

  /** The state of the last loop of `encode_matrix_write` after visiting
      the first n cells of the block without meeting padding: it has written
      the digits of the data cells among them. */
  ghost predicate DataWritten(d: nat, c: seq<int>, n: nat, text: seq<char>)
    requires IsBlock(d, c) && Printable(d, c)
  {
    Rank(d, n) <= Sent(d, c) && text == DataText(d, c)[..Rank(d, n)]
  }

  /** Visiting cell [i][j]: a reserved cell is skipped, a padding cell ends
      the data text, any other data cell adds its digit. */
  lemma DataStep(d: nat, c: seq<int>, i: nat, j: nat, text: seq<char>)
    requires IsBlock(d, c) && Printable(d, c) && i < d && j < d
    requires DataWritten(d, c, Lin(d, i, j), text)
    ensures IsReserved(i, j) ==> DataWritten(d, c, Lin(d, i, j) + 1, text)
    ensures !IsReserved(i, j) && c[Lin(d, i, j)] == EOF ==> text == DataText(d, c)
    ensures !IsReserved(i, j) && c[Lin(d, i, j)] != EOF ==>
      0 <= c[Lin(d, i, j)] <= 9 && DataWritten(d, c, Lin(d, i, j) + 1, text + [DigitChar(c[Lin(d, i, j)])])
  {
    var k := Lin(d, i, j);
    LinSplit(d, i, j);
    RankStep(d, k);
    if IsDataCell(d, k) {
      var vs := Values(c, DataCells(d));
      var u := UntilPad(vs);
      var r := Rank(d, k);
      BelowAt(d * d, DataTest(d), k);
      assert vs[r] == c[k];
      if c[k] != EOF {
        assert r < |u|;
        var w := DataText(d, c);
        assert w[..r + 1] == w[..r] + [w[r]];
      }
    }
  }

  /** Having visited every cell without meeting padding, the whole data
      text is written. */
  lemma DataDone(d: nat, c: seq<int>, text: seq<char>)
    requires IsBlock(d, c) && Printable(d, c)
    requires DataWritten(d, c, d * d, text)
    ensures text == DataText(d, c)
  {
  }

  /** One row of the last loop of `encode_matrix_write`: its data cells
      up to the first padding cell, which ends the whole loop. */
  method WriteDataRow(m: Matrix, i: nat, ghost c: seq<int>, text: seq<char>)
    returns (text': seq<char>, stop: bool)
    requires m.Valid() && ValidDimension(m.dimension) && i < m.dimension
    requires c == m.Cells() && Printable(m.dimension, c)
    requires DataWritten(m.dimension, c, i * m.dimension, text)
    ensures stop ==> text' == DataText(m.dimension, c)
    ensures !stop ==> DataWritten(m.dimension, c, (i + 1) * m.dimension, text')
  {
    var d := m.dimension;
    ghost var row := i * d;
    RowEnd(d, i);
    text' := text;
    for j := 0 to d
      invariant DataWritten(d, c, row + j, text')
    {
      assert Lin(d, i, j) == row + j;
      DataStep(d, c, i, j, text');
      if i == 0 && Pow2OrZero(j) {
        continue;
      }
      if j == 0 && Pow2OrZero(i) {
        continue;
      }
      var v := m.matrix[i, j];
      m.CellsAt(i, j);
      if v == -1 {
        return text', true;
      }
      text' := text' + [DigitChar(v)];
    }
    stop := false;
  }

  /** The last loop of `encode_matrix_write`: the data cells row-major,
      stopping at the first padding cell. */
  method WriteData(m: Matrix) returns (text: seq<char>)
    requires m.Valid() && ValidDimension(m.dimension) && Printable(m.dimension, m.Cells())
    ensures text == DataText(m.dimension, m.Cells())
  {
    var d := m.dimension;
    ghost var c := m.Cells();
    text := [];
    for i := 0 to d
      invariant DataWritten(d, c, i * d, text)
    {
      var stop;
      text, stop := WriteDataRow(m, i, c, text);
      if stop {
        return;
      }
    }
    DataDone(d, c, text);
  }

  /** `encode_matrix_write`: the reserved cells of row 0, then those of
      column 0 from row 1 on, then the data cells row-major until the first
      padding cell, one digit each. */
  method EncodeWrite(m: Matrix) returns (text: seq<char>)
    requires m.Valid() && ValidDimension(m.dimension) && Printable(m.dimension, m.Cells())
    ensures text == Written(m.dimension, m.Cells())
  {
    var reserved := WriteReserved(m);
    var data := WriteData(m);
    text := reserved + data;
    WrittenSplit(m.dimension, m.Cells());
  }
}
