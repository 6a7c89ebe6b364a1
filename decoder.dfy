/** The three block steps of `decode()`: decode_matrix_fill,
    decode_matrix_parity and decode_matrix_write, each proved to compute the
    block function of the same name in module Block. */
module Decoder {
  import opened Bits
  import opened Geometry
  import opened Block
  import opened Streams
  import opened Grid

  function Min(a: nat, b: nat): (r: nat)
    ensures r <= a && r <= b && (r == a || r == b)
  {
    if a <= b then a else b
  }

  // ---------------------------------------------------------------------------
  // decode_matrix_fill

  /** The position, among the digits decode_matrix_fill reads for a block,
      of the digit read into cell k: the reserved cells come first, in
      ReservedOrder, then the data cells row-major. */
  function ReadPos(d: nat, k: nat): nat
  {
    if IsDataCell(d, k) then |ReservedOrder(d)| + Rank(d, k) else ReservedPos(d, k)
  }

  /** Every cell is read exactly once: ReadPos numbers the cells of a block
      without gaps or repetitions, in the order of ReservedOrder followed by
      DataCells. */
  lemma ReadPosOrder(d: nat, k: nat)
    requires ValidDimension(d) && k < d * d
    ensures |ReservedOrder(d) + DataCells(d)| == d * d
    ensures ReadPos(d, k) < d * d
    ensures (ReservedOrder(d) + DataCells(d))[ReadPos(d, k)] == k
  {
    ReservedOrderCount(d);
    if IsDataCell(d, k) {
      BelowAt(d * d, DataTest(d), k);
    } else {
      ReservedOrderPos(d, k);
    }
  }

  /** The block after decode_matrix_fill has made its first t reads: the
      cells read so far hold what ReadBlock gives them, the others are as
      they were. */
  ghost function PartRead(d: nat, prev: seq<int>, text: seq<char>, t: nat): (c: seq<int>)
    requires |prev| == d * d
    ensures |c| == d * d
  {
    seq(d * d, k requires 0 <= k < d * d => if ReadPos(d, k) < t then ReadBlock(d, prev, text)[k] else prev[k])
  }

  lemma PartReadStart(d: nat, prev: seq<int>, text: seq<char>)
    requires |prev| == d * d
    ensures PartRead(d, prev, text, 0) == prev
  {
  }

  /** The read at position t fills exactly the cell whose ReadPos is t. */
  lemma PartReadStep(d: nat, prev: seq<int>, text: seq<char>, t: nat, k: nat)
    requires ValidDimension(d) && |prev| == d * d && k < d * d && ReadPos(d, k) == t
    ensures PartRead(d, prev, text, t)[k] == prev[k]
    ensures PartRead(d, prev, text, t + 1) == PartRead(d, prev, text, t)[k := ReadBlock(d, prev, text)[k]]
  {
    ReadPosOrder(d, k);
    forall q | 0 <= q < d * d && q != k
      ensures PartRead(d, prev, text, t + 1)[q] == PartRead(d, prev, text, t)[q]
    {
      ReadPosOrder(d, q);
    }
  }

  /** After d * d reads every cell has been read. */
  lemma PartReadEnd(d: nat, prev: seq<int>, text: seq<char>)
    requires ValidDimension(d) && |prev| == d * d
    ensures PartRead(d, prev, text, d * d) == ReadBlock(d, prev, text)
  {
    forall k | 0 <= k < d * d ensures ReadPos(d, k) < d * d {
      ReadPosOrder(d, k);
    }
  }

  /** The state of decode_matrix_fill after t reads from the input text at
      p0, rest being the text from p0 on: the cursor has advanced past the
      digits read, the end-of-file indicator is set once a read found the
      text exhausted, and the block is PartRead. */
  ghost predicate ReadState(m: Matrix, input: DigitInput, prev: seq<int>, rest: seq<char>,
                            p0: nat, eof0: bool, t: nat)
    reads m, m.matrix, input
  {
    m.Valid() && ValidDimension(m.dimension) && input.Valid() && |prev| == m.capacity
    && p0 <= |input.text| && rest == input.text[p0..]
    && input.pos == p0 + Min(t, |rest|) && input.eof == (eof0 || t > |rest|)
    && m.Cells() == PartRead(m.dimension, prev, rest, t)
  }

  /** A read into a reserved cell: `fscanf("%1d")`, which leaves the cell
      as it was at the end of the text. */
  method ReadReservedCell(m: Matrix, input: DigitInput, i: nat, j: nat,
                          ghost prev: seq<int>, ghost rest: seq<char>, ghost p0: nat, ghost eof0: bool,
                          ghost t: nat)
    requires i < m.dimension && j < m.dimension && IsReserved(i, j)
    requires ReadState(m, input, prev, rest, p0, eof0, t)
    requires ReadPos(m.dimension, Lin(m.dimension, i, j)) == t
    modifies m.matrix, input
    ensures ReadState(m, input, prev, rest, p0, eof0, t + 1)
  {
    var d := m.dimension;
    var k := Lin(d, i, j);
    LinSplit(d, i, j);
    PartReadStep(d, prev, rest, t, k);
    var old_v := m.matrix[i, j];
    m.CellsAt(i, j);
    var v := input.ScanDigit(old_v);
    m.Set(i, j, v);
    assert t < |rest| ==> rest[t] == input.text[p0 + t];
  }

  /** What ReadBlock puts in data cell k, the read at position t. */
  lemma DataTarget(d: nat, prev: seq<int>, rest: seq<char>, k: nat, t: nat)
    requires |prev| == d * d && k < d * d && IsDataCell(d, k)
    requires t == |ReservedOrder(d)| + Rank(d, k)
    ensures ReadBlock(d, prev, rest)[k] == ReadAt(rest, t, EOF)
  {
  }

  /** A read into a data cell: `fscanf("%1d")`, then -1 once the input's
      end-of-file indicator is set. */
  method ReadDataCell(m: Matrix, input: DigitInput, i: nat, j: nat,
                      ghost prev: seq<int>, ghost rest: seq<char>, ghost p0: nat, ghost eof0: bool,
                      ghost t: nat)
    requires i < m.dimension && j < m.dimension && !IsReserved(i, j)
    requires ReadState(m, input, prev, rest, p0, eof0, t)
    requires t == |ReservedOrder(m.dimension)| + Rank(m.dimension, Lin(m.dimension, i, j))
    modifies m.matrix, input
    ensures ReadState(m, input, prev, rest, p0, eof0, t + 1)
  {
    var d := m.dimension;
    var k := Lin(d, i, j);
    LinSplit(d, i, j);
    DataTarget(d, prev, rest, k, t);
    PartReadStep(d, prev, rest, t, k);
    ghost var target := ReadAt(rest, t, EOF);
    ghost var before := m.Cells();
    assert t < |rest| ==> rest[t] == input.text[p0 + t];
    var old_v := m.matrix[i, j];
    var v := input.ScanDigit(old_v);
    m.Set(i, j, v);
    if input.eof {
      m.Set(i, j, -1);
    }
    assert m.Cells() == before[k := target];
  }

  /** One pass of the third loop of `decode_matrix_fill`: skip the
      reserved cells, read the data cells. */
  method ReadCell(m: Matrix, input: DigitInput, i: nat, j: nat,
                  ghost prev: seq<int>, ghost rest: seq<char>, ghost p0: nat, ghost eof0: bool,
                  ghost t: nat) returns (ghost t': nat)
    requires i < m.dimension && j < m.dimension
    requires ReadState(m, input, prev, rest, p0, eof0, t)
    requires t == |ReservedOrder(m.dimension)| + Rank(m.dimension, Lin(m.dimension, i, j))
    modifies m.matrix, input
    ensures t' == |ReservedOrder(m.dimension)| + Rank(m.dimension, Lin(m.dimension, i, j) + 1)
    ensures ReadState(m, input, prev, rest, p0, eof0, t')
  {
    DataPos(m.dimension, i, j);
    if i == 0 && Pow2OrZero(j) {
      return t;
    }
    if j == 0 && Pow2OrZero(i) {
      return t;
    }
    ReadDataCell(m, input, i, j, prev, rest, p0, eof0, t);
    t' := t + 1;
  }

  /** Where the reserved cells of row 0 and of column 0 fall in the read
      order. */
  lemma RowZeroPos(d: nat, j: nat)
    requires ValidDimension(d) && j < d
    ensures Pow2OrZero(j) ==> ReadPos(d, Lin(d, 0, j)) == |Below(j, Pow2OrZero)|
    ensures |Below(j + 1, Pow2OrZero)| == |Below(j, Pow2OrZero)| + (if Pow2OrZero(j) then 1 else 0)
  {
    LinSplit(d, 0, j);
    assert Below(j + 1, Pow2OrZero) == Below(j, Pow2OrZero) + (if Pow2OrZero(j) then [j] else []);
  }

  lemma ColumnZeroPos(d: nat, i: nat)
    requires ValidDimension(d) && 1 <= i < d
    ensures Pow2OrZero(i) ==> ReadPos(d, Lin(d, i, 0)) == |Axis(d)| + |Below(i, ColumnTest())|
    ensures |Below(i + 1, ColumnTest())| == |Below(i, ColumnTest())| + (if Pow2OrZero(i) then 1 else 0)
  {
    LinSplit(d, i, 0);
    MulMonotone(1, i, d);
    assert Below(i + 1, ColumnTest()) == Below(i, ColumnTest()) + (if Pow2OrZero(i) then [i] else []);
  }

  /** Visiting cell [i][j] advances the data rank when it is a data cell. */
  lemma DataPos(d: nat, i: nat, j: nat)
    requires ValidDimension(d) && i < d && j < d
    ensures Rank(d, Lin(d, i, j) + 1) == Rank(d, Lin(d, i, j)) + (if IsReserved(i, j) then 0 else 1)
  {
    LinSplit(d, i, j);
    RankStep(d, Lin(d, i, j));
  }

  /** The first loop of `decode_matrix_fill`: the reserved cells of row 0. */
  method ReadRowZero(m: Matrix, input: DigitInput,
                     ghost prev: seq<int>, ghost rest: seq<char>, ghost p0: nat, ghost eof0: bool)
    requires ReadState(m, input, prev, rest, p0, eof0, 0)
    modifies m.matrix, input
    ensures ReadState(m, input, prev, rest, p0, eof0, |Axis(m.dimension)|)
  {
    var d := m.dimension;
    ghost var t: nat := 0;
    for j := 0 to d
      invariant t == |Below(j, Pow2OrZero)|
      invariant ReadState(m, input, prev, rest, p0, eof0, t)
    {
      RowZeroPos(d, j);
      if Pow2OrZero(j) {
        ReadReservedCell(m, input, 0, j, prev, rest, p0, eof0, t);
        t := t + 1;
      }
    }
  }

  /** The second loop of `decode_matrix_fill`: the reserved cells of column
      0 from row 1 on. */
  method ReadColumnZero(m: Matrix, input: DigitInput,
                        ghost prev: seq<int>, ghost rest: seq<char>, ghost p0: nat, ghost eof0: bool)
    requires ReadState(m, input, prev, rest, p0, eof0, |Axis(m.dimension)|)
    modifies m.matrix, input
    ensures ReadState(m, input, prev, rest, p0, eof0, |ReservedOrder(m.dimension)|)
  {
    var d := m.dimension;
    ghost var t: nat := |Axis(d)|;
    for i := 1 to d
      invariant t == |Axis(d)| + |Below(i, ColumnTest())|
      invariant ReadState(m, input, prev, rest, p0, eof0, t)
    {
      ColumnZeroPos(d, i);
      if Pow2OrZero(i) {
        ReadReservedCell(m, input, i, 0, prev, rest, p0, eof0, t);
        t := t + 1;
      }
    }
  }

  /** One row of the last loop of `decode_matrix_fill`: its data cells. */
  method ReadDataRow(m: Matrix, input: DigitInput, i: nat,
                     ghost prev: seq<int>, ghost rest: seq<char>, ghost p0: nat, ghost eof0: bool,
                     ghost t: nat) returns (ghost t': nat)
    requires i < m.dimension && t == |ReservedOrder(m.dimension)| + Rank(m.dimension, i * m.dimension)
    requires ReadState(m, input, prev, rest, p0, eof0, t)
    modifies m.matrix, input
    ensures t' == |ReservedOrder(m.dimension)| + Rank(m.dimension, (i + 1) * m.dimension)
    ensures ReadState(m, input, prev, rest, p0, eof0, t')
  {
    var d := m.dimension;
    ghost var row := i * d;
    RowEnd(d, i);
    t' := t;
    for j := 0 to d
      invariant t' == |ReservedOrder(d)| + Rank(d, row + j)
      invariant ReadState(m, input, prev, rest, p0, eof0, t')
    {
      assert Lin(d, i, j) == row + j;
      t' := ReadCell(m, input, i, j, prev, rest, p0, eof0, t');
    }
  }

  /** `decode_matrix_fill`: read the reserved cells of row 0, then those of
      column 0 from row 1 on, then the data cells row-major, one digit each;
      a reserved cell keeps its value when the text is exhausted, a data
      cell becomes padding. The cursor advances by the digits there were. */
  method DecodeFill(m: Matrix, input: DigitInput)
    requires m.Valid() && ValidDimension(m.dimension) && input.Valid()
    modifies m.matrix, input
    ensures m.Valid() && input.Valid()
    ensures m.Cells() == ReadBlock(m.dimension, old(m.Cells()), old(input.text[input.pos..]))
    ensures input.pos == old(input.pos) + Min(m.capacity, |old(input.text[input.pos..])|)
    ensures input.eof == (old(input.eof) || |old(input.text[input.pos..])| < m.capacity)
  {
    var d := m.dimension;
    ghost var prev := m.Cells();
    ghost var p0 := input.pos;
    ghost var rest := input.text[p0..];
    ghost var eof0 := input.eof;
    PartReadStart(d, prev, rest);
    ReadRowZero(m, input, prev, rest, p0, eof0);
    ReadColumnZero(m, input, prev, rest, p0, eof0);
    ReadData(m, input, prev, rest, p0, eof0);
    ReadDone(m, input, prev, rest, p0, eof0);
  }

  /** The last loop of `decode_matrix_fill`: the data cells row-major. */
  method ReadData(m: Matrix, input: DigitInput,
                  ghost prev: seq<int>, ghost rest: seq<char>, ghost p0: nat, ghost eof0: bool)
    requires ReadState(m, input, prev, rest, p0, eof0, |ReservedOrder(m.dimension)|)
    modifies m.matrix, input
    ensures ReadState(m, input, prev, rest, p0, eof0, m.capacity)
  {
    var d := m.dimension;
    ghost var t := |ReservedOrder(d)|;
    for i := 0 to d
      invariant t == |ReservedOrder(d)| + Rank(d, i * d)
      invariant ReadState(m, input, prev, rest, p0, eof0, t)
    {
      t := ReadDataRow(m, input, i, prev, rest, p0, eof0, t);
    }
    ReservedOrderCount(d);
  }

  /** Once every cell is read the block is ReadBlock. */
  lemma ReadDone(m: Matrix, input: DigitInput, prev: seq<int>, rest: seq<char>, p0: nat, eof0: bool)
    requires ReadState(m, input, prev, rest, p0, eof0, m.capacity)
    ensures m.Cells() == ReadBlock(m.dimension, prev, rest)
  {
    PartReadEnd(m.dimension, prev, rest);
  }

  // ---------------------------------------------------------------------------
  // decode_matrix_parity

  /** The first loop of `decode_matrix_parity`: the XOR of the linear
      indices of the cells holding 1 and the parity of their number, [0][0]
      skipped. */
  method DecodeSyndrome(m: Matrix) returns (parity: nat, metaParity: nat)
    requires m.Valid()
    ensures parity == Syndrome(m.Cells(), m.capacity)
    ensures metaParity == Weight(m.Cells(), m.capacity) % 2
  {
    ghost var c := m.Cells();
    var d := m.dimension;
    parity, metaParity := 0, 0;
    for i := 0 to d
      invariant parity == Syndrome(c, i * d) && metaParity == Weight(c, i * d) % 2
    {
      ghost var row := i * d;
      RowEnd(d, i);
      for j := 0 to d
        invariant parity == Syndrome(c, row + j) && metaParity == Weight(c, row + j) % 2
      {
        var k := Lin(d, i, j);
        assert k == row + j;
        if i == 0 && j == 0 {
          XorZero(0);
          continue;
        }
        assert k > 0 by {
          if i > 0 {
            MulMonotone(1, i, d);
          }
        }
        var v := m.matrix[i, j];
        m.CellsAt(i, j);
        if v == 1 {
          OddStep(Weight(c, k));
          XorToggle(metaParity);
          parity := Xor(parity, k);
          metaParity := Xor(metaParity, 1);
        }
      }
    }
  }

  /** What Corrected does, case by case, in the terms the code tests. */
  lemma CorrectedBy(d: nat, c: seq<int>, p: nat, metaParity: nat, tally: Tally)
    requires IsBlock(d, c) && p == Syndrome(c, d * d) && p < d * d
    requires metaParity == Weight(c, d * d) % 2
    ensures p == 0 ==> Corrected(d, c, tally) == (c, tally)
    ensures p != 0 && metaParity == c[0] ==>
      Corrected(d, c, tally) == (c, Tally(tally.errors + 2, 0))
    ensures p != 0 && metaParity != c[0] ==>
      Corrected(d, c, tally) == (c[p := XorOne(c[p])], Tally(tally.errors + 1, tally.correctable))
  {
  }

  /** `decode_matrix_parity`: when the syndrome is not 0, either count a
      double error (the parity of the other ones agrees with [0][0]) and
      clear correctable, or flip the cell the syndrome names with `^= 1` and
      count one error. */
  method DecodeParity(m: Matrix, errors: int, correctable: int) returns (errors': int, correctable': int)
    requires m.Valid() && ValidDimension(m.dimension)
    modifies m.matrix
    ensures (m.Cells(), Tally(errors', correctable'))
      == Corrected(m.dimension, old(m.Cells()), Tally(errors, correctable))
  {
    ghost var c := m.Cells();
    var d := m.dimension;
    var parity, metaParity := DecodeSyndrome(m);
    SyndromeInBlock(d, c);
    assert parity == Syndrome(c, d * d) < m.capacity;
    CorrectedBy(d, c, parity, metaParity, Tally(errors, correctable));
    errors', correctable' := errors, correctable;
    if parity != 0 {
      var meta := m.matrix[0, 0];
      m.CellsAt(0, 0);
      if metaParity == meta {
        errors' := errors' + 2;
        correctable' := 0;
        return;
      } else {
        Split(d, parity);
        var x := parity / d;
        var y := parity % d;
        var v := m.matrix[x, y];
        m.CellsAt(x, y);
        m.Set(x, y, XorOne(v));
        errors' := errors' + 1;
        return;
      }
    }
  }

  // ---------------------------------------------------------------------------
  // decode_matrix_write

  /** The bits decode_matrix_write enqueues from the first n cells. */
  ghost function BitsBelow(d: nat, c: seq<int>, n: nat): seq<int>
    requires |c| == d * d && n <= d * d
  {
    if n == 0 then [] else BitsBelow(d, c, n - 1) + Visit(d, c, n - 1)
  }

  /** The bits of the first n cells are the unpadded values of the data
      cells below n. */
  lemma {:induction false} BitsBelowValues(d: nat, c: seq<int>, n: nat)
    requires |c| == d * d && n <= d * d
    ensures BitsBelow(d, c, n) == Unpadded(Values(c, Below(n, DataTest(d))))
  {
    if n > 0 {
      var k := n - 1;
      BitsBelowValues(d, c, k);
      var ks := Below(k, DataTest(d));
      if IsDataCell(d, k) {
        assert Below(n, DataTest(d)) == ks + [k];
        var vs := Values(c, ks + [k]);
        assert vs[..|vs| - 1] == Values(c, ks);
      } else {
        assert Below(n, DataTest(d)) == ks;
      }
    }
  }

  /** Over the whole block they are DataBits. */
  lemma BitsBelowAll(d: nat, c: seq<int>)
    requires |c| == d * d
    ensures BitsBelow(d, c, d * d) == DataBits(d, c)
  {
    BitsBelowValues(d, c, d * d);
  }

  /** The buffer holds what is left over of bits once out has been written. */
  ghost predicate Holds(buffer: Buffer, bits: seq<int>, out: seq<int>)
    reads buffer, buffer.buffer
  {
    buffer.Valid() && buffer.capacity == CHARBITS && buffer.size < CHARBITS
    && out == Pack(bits) && buffer.buffer[..buffer.size] == Leftover(bits)
  }

  /** Enqueue one bit and, once the buffer is full, write the byte
      binaryToChar makes of it and empty the buffer. */
  method PushBit(buffer: Buffer, ghost bits: seq<int>, v: int, out: seq<int>) returns (out': seq<int>)
    requires Holds(buffer, bits, out)
    modifies buffer, buffer.buffer
    ensures Holds(buffer, bits + [v], out')
  {
    ghost var held := buffer.buffer[..buffer.size];
    PackSnoc(bits, v);
    buffer.Enqueue(v);
    assert buffer.buffer[..buffer.size] == held + [v];
    if buffer.size == buffer.capacity {
      var ch := buffer.BinaryToChar();
      buffer.size := 0;
      out' := out + [ch];
    } else {
      out' := out;
    }
  }

  /** What visiting cell k enqueues: its value when it is a data cell that
      does not hold padding, nothing otherwise. */
  function Visit(d: nat, c: seq<int>, k: nat): (r: seq<int>)
    requires |c| == d * d && k < d * d
    ensures |r| <= 1
  {
    if IsDataCell(d, k) && c[k] != EOF then [c[k]] else []
  }

  /** One pass of the inner loop of `decode_matrix_write`: skip a reserved
      cell, enqueue a data cell unless it is padding. */
  method WriteCell(m: Matrix, buffer: Buffer, i: nat, j: nat,
                   ghost c: seq<int>, ghost pending: seq<int>, ghost bits: seq<int>, out: seq<int>)
    returns (out': seq<int>, ghost bits': seq<int>)
    requires m.Valid() && c == m.Cells() && i < m.dimension && j < m.dimension
    requires bits == pending + BitsBelow(m.dimension, c, Lin(m.dimension, i, j))
    requires Holds(buffer, bits, out)
    modifies buffer, buffer.buffer
    ensures bits' == pending + BitsBelow(m.dimension, c, Lin(m.dimension, i, j) + 1)
    ensures Holds(buffer, bits', out')
  {
    var d := m.dimension;
    LinSplit(d, i, j);
    BitsAppend(d, c, Lin(d, i, j), pending, bits);
    out', bits' := out, bits;
    if i == 0 && Pow2OrZero(j) {
      assert bits' == bits + [];
      return;
    }
    if j == 0 && Pow2OrZero(i) {
      assert bits' == bits + [];
      return;
    }
    var v := m.matrix[i, j];
    m.CellsAt(i, j);
    if v != -1 {
      out' := PushBit(buffer, bits, v, out);
      bits' := bits + [v];
    } else {
      assert bits' == bits + [];
    }
  }

  /** Appending the bits of cell k to those of the cells before it. */
  lemma BitsAppend(d: nat, c: seq<int>, k: nat, pending: seq<int>, bits: seq<int>)
    requires |c| == d * d && k < d * d && bits == pending + BitsBelow(d, c, k)
    ensures bits + Visit(d, c, k) == pending + BitsBelow(d, c, k + 1)
  {
  }

  /** One row of `decode_matrix_write`. */
  method WriteRow(m: Matrix, buffer: Buffer, i: nat,
                  ghost c: seq<int>, ghost pending: seq<int>, ghost bits: seq<int>, out: seq<int>)
    returns (out': seq<int>, ghost bits': seq<int>)
    requires m.Valid() && c == m.Cells() && i < m.dimension
    requires bits == pending + BitsBelow(m.dimension, c, i * m.dimension)
    requires Holds(buffer, bits, out)
    modifies buffer, buffer.buffer
    ensures (i + 1) * m.dimension <= |c|
    ensures bits' == pending + BitsBelow(m.dimension, c, (i + 1) * m.dimension)
    ensures Holds(buffer, bits', out')
  {
    var d := m.dimension;
    ghost var row := i * d;
    RowEnd(d, i);
    out', bits' := out, bits;
    ghost var end := row + d;
    ghost var k := row;
    for j := 0 to d
      invariant k == row + j && k <= end
      invariant bits' == pending + BitsBelow(d, c, k)
      invariant Holds(buffer, bits', out')
    {
      assert Lin(d, i, j) == k;
      out', bits' := WriteCell(m, buffer, i, j, c, pending, bits', out');
      k := k + 1;
    }
  }

  /** `decode_matrix_write`: enqueue the data cells row-major, skipping
      padding, writing a byte whenever the buffer fills. The bytes written
      are Pack of the bits pending in the buffer followed by the block's
      DataBits, and the buffer keeps what is left over. */
  method DecodeWrite(m: Matrix, buffer: Buffer) returns (out: seq<int>)
    requires m.Valid() && ValidDimension(m.dimension)
    requires buffer.Valid() && buffer.capacity == CHARBITS && buffer.size < CHARBITS
    modifies buffer, buffer.buffer
    ensures buffer.Valid() && buffer.size < CHARBITS
    ensures out == Pack(old(buffer.buffer[..buffer.size]) + DataBits(m.dimension, m.Cells()))
    ensures buffer.buffer[..buffer.size] == Leftover(old(buffer.buffer[..buffer.size]) + DataBits(m.dimension, m.Cells()))
  {
    var d := m.dimension;
    ghost var c := m.Cells();
    ghost var pending := buffer.buffer[..buffer.size];
    ghost var bits := pending;
    out := [];
    assert bits == pending + BitsBelow(d, c, 0);
    for i := 0 to d
      invariant i * d <= d * d
      invariant bits == pending + BitsBelow(d, c, i * d)
      invariant Holds(buffer, bits, out)
    {
      out, bits := WriteRow(m, buffer, i, c, pending, bits, out);
    }
    BitsBelowAll(d, c);
  }
}
