/** The block loops of `encode()` and `decode()`, the reserved-cell count
    `encode()` reports, and the round trip the two loops complete. */
module Session {
  import opened Bits
  import opened Geometry
  import opened Block
  import opened Streams
  import opened Grid
  import opened Encoder
  import opened Decoder

  /** Values a bit stream hands out: bits and padding. */
  predicate IsStream(s: seq<int>)
  {
    forall t :: 0 <= t < |s| ==> -1 <= s[t] <= 1
  }

  /** buffer_dequeue hands out bits and padding only. */
  lemma {:induction false} SourceIsStream(bytes: seq<Byte>)
    ensures IsStream(Source(bytes))
  {
    if bytes != [] {
      var u := Unit(bytes[0]);
      var rest := Source(bytes[1..]);
      SourceIsStream(bytes[1..]);
      MsbBitsRoundTrip(ToSignedChar(bytes[0]));
      assert Source(bytes) == u + rest;
      assert forall t :: 0 <= t < |u + rest| ==> (u + rest)[t] == if t < |u| then u[t] else rest[t - |u|];
    }
  }

  /** A block encode_matrix_fill and encode_matrix_parity build from a bit
      stream can be written: one digit or padding per data cell, a bit in
      every reserved cell. */
  lemma EncodedPrintable(d: nat, s: seq<int>)
    requires ValidDimension(d) && IsStream(s)
    ensures Printable(d, Encoded(d, Filled(d, s)))
  {
    var c := Filled(d, s);
    FilledReserved(d, s);
    EncodedKeepsData(d, c);
  }

  // ---------------------------------------------------------------------------
  // encode()

  /** The text the loop of `encode()` emits from what is left of the bit
      stream, s, and the end-of-file indicator: nothing once the input is
      exhausted, otherwise one written block and the text for the rest. */
  function EncodeBlocks(d: nat, s: seq<int>, eof: bool): (text: seq<char>)
    requires ValidDimension(d) && IsStream(s)
    ensures IsDigits(text)
    decreases |s|, !eof
  {
    if eof then []
    else
      DataCount(d);
      EncodedPrintable(d, s);
      Written(d, Encoded(d, Filled(d, s))) + EncodeBlocks(d, Drop(s, Payload(d)), |s| < Payload(d))
  }

  /** `encode()`: fill, protect and write blocks until the input file is at
      its end and the buffer is used up. */
  method Encode(d: nat, bytes: seq<Byte>) returns (text: seq<char>)
    requires ValidDimension(d)
    ensures IsStream(Source(bytes))
    ensures text == EncodeBlocks(d, Source(bytes), false)
  {
    var input := new ByteInput(bytes);
    var buffer := new Buffer(CHARBITS);
    var m := new Matrix(d);
    buffer.size := buffer.capacity;
    assert buffer.buffer[buffer.size..] == [] && input.bytes[input.pos..] == bytes;
    assert buffer.Remaining(input) == Source(bytes);
    SourceIsStream(bytes);
    DataCount(d);
    text := [];
    while !input.eof || buffer.size != buffer.capacity
      invariant m.Valid() && m.dimension == d
      invariant buffer.Valid() && buffer.capacity == CHARBITS && input.Valid() && input.bytes == bytes
      invariant IsStream(buffer.Remaining(input))
      invariant input.eof ==> buffer.Remaining(input) == []
      invariant text + EncodeBlocks(d, buffer.Remaining(input), input.eof) == EncodeBlocks(d, Source(bytes), false)
      decreases |buffer.Remaining(input)|, !input.eof
    {
      assert !input.eof by {
        assert |buffer.buffer[buffer.size..]| <= |buffer.Remaining(input)|;
      }
      ghost var r := buffer.Remaining(input);
      var block := EncodeBlock(m, buffer, input);
      AppendAssoc(text, block, EncodeBlocks(d, buffer.Remaining(input), input.eof));
      text := text + block;
    }
    assert |buffer.buffer[buffer.size..]| == 0;
  }

  /** Proof step: concatenation of texts is associative. */
  lemma AppendAssoc(a: seq<char>, b: seq<char>, c: seq<char>)
    ensures a + (b + c) == (a + b) + c
  {
  }

  /** One pass of the loop of `encode()`: the text of one block, and what
      is left of the stream for the passes after it. */
  method EncodeBlock(m: Matrix, buffer: Buffer, input: ByteInput) returns (block: seq<char>)
    requires m.Valid() && ValidDimension(m.dimension)
    requires buffer.Valid() && buffer.capacity == CHARBITS && input.Valid() && !input.eof
    requires IsStream(buffer.Remaining(input))
    modifies m.matrix, buffer, buffer.buffer, input
    ensures buffer.Valid() && input.Valid() && IsStream(buffer.Remaining(input))
    ensures input.eof ==> buffer.Remaining(input) == []
    ensures |buffer.Remaining(input)| < |old(buffer.Remaining(input))| || input.eof
    ensures EncodeBlocks(m.dimension, old(buffer.Remaining(input)), false)
      == block + EncodeBlocks(m.dimension, buffer.Remaining(input), input.eof)
  {
    ghost var r := buffer.Remaining(input);
    DataCount(m.dimension);
    EncodeFill(m, buffer, input);
    EncodeParity(m);
    EncodedPrintable(m.dimension, r);
    block := EncodeWrite(m);
  }

  /** The count `encode()` reports: the cells of row 0 that pass the
      power-of-two-or-zero test, twice, less one for [0][0]; that is the
      number of reserved cells of a block. */
  method ReservedCount(m: Matrix) returns (numParity: int)
    requires m.Valid() && ValidDimension(m.dimension)
    ensures numParity == |ReservedOrder(m.dimension)|
    ensures numParity == 2 * Log2(m.dimension) + 1
  {
    numParity := 0;
    for i := 0 to m.dimension
      invariant numParity == |Below(i, Pow2OrZero)|
    {
      if Pow2OrZero(i) {
        numParity := numParity + 1;
      }
    }
    AxisList(m.dimension);
    ReservedOrderCount(m.dimension);
    numParity := numParity * 2 - 1;
  }

  // ---------------------------------------------------------------------------
  // decode()

  /** What the loop of `decode()` emits and how it leaves the counters,
      from the block the matrix holds, the text still to read, the bits the
      buffer carries and the counters: read a block, correct it, pack its
      data bits; stop after a block cut short by the end of the input. */
  function DecodeRun(d: nat, prev: seq<int>, rest: seq<char>, pending: seq<int>, tally: Tally): (r: (seq<int>, Tally))
    requires ValidDimension(d) && |prev| == d * d
    ensures r.1.errors >= tally.errors
    ensures r.1.correctable == tally.correctable || r.1.correctable == 0
    decreases |rest|
  {
    var (e, tally') := Corrected(d, ReadBlock(d, prev, rest), tally);
    var bits := pending + DataBits(d, e);
    if |rest| < d * d then (Pack(bits), tally')
    else
      var more := DecodeRun(d, e, rest[d * d..], Leftover(bits), tally');
      (Pack(bits) + more.0, more.1)
  }

  /** `decode()`: read, correct and write blocks until the input file is at
      its end; the counters start at errors 0, correctable 1. */
  method Decode(d: nat, text: seq<char>) returns (out: seq<int>, errors: int, correctable: int)
    requires ValidDimension(d) && IsDigits(text)
    ensures (out, Tally(errors, correctable)) == DecodeRun(d, seq(d * d, _ => 0), text, [], Tally(0, 1))
    ensures errors >= 0 && (correctable == 1 || correctable == 0)
  {
    var m := new Matrix(d);
    var buffer := new Buffer(CHARBITS);
    var input := new DigitInput(text);
    errors := 0;
    correctable := 1;
    out := [];
    ghost var goal := DecodeRun(d, m.Cells(), text, [], Tally(0, 1));
    assert text[input.pos..] == text && buffer.buffer[..buffer.size] == [];
    assert out + goal.0 == goal.0;
    while !input.eof
      invariant m.Valid() && m.dimension == d
      invariant buffer.Valid() && buffer.capacity == CHARBITS && buffer.size < CHARBITS
      invariant input.Valid() && input.text == text
      invariant !input.eof ==> goal == Then(out, DecodeRun(d, m.Cells(), text[input.pos..], buffer.buffer[..buffer.size], Tally(errors, correctable)))
      invariant input.eof ==> goal == (out, Tally(errors, correctable))
      decreases |text| - input.pos, !input.eof
    {
      ghost var r := DecodeRun(d, m.Cells(), text[input.pos..], buffer.buffer[..buffer.size], Tally(errors, correctable));
      var bytes;
      bytes, errors, correctable := DecodeBlock(m, input, buffer, errors, correctable);
      if !input.eof {
        ghost var r' := DecodeRun(d, m.Cells(), text[input.pos..], buffer.buffer[..buffer.size], Tally(errors, correctable));
        assert r == Then(bytes, r');
        ThenAssoc(out, bytes, r');
      }
      out := out + bytes;
    }
  }

  /** out followed by what a run emits, with the counters the run leaves. */
  function Then(out: seq<int>, r: (seq<int>, Tally)): (seq<int>, Tally)
  {
    (out + r.0, r.1)
  }

  /** Proof step: prefixing two outputs in turn is prefixing their concatenation. */
  lemma ThenAssoc(out: seq<int>, bytes: seq<int>, r: (seq<int>, Tally))
    ensures Then(out, Then(bytes, r)) == Then(out + bytes, r)
  {
    assert out + (bytes + r.0) == (out + bytes) + r.0;
  }

  /** One pass of the loop of `decode()`: the bytes of one block, and the
      state the passes after it start from. */
  method DecodeBlock(m: Matrix, input: DigitInput, buffer: Buffer, errors: int, correctable: int)
    returns (bytes: seq<int>, errors': int, correctable': int)
    requires m.Valid() && ValidDimension(m.dimension) && input.Valid() && !input.eof
    requires buffer.Valid() && buffer.capacity == CHARBITS && buffer.size < CHARBITS
    modifies m.matrix, input, buffer, buffer.buffer
    ensures input.Valid() && buffer.Valid() && buffer.size < CHARBITS
    ensures input.pos > old(input.pos) || input.eof
    ensures old(DecodeRun(m.dimension, m.Cells(), input.text[input.pos..], buffer.buffer[..buffer.size], Tally(errors, correctable)))
      == if input.eof then (bytes, Tally(errors', correctable'))
         else Then(bytes, DecodeRun(m.dimension, m.Cells(), input.text[input.pos..], buffer.buffer[..buffer.size], Tally(errors', correctable')))
  {
    ghost var d := m.dimension;
    ghost var prev := m.Cells();
    ghost var rest := input.text[input.pos..];
    ghost var pending := buffer.buffer[..buffer.size];
    DecodeFill(m, input);
    errors', correctable' := DecodeParity(m, errors, correctable);
    ghost var e := m.Cells();
    ghost var bits := pending + DataBits(d, e);
    assert (e, Tally(errors', correctable')) == Corrected(d, ReadBlock(d, prev, rest), Tally(errors, correctable));
    bytes := DecodeWrite(m, buffer);
    DecodePass(d, prev, rest, pending, Tally(errors, correctable), e, Tally(errors', correctable'));
    if !input.eof {
      assert input.text[input.pos..] == rest[m.capacity..];
    }
  }

  /** One unfolding of DecodeRun, in terms of the block the pass leaves. */
  lemma DecodePass(d: nat, prev: seq<int>, rest: seq<char>, pending: seq<int>, tally: Tally, e: seq<int>, tally': Tally)
    requires ValidDimension(d) && |prev| == d * d
    requires (e, tally') == Corrected(d, ReadBlock(d, prev, rest), tally)
    ensures |e| == d * d
    ensures DecodeRun(d, prev, rest, pending, tally)
      == if |rest| < d * d then (Pack(pending + DataBits(d, e)), tally')
         else Then(Pack(pending + DataBits(d, e)),
                   DecodeRun(d, e, rest[d * d..], Leftover(pending + DataBits(d, e)), tally'))
  {
  }

  // ---------------------------------------------------------------------------
  // The round trip

  /** The data cells of an encoded block, row-major, are the stream values,
      padded. */
  lemma EncodedData(d: nat, s: seq<int>)
    requires ValidDimension(d)
    ensures Values(Encoded(d, Filled(d, s)), DataCells(d)) == seq(Payload(d), t requires 0 <= t => Pad(s, t))
  {
    var c := Filled(d, s);
    FilledReserved(d, s);
    EncodedKeepsData(d, c);
    FilledData(d, s);
  }

  /** The stream values, padded to n, without the padding: the first n values. */
  lemma {:induction false} UnpaddedPad(s: seq<int>, n: nat)
    requires forall t :: 0 <= t < |s| ==> s[t] != EOF
    ensures Unpadded(seq(n, t requires 0 <= t => Pad(s, t))) == s[..Min(n, |s|)]
  {
    if n > 0 {
      var vs := seq(n, t requires 0 <= t => Pad(s, t));
      assert vs[..n - 1] == seq(n - 1, t requires 0 <= t => Pad(s, t));
      UnpaddedPad(s, n - 1);
      if n <= |s| {
        assert s[..n] == s[..n - 1] + [s[n - 1]];
      }
    }
  }

  /** The encoder writes the data cells of a block filled from a bit
      stream up to the end of the stream or of the block, and those are the
      bits the decoder takes from it. */
  lemma EncodedSent(d: nat, s: seq<int>)
    requires ValidDimension(d) && AllBits(s)
    ensures Sent(d, Encoded(d, Filled(d, s))) == Min(Payload(d), |s|)
    ensures DataBits(d, Encoded(d, Filled(d, s))) == s[..Min(Payload(d), |s|)]
  {
    var e := Encoded(d, Filled(d, s));
    EncodedData(d, s);
    UnpaddedPad(s, Payload(d));
    UntilPadUpTo(Values(e, DataCells(d)), Min(Payload(d), |s|));
  }

  /** A block filled from a bit stream already holds padding in every data
      cell after the ones written. */
  lemma EncodedPadded(d: nat, s: seq<int>)
    requires ValidDimension(d) && AllBits(s)
    ensures PaddedAfterSent(d, Encoded(d, Filled(d, s))) == Encoded(d, Filled(d, s))
  {
    var e := Encoded(d, Filled(d, s));
    EncodedSent(d, s);
    EncodedData(d, s);
    forall k | 0 <= k < d * d && IsDataCell(d, k) && Rank(d, k) >= Sent(d, e) ensures e[k] == EOF {
      BelowAt(d * d, DataTest(d), k);
      assert Values(e, DataCells(d))[Rank(d, k)] == e[k];
    }
  }

  /** One pass of the decoder's loop over a block that reads back as e
      and that decode_matrix_parity leaves alone. */
  lemma DecodeRunStep(d: nat, prev: seq<int>, rest: seq<char>, pending: seq<int>, tally: Tally, e: seq<int>)
    requires ValidDimension(d) && |prev| == d * d
    requires ReadBlock(d, prev, rest) == e && Corrected(d, e, tally) == (e, tally)
    ensures |rest| < d * d ==> DecodeRun(d, prev, rest, pending, tally) == (Pack(pending + DataBits(d, e)), tally)
    ensures |rest| >= d * d ==>
      (DecodeRun(d, prev, rest, pending, tally)
       == Then(Pack(pending + DataBits(d, e)), DecodeRun(d, e, rest[d * d..], Leftover(pending + DataBits(d, e)), tally)))
  {
  }

  /** The block the encoder builds from a bit stream reads back as it was
      written, decode_matrix_parity leaves it and the counters alone, and
      its data bits are the stream's first values. */
  lemma BlockRoundTrip(d: nat, s: seq<int>, prev: seq<int>, more: seq<char>, tally: Tally)
    requires ValidDimension(d) && AllBits(s) && |prev| == d * d
    requires |s| < Payload(d) ==> more == []
    ensures Printable(d, Encoded(d, Filled(d, s)))
    ensures ReadBlock(d, prev, Written(d, Encoded(d, Filled(d, s))) + more) == Encoded(d, Filled(d, s))
    ensures Corrected(d, Encoded(d, Filled(d, s)), tally) == (Encoded(d, Filled(d, s)), tally)
    ensures DataBits(d, Encoded(d, Filled(d, s))) == s[..Min(Payload(d), |s|)]
    ensures |Written(d, Encoded(d, Filled(d, s)))| == d * d - Payload(d) + Min(Payload(d), |s|)
  {
    var e := Encoded(d, Filled(d, s));
    EncodedPrintable(d, s);
    EncodedSent(d, s);
    EncodedPadded(d, s);
    WriteReadRoundTrip(d, e, prev, more);
    FilledReserved(d, s);
    CleanBlockUnchanged(d, Filled(d, s), tally);
    WrittenLength(d, e);
    ReservedOrderCount(d);
  }

  /** The round trip over the last block, which the stream does not fill. */
  lemma RoundTripLast(d: nat, s: seq<int>, prev: seq<int>, pending: seq<int>, tally: Tally)
    requires ValidDimension(d) && AllBits(s) && |prev| == d * d && |s| < Payload(d)
    ensures DecodeRun(d, prev, EncodeBlocks(d, s, false), pending, tally) == (Pack(pending + s), tally)
  {
    var e := Encoded(d, Filled(d, s));
    BlockRoundTrip(d, s, prev, [], tally);
    var text := Written(d, e) + [];
    assert EncodeBlocks(d, s, false) == text by {
      assert Drop(s, Payload(d)) == [];
    }
    DecodeRunStep(d, prev, text, pending, tally, e);
    assert s[..|s|] == s;
  }

  /** Decoding the text of a full block the encoder built from a bit
      stream packs its bits and goes on with the text of the rest of the
      stream, the block it read staying in the matrix. */
  lemma DecodeFullBlock(d: nat, s: seq<int>, prev: seq<int>, pending: seq<int>, tally: Tally)
    requires ValidDimension(d) && AllBits(s) && |prev| == d * d && |s| >= Payload(d)
    ensures DecodeRun(d, prev, EncodeBlocks(d, s, false), pending, tally)
      == Then(Pack(pending + s[..Payload(d)]),
              DecodeRun(d, Encoded(d, Filled(d, s)), EncodeBlocks(d, s[Payload(d)..], false),
                        Leftover(pending + s[..Payload(d)]), tally))
  {
    var P := Payload(d);
    var e := Encoded(d, Filled(d, s));
    var more := EncodeBlocks(d, s[P..], false);
    BlockRoundTrip(d, s, prev, more, tally);
    var text := Written(d, e) + more;
    assert EncodeBlocks(d, s, false) == text by {
      assert Drop(s, P) == s[P..];
    }
    assert text[d * d..] == more;
    DecodeRunStep(d, prev, text, pending, tally, e);
  }

  /** The round trip over a full block, given the round trip over the rest. */
  lemma RoundTripFull(d: nat, s: seq<int>, prev: seq<int>, pending: seq<int>, tally: Tally)
    requires ValidDimension(d) && AllBits(s) && |prev| == d * d && |s| >= Payload(d)
    requires DecodeRun(d, Encoded(d, Filled(d, s)), EncodeBlocks(d, s[Payload(d)..], false),
                       Leftover(pending + s[..Payload(d)]), tally)
      == (Pack(Leftover(pending + s[..Payload(d)]) + s[Payload(d)..]), tally)
    ensures DecodeRun(d, prev, EncodeBlocks(d, s, false), pending, tally) == (Pack(pending + s), tally)
  {
    var P := Payload(d);
    DecodeFullBlock(d, s, prev, pending, tally);
    ThenPack(DecodeRun(d, prev, EncodeBlocks(d, s, false), pending, tally),
             DecodeRun(d, Encoded(d, Filled(d, s)), EncodeBlocks(d, s[P..], false), Leftover(pending + s[..P]), tally),
             pending, s, P, tally);
  }

  /** Packing the bits of one block and then the carried bits with the
      rest packs the whole. */
  lemma ThenPack(x: (seq<int>, Tally), y: (seq<int>, Tally), pending: seq<int>, s: seq<int>, n: nat, tally: Tally)
    requires n <= |s|
    requires x == Then(Pack(pending + s[..n]), y) && y == (Pack(Leftover(pending + s[..n]) + s[n..]), tally)
    ensures x == (Pack(pending + s), tally)
  {
    PackConcat(pending + s[..n], s[n..]);
    assert pending + s[..n] + s[n..] == pending + s;
  }

  /** Encoding a bit stream and reading the text back, block after block,
      hands the stream to the byte packer unchanged and leaves the counters
      alone. */
  lemma {:induction false} RoundTripBlocks(d: nat, s: seq<int>, prev: seq<int>, pending: seq<int>, tally: Tally)
    requires ValidDimension(d) && AllBits(s) && |prev| == d * d
    ensures DecodeRun(d, prev, EncodeBlocks(d, s, false), pending, tally) == (Pack(pending + s), tally)
    decreases |s|
  {
    var P := Payload(d);
    DataCount(d);
    if |s| >= P {
      RoundTripBlocks(d, s[P..], Encoded(d, Filled(d, s)), Leftover(pending + s[..P]), tally);
      RoundTripFull(d, s, prev, pending, tally);
    } else {
      RoundTripLast(d, s, prev, pending, tally);
    }
  }

  /** For input without 0xFF bytes, buffer_dequeue hands out the bits of
      the bytes, and packing them gives the bytes back. */
  lemma {:induction false} SourcePack(bytes: seq<Byte>)
    requires forall t :: 0 <= t < |bytes| ==> bytes[t] != 0xFF
    ensures AllBits(Source(bytes))
    ensures Pack(Source(bytes)) == bytes
  {
    if bytes != [] {
      var c := ToSignedChar(bytes[0]);
      var rest := Source(bytes[1..]);
      SourcePack(bytes[1..]);
      MsbBitsRoundTrip(c);
      CharBinaryRoundTrip(bytes[0]);
      assert Source(bytes) == MsbBits(c) + rest;
      assert (MsbBits(c) + rest)[..CHARBITS] == MsbBits(c);
      assert (MsbBits(c) + rest)[CHARBITS..] == rest;
    }
  }

  /** decode(encode(bytes)) == bytes for input without 0xFF bytes, and the
      decoder reports no errors. */
  lemma EncodeDecodeRoundTrip(d: nat, bytes: seq<Byte>)
    requires ValidDimension(d)
    requires forall t :: 0 <= t < |bytes| ==> bytes[t] != 0xFF
    ensures IsStream(Source(bytes))
    ensures DecodeRun(d, seq(d * d, _ => 0), EncodeBlocks(d, Source(bytes), false), [], Tally(0, 1))
      == (bytes, Tally(0, 1))
  {
    var s := Source(bytes);
    SourceIsStream(bytes);
    SourcePack(bytes);
    RoundTripBlocks(d, s, seq(d * d, _ => 0), [], Tally(0, 1));
    assert [] + s == s;
  }

  // ---------------------------------------------------------------------------
  // The 0xFF byte

  /** Shifting 0 right gives 0. */
  lemma {:induction false} ShrZero(k: nat)
    ensures Shr(0, k) == 0
  {
    if k > 0 {
      ShrZero(k - 1);
    }
  }

  /** A block without a 1 has syndrome 0 and no ones. */
  lemma {:induction false} NoOnesSyndrome(c: seq<int>, n: nat)
    requires n <= |c| && forall k :: 0 <= k < |c| ==> c[k] != 1
    ensures Syndrome(c, n) == 0 && Weight(c, n) == 0
  {
    if n > 0 {
      NoOnesSyndrome(c, n - 1);
    }
  }

  /** A syndrome of 0 sets no parity cell. */
  lemma {:induction false} ZeroParityBits(c: seq<int>, k: nat)
    requires 0 < |c|
    ensures SetParityBits(c, 0, k) == c && BitsSet(0, k) == 0
  {
    if k > 0 {
      ZeroParityBits(c, k - 1);
      ShrZero(k - 1);
    }
  }

  /** encode_matrix_parity leaves a block holding no 1 as it is. */
  lemma NoOnesEncoded(d: nat, c: seq<int>)
    requires IsBlock(d, c) && forall k :: 0 <= k < |c| ==> c[k] != 1
    ensures Encoded(d, c) == c
  {
    NoOnesSyndrome(c, d * d);
    ZeroParityBits(c, INT_BITS);
  }

  /** The block layout for d == 2: cells 0, 1 and 2 are reserved, cell 3
      carries data. */
  lemma SmallestLayout()
    ensures ReservedOrder(2) == [0, 1, 2] && DataCells(2) == [3]
  {
    SmallestReservedOrder();
    SmallestDataCells();
  }

  /** 0, 1 and 2 pass the test `(n & (n - 1)) == 0`, 3 does not. */
  lemma SmallPow2()
    ensures Pow2OrZero(0) && Pow2OrZero(1) && Pow2OrZero(2) && !Pow2OrZero(3)
  {
    assert And(1, 0) == 0;
    assert And(2, 1) == 0 by {
      AndSelf(2);
    }
    assert And(3, 2) == 2;
  }

  /** Proof step: for d == 2 the reserved cells are 0, 1 and 2, in write order. */
  lemma SmallestReservedOrder()
    ensures ReservedOrder(2) == [0, 1, 2]
  {
    SmallPow2();
    assert Below(1, Pow2OrZero) == [0];
    assert Below(2, Pow2OrZero) == [0, 1];
    assert Below(1, ColumnTest()) == [];
    assert Below(2, ColumnTest()) == [1];
  }

  /** Proof step: for d == 2 the only data cell is 3. */
  lemma SmallestDataCells()
    ensures DataCells(2) == [3]
  {
    SmallPow2();
    assert IsDataCell(2, 3) && !IsDataCell(2, 2) && !IsDataCell(2, 1) && !IsDataCell(2, 0);
    assert Below(3, DataTest(2)) == [];
  }

  /** For d == 2 the reserved cells 0, 1 and 2 are read from the first
      three digits and the data cell 3 from the fourth. */
  lemma SmallestPositions()
    ensures ReservedPos(2, 0) == 0 && ReservedPos(2, 1) == 1 && ReservedPos(2, 2) == 2
    ensures |ReservedOrder(2)| + Rank(2, 3) == 3
  {
    SmallestLayout();
    assert Below(1, ColumnTest()) == [];
    assert Below(1, Pow2OrZero) == [0];
    assert Below(3, DataTest(2)) == [];
  }

  /** For d == 2 the block of an empty or 0xFF stream: three reserved
      zeros and a padded data cell, which encode_matrix_parity keeps. */
  lemma SmallestEmptyBlock(d: nat)
    requires d == 2
    ensures Filled(d, [EOF]) == Filled(d, []) == Encoded(d, Filled(d, [])) == [0, 0, 0, EOF]
  {
    SmallestLayout();
    var c: seq<int> := [0, 0, 0, EOF];
    assert Filled(d, [EOF]) == c && Filled(d, []) == c;
    NoOnesEncoded(d, c);
  }

  /** Proof step: two texts of three zero digits make one of six. */
  lemma SixZeros()
    ensures "000" + "000" == "000000"
  {
    var t := "000" + "000";
    assert t[0] == t[1] == t[2] == t[3] == t[4] == t[5] == '0';
  }

  /** For d == 2 encode_matrix_write emits three zero digits for the
      block of an empty stream and no data digit: the block reads back from
      that text over a block of sevens, so the text is three digits of
      value 0. */
  lemma SmallestWritten(d: nat)
    requires d == 2
    ensures Printable(d, Encoded(d, Filled(d, [])))
    ensures Written(d, Encoded(d, Filled(d, []))) == "000"
  {
    assert ValidDimension(d) by {
      SmallPow2();
    }
    assert Payload(d) == 1 by {
      DataCount(d);
    }
    var sevens: seq<int> := [7, 7, 7, 7];
    BlockRoundTrip(d, [], sevens, [], Tally(0, 1));
    var e := Encoded(d, Filled(d, []));
    var w := Written(d, e);
    var r := ReadBlock(d, sevens, w);
    assert w + [] == w;
    assert |w| == 3 && r == e;
    SmallestEmptyBlock(d);
    SmallestReadZeros(d, w, r);
  }

  /** For d == 2, three digits that read back as three reserved zeros over
      a block of sevens are "000". */
  lemma SmallestReadZeros(d: nat, w: seq<char>, r: seq<int>)
    requires d == 2 && |w| == 3
    requires r == ReadBlock(d, [7, 7, 7, 7], w) && r[0] == 0 && r[1] == 0 && r[2] == 0
    ensures w == "000"
  {
    SmallestReservedCells();
    SmallestPositions();
    assert r[0] == ReadAt(w, 0, 7) && r[1] == ReadAt(w, 1, 7) && r[2] == ReadAt(w, 2, 7);
    assert DigitValue(w[0]) == 0 && DigitValue(w[1]) == 0 && DigitValue(w[2]) == 0;
    ThreeZeroDigits(w);
  }

  /** For d == 2 cells 0, 1 and 2 are reserved and cell 3 carries data. */
  lemma SmallestReservedCells()
    ensures !IsDataCell(2, 0) && !IsDataCell(2, 1) && !IsDataCell(2, 2) && IsDataCell(2, 3)
  {
    SmallPow2();
  }

  /** Proof step: three characters of digit value 0 spell "000". */
  lemma ThreeZeroDigits(w: seq<char>)
    requires |w| == 3 && DigitValue(w[0]) == 0 && DigitValue(w[1]) == 0 && DigitValue(w[2]) == 0
    ensures w == "000"
  {
    assert w[0] == '0' && w[1] == '0' && w[2] == '0';
  }

  /** For d == 2 a lone 0xFF byte makes two blocks of three reserved
      digits each. */
  lemma SmallestEncodedFF(d: nat)
    requires d == 2
    ensures EncodeBlocks(d, [EOF], false) == "000000"
  {
    DataCount(d);
    SmallestEmptyBlock(d);
    SmallestWritten(d);
    assert Drop([EOF], Payload(d)) == [];
    assert EncodeBlocks(d, [], true) == [];
    assert EncodeBlocks(d, [], false) == "000";
    assert EncodeBlocks(d, [EOF], false) == "000" + "000";
    SixZeros();
  }

  /** For d == 2, reading a block from six zero digits gives a block of
      zeros, which decode_matrix_parity keeps and whose data bit is a 0. */
  lemma SmallestFirstBlock()
    ensures ReadBlock(2, [0, 0, 0, 0], "000000") == [0, 0, 0, 0]
    ensures Corrected(2, [0, 0, 0, 0], Tally(0, 1)) == ([0, 0, 0, 0], Tally(0, 1))
    ensures DataBits(2, [0, 0, 0, 0]) == [0]
  {
    SmallestFirstRead();
    SmallestZerosKept();
  }

  /** For d == 2, six zero digits read over a block of zeros give a block
      of zeros. */
  lemma SmallestFirstRead()
    ensures ReadBlock(2, [0, 0, 0, 0], "000000") == [0, 0, 0, 0]
  {
    var z: seq<int> := [0, 0, 0, 0];
    SmallestLayout();
    SmallestPositions();
    var r := ReadBlock(2, z, "000000");
    assert r[3] == 0 by {
      assert DataTest(2)(3);
    }
    assert r[0] == 0 && r[1] == 0 && r[2] == 0;
    assert r == z;
  }

  /** For d == 2, decode_matrix_parity keeps a block of zeros and the
      counters, and the block's data bit is a 0. */
  lemma SmallestZerosKept()
    ensures Corrected(2, [0, 0, 0, 0], Tally(0, 1)) == ([0, 0, 0, 0], Tally(0, 1))
    ensures DataBits(2, [0, 0, 0, 0]) == [0]
  {
    var z: seq<int> := [0, 0, 0, 0];
    SmallestLayout();
    NoOnesSyndrome(z, 4);
    assert Values(z, [3]) == [0];
  }

  /** For d == 2, reading a block from two zero digits after a block of
      zeros gives three reserved zeros and padding, which
      decode_matrix_parity keeps and which holds no data bit. */
  lemma SmallestLastBlock()
    ensures ReadBlock(2, [0, 0, 0, 0], "00") == [0, 0, 0, EOF]
    ensures Corrected(2, [0, 0, 0, EOF], Tally(0, 1)) == ([0, 0, 0, EOF], Tally(0, 1))
    ensures DataBits(2, [0, 0, 0, EOF]) == []
  {
    var c: seq<int> := [0, 0, 0, EOF];
    SmallestLayout();
    SmallestPositions();
    var r := ReadBlock(2, [0, 0, 0, 0], "00");
    assert r[3] == EOF by {
      assert DataTest(2)(3);
    }
    assert r[0] == 0 && r[1] == 0 && r[2] == 0;
    assert r == c;
    NoOnesSyndrome(c, 4);
    assert Values(c, [3]) == [EOF];
  }

  /** For d == 2 the decoder reads the first four of those six digits as
      one block, whose data bit it keeps pending, and the last two as a
      block without data, so no byte comes out. */
  lemma SmallestDecodedFF()
    ensures DecodeRun(2, seq(4, _ => 0), "000000", [], Tally(0, 1)) == ([], Tally(0, 1))
  {
    var T := Tally(0, 1);
    var z: seq<int> := [0, 0, 0, 0];
    assert seq(4, _ => 0) == z;
    assert "000000"[4..] == "00";
    SmallestFirstBlock();
    SmallestLastBlock();
    assert DecodeRun(2, z, "00", [0], T) == ([], T);
  }

  /** A lone 0xFF byte: buffer_dequeue hands out one padding value, the
      encoder writes blocks without a data digit, and decoding that text
      gives no byte at all, where the round trip would give [0xFF]. */
  lemma LoneFFByteLost(d: nat)
    requires ValidDimension(d)
    ensures Source([0xFF]) == [EOF]
    ensures DecodeRun(d, seq(d * d, _ => 0), EncodeBlocks(d, [EOF], false), [], Tally(0, 1))
      == ([], Tally(0, 1))
  {
    assert Source([0xFF]) == [EOF];
    DataCount(d);
    if Payload(d) > 1 {
      assert Filled(d, [EOF]) == Filled(d, []);
      assert EncodeBlocks(d, [EOF], false) == EncodeBlocks(d, [], false);
      RoundTripBlocks(d, [], seq(d * d, _ => 0), [], Tally(0, 1));
    } else {
      DimensionFacts(d);
      Pow2Grows(2 * Log2(d));
      assert d == 2;
      SmallestEncodedFF(d);
      SmallestDecodedFF();
    }
  }
}
