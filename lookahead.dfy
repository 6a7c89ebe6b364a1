/** decode_matrix_fill and the loop of `decode()` under a `%1d` conversion
    that reads one character past the digit it converts and pushes it back,
    as the scanf of glibc and of the BSDs does. On the text's last digit that
    look-ahead meets the end of the file and sets the end-of-file indicator,
    so the test `feof(input_file)` after the read (source.c:463-466) turns
    the data cell just read into padding. The rest of the model reads a
    digit without look-ahead; this module states what changes with it. */
module Lookahead {
  import opened Bits
  import opened Geometry
  import opened Block
  import opened Streams
  import opened Encoder
  import opened Decoder
  import opened Session

  /** decode_matrix_fill with a look-ahead `%1d`: reserved cells as in
      ReadBlock; a data cell is padding when its read fails and also when it
      reads the text's last digit. */
  function ReadBlockAhead(d: nat, prev: seq<int>, text: seq<char>): (c: seq<int>)
    requires |prev| == d * d
    ensures |c| == d * d
  {
    seq(d * d, k requires 0 <= k < d * d =>
      if IsDataCell(d, k) then
        (if ReadPos(d, k) + 1 < |text| then DigitValue(text[ReadPos(d, k)]) else EOF)
      else ReadAt(text, ReservedPos(d, k), prev[k]))
  }

  /** Against ReadBlock, the look-ahead changes one cell only: the data
      cell read from the text's last digit becomes padding. */
  lemma ReadAheadCell(d: nat, prev: seq<int>, text: seq<char>, k: nat)
    requires |prev| == d * d && k < d * d
    ensures ReadBlockAhead(d, prev, text)[k]
      == if IsDataCell(d, k) && ReadPos(d, k) + 1 == |text| then EOF else ReadBlock(d, prev, text)[k]
  {
  }

  /** A text longer than a block reads the same with and without look-ahead. */
  lemma ReadAheadLongText(d: nat, prev: seq<int>, text: seq<char>)
    requires ValidDimension(d) && |prev| == d * d && |text| > d * d
    ensures ReadBlockAhead(d, prev, text) == ReadBlock(d, prev, text)
  {
    ReservedOrderCount(d);
    forall k | 0 <= k < d * d && IsDataCell(d, k) ensures ReadPos(d, k) < d * d {
      BelowAt(d * d, DataTest(d), k);
    }
  }

  /** The loop of `decode()` with a look-ahead `%1d`: the pass that reads
      the text's last digit sets end-of-file and is the last one; an empty
      text still makes one pass, as feof is not yet set before it. */
  function DecodeRunAhead(d: nat, prev: seq<int>, rest: seq<char>, pending: seq<int>, tally: Tally): (r: (seq<int>, Tally))
    requires ValidDimension(d) && |prev| == d * d
    ensures r.1.errors >= tally.errors
    ensures r.1.correctable == tally.correctable || r.1.correctable == 0
    decreases |rest|
  {
    var (e, tally') := Corrected(d, ReadBlockAhead(d, prev, rest), tally);
    var bits := pending + DataBits(d, e);
    if |rest| <= d * d then (Pack(bits), tally')
    else
      var more := DecodeRunAhead(d, e, rest[d * d..], Leftover(bits), tally');
      (Pack(bits) + more.0, more.1)
  }

  // ---------------------------------------------------------------------------
  // The last block of the encoder's text

  /** The last data cell the encoder writes for a stream that ends inside
      the block: it is read from the text's last digit and holds the
      stream's last bit. */
  lemma LastSentCell(d: nat, s: seq<int>, k: nat)
    requires ValidDimension(d) && AllBits(s) && 0 < |s| < Payload(d)
    requires k == DataCells(d)[|s| - 1]
    ensures 1 <= k < d * d && IsDataCell(d, k) && Rank(d, k) == |s| - 1
    ensures Encoded(d, Filled(d, s))[k] == s[|s| - 1]
    ensures forall t :: 0 <= t < Payload(d) && t != |s| - 1 ==> DataCells(d)[t] != k
  {
    BelowRank(d * d, DataTest(d), |s| - 1);
    assert IsDataCell(d, k);
    assert k != 0 by {
      assert IsReservedCell(d, 0);
    }
    EncodedData(d, s);
    assert Values(Encoded(d, Filled(d, s)), DataCells(d))[|s| - 1] == Pad(s, |s| - 1);
    forall t | 0 <= t < Payload(d) && t != |s| - 1 ensures DataCells(d)[t] != k {
      BelowRank(d * d, DataTest(d), t);
    }
  }

  /** The encoder's text for a stream that ends inside the block is one
      written block whose last digit is the stream's last bit. */
  lemma LastBlockText(d: nat, s: seq<int>, prev: seq<int>, tally: Tally)
    requires ValidDimension(d) && AllBits(s) && |prev| == d * d && 0 < |s| < Payload(d)
    ensures Printable(d, Encoded(d, Filled(d, s)))
    ensures EncodeBlocks(d, s, false) == Written(d, Encoded(d, Filled(d, s)))
    ensures |EncodeBlocks(d, s, false)| == |ReservedOrder(d)| + |s| < d * d
    ensures ReadBlock(d, prev, EncodeBlocks(d, s, false)) == Encoded(d, Filled(d, s))
  {
    var e := Encoded(d, Filled(d, s));
    BlockRoundTrip(d, s, prev, [], tally);
    ReservedOrderCount(d);
    assert Written(d, e) + [] == Written(d, e);
    assert Drop(s, Payload(d)) == [];
    assert EncodeBlocks(d, [], true) == [];
  }

  /** With look-ahead a text whose last digit is read into data cell k
      reads back as without, except that cell k is padding. */
  lemma AheadDropsLast(d: nat, prev: seq<int>, text: seq<char>, e: seq<int>, k: nat)
    requires |prev| == d * d && ReadBlock(d, prev, text) == e
    requires k < d * d && IsDataCell(d, k) && ReadPos(d, k) + 1 == |text|
    ensures ReadBlockAhead(d, prev, text) == e[k := EOF]
  {
    forall j | 0 <= j < d * d ensures ReadBlockAhead(d, prev, text)[j] == e[k := EOF][j] {
      ReadAheadCell(d, prev, text, j);
      if IsDataCell(d, j) && ReadPos(d, j) + 1 == |text| {
        BelowAt(d * d, DataTest(d), j);
        BelowAt(d * d, DataTest(d), k);
      }
    }
  }

  /** With look-ahead the block of the encoder's last text reads back with
      its last data cell as padding. */
  lemma LastBlockAhead(d: nat, s: seq<int>, prev: seq<int>, tally: Tally, k: nat)
    requires ValidDimension(d) && AllBits(s) && |prev| == d * d && 0 < |s| < Payload(d)
    requires k == DataCells(d)[|s| - 1]
    ensures k < d * d
    ensures ReadBlockAhead(d, prev, EncodeBlocks(d, s, false)) == Encoded(d, Filled(d, s))[k := EOF]
  {
    var text := EncodeBlocks(d, s, false);
    var e := Encoded(d, Filled(d, s));
    LastBlockText(d, s, prev, tally);
    LastSentCell(d, s, k);
    AheadDropsLast(d, prev, text, e, k);
  }

  /** Proof step: a text no longer than a block makes a single pass. */
  lemma AheadSingleBlock(d: nat, prev: seq<int>, text: seq<char>, pending: seq<int>, tally: Tally,
                         c: seq<int>, e: seq<int>, tally': Tally, bits: seq<int>)
    requires ValidDimension(d) && |prev| == d * d && |text| <= d * d
    requires c == ReadBlockAhead(d, prev, text) && (e, tally') == Corrected(d, c, tally)
    requires bits == DataBits(d, e)
    ensures DecodeRunAhead(d, prev, text, pending, tally) == (Pack(pending + bits), tally')
  {
  }

  /** decode_matrix_parity on a codeword whose data cell k, holding 1, was
      read as padding: the syndrome points at k, the parity disagrees with
      [0][0], and the cell is "corrected" from -1 to -1 ^ 1 == -2. */
  lemma LostOneCorrected(d: nat, e: seq<int>, k: nat, tally: Tally)
    requires Codeword(d, e) && 1 <= k < d * d && e[k] == 1
    ensures Corrected(d, e[k := EOF], tally) == (e[k := -2], Tally(tally.errors + 1, tally.correctable))
  {
    var c := e[k := EOF];
    SyndromeUpdate(e, |e|, k, EOF);
    WeightUpdate(e, |e|, k, EOF);
    CodewordMeta(d, e);
    XorZero(k);
    assert Syndrome(c, |c|) == k;
    assert Weight(c, |c|) % 2 != c[0];
    assert XorOne(EOF) == -2;
    assert c[k := XorOne(c[k])] == e[k := -2];
  }

  /** decode_matrix_parity on a codeword whose data cell k, holding 0, was
      read as padding: nothing is detected and nothing changes. */
  lemma LostZeroKept(d: nat, e: seq<int>, k: nat, tally: Tally)
    requires Codeword(d, e) && 1 <= k < d * d && e[k] == 0
    ensures Corrected(d, e[k := EOF], tally) == (e[k := EOF], tally)
  {
    SyndromeUpdate(e, |e|, k, EOF);
  }

  /** The data bits of the last block once its last data cell k holds v in
      place of the stream's last bit: the other bits, then v unless it is
      padding. */
  lemma LastBlockBits(d: nat, s: seq<int>, k: nat, v: int)
    requires ValidDimension(d) && AllBits(s) && 0 < |s| < Payload(d)
    requires k == DataCells(d)[|s| - 1] && (v == EOF || v == -2)
    ensures k < d * d
    ensures DataBits(d, Encoded(d, Filled(d, s))[k := v])
      == s[..|s| - 1] + (if v == EOF then [] else [v])
  {
    var e := Encoded(d, Filled(d, s));
    var P := Payload(d);
    var n := |s|;
    LastSentCell(d, s, k);
    EncodedData(d, s);
    var s' := s[..n - 1] + (if v == EOF then [] else [v]);
    var vs := Values(e[k := v], DataCells(d));
    forall t | 0 <= t < P ensures vs[t] == Pad(s', t) {
      if t != n - 1 {
        assert vs[t] == Values(e, DataCells(d))[t];
      }
    }
    assert vs == seq(P, t requires 0 <= t => Pad(s', t));
    UnpaddedPad(s', P);
    assert s'[..Min(P, |s'|)] == s';
  }

  /** Proof step: the facts about the encoder's last block that the
      decoding lemmas below start from. */
  lemma LastBlockFacts(d: nat, s: seq<int>, prev: seq<int>, tally: Tally, e: seq<int>, k: nat)
    requires ValidDimension(d) && AllBits(s) && |prev| == d * d && 0 < |s| < Payload(d)
    requires e == Encoded(d, Filled(d, s)) && k == DataCells(d)[|s| - 1]
    ensures Codeword(d, e) && 1 <= k < d * d && e[k] == s[|s| - 1]
    ensures |EncodeBlocks(d, s, false)| <= d * d
    ensures ReadBlockAhead(d, prev, EncodeBlocks(d, s, false)) == e[k := EOF]
  {
    LastBlockText(d, s, prev, tally);
    LastSentCell(d, s, k);
    LastBlockAhead(d, s, prev, tally, k);
    FilledReserved(d, s);
    EncodedIsCodeword(d, Filled(d, s));
  }

  /** With look-ahead, a last bit 1 is read as padding, taken for a single
      error and handed on as -2, one error counted. */
  lemma LastOneLost(d: nat, s: seq<int>, prev: seq<int>, pending: seq<int>, tally: Tally)
    requires ValidDimension(d) && AllBits(s) && |prev| == d * d && 0 < |s| < Payload(d)
    requires s[|s| - 1] == 1
    ensures DecodeRunAhead(d, prev, EncodeBlocks(d, s, false), pending, tally)
      == (Pack(pending + s[..|s| - 1] + [-2]), Tally(tally.errors + 1, tally.correctable))
  {
    var init := s[..|s| - 1];
    assert pending + (init + [-2]) == pending + init + [-2];
    var e := Encoded(d, Filled(d, s));
    var k := DataCells(d)[|s| - 1];
    var text := EncodeBlocks(d, s, false);
    LastBlockFacts(d, s, prev, tally, e, k);
    LostOneCorrected(d, e, k, tally);
    LastBlockBits(d, s, k, -2);
    AheadSingleBlock(d, prev, text, pending, tally, e[k := EOF], e[k := -2],
                     Tally(tally.errors + 1, tally.correctable), init + [-2]);
  }

  /** With look-ahead, a last bit 0 is read as padding and dropped, and
      nothing is detected. */
  lemma LastZeroLost(d: nat, s: seq<int>, prev: seq<int>, pending: seq<int>, tally: Tally)
    requires ValidDimension(d) && AllBits(s) && |prev| == d * d && 0 < |s| < Payload(d)
    requires s[|s| - 1] == 0
    ensures DecodeRunAhead(d, prev, EncodeBlocks(d, s, false), pending, tally)
      == (Pack(pending + s[..|s| - 1]), tally)
  {
    var init := s[..|s| - 1];
    assert init + [] == init;
    var e := Encoded(d, Filled(d, s));
    var k := DataCells(d)[|s| - 1];
    var text := EncodeBlocks(d, s, false);
    LastBlockFacts(d, s, prev, tally, e, k);
    LostZeroKept(d, e, k, tally);
    LastBlockBits(d, s, k, EOF);
    AheadSingleBlock(d, prev, text, pending, tally, e[k := EOF], e[k := EOF], tally, init);
  }

  /** With look-ahead, decoding the encoder's text of a stream that ends
      inside one block loses the stream's last bit: a 0 is dropped, and a 1
      is taken for a single error and handed on as -2, one error counted.
      Without look-ahead the same text gives the stream back. */
  lemma LastBitLost(d: nat, s: seq<int>, prev: seq<int>, pending: seq<int>, tally: Tally)
    requires ValidDimension(d) && AllBits(s) && |prev| == d * d && 0 < |s| < Payload(d)
    ensures DecodeRunAhead(d, prev, EncodeBlocks(d, s, false), pending, tally)
      == if s[|s| - 1] == 1 then (Pack(pending + s[..|s| - 1] + [-2]), Tally(tally.errors + 1, tally.correctable))
         else (Pack(pending + s[..|s| - 1]), tally)
    ensures DecodeRun(d, prev, EncodeBlocks(d, s, false), pending, tally) == (Pack(pending + s), tally)
  {
    if s[|s| - 1] == 1 {
      LastOneLost(d, s, prev, pending, tally);
    } else {
      LastZeroLost(d, s, prev, pending, tally);
    }
    RoundTripBlocks(d, s, prev, pending, tally);
  }

  // ---------------------------------------------------------------------------
  // The byte 0x41

  /** Proof step: the bits charToBinary stores for 0x40 and 0x41. */
  lemma Bits4041()
    ensures MsbBits(0x40) == [0, 1, 0, 0, 0, 0, 0, 0]
    ensures MsbBits(0x41) == [0, 1, 0, 0, 0, 0, 0, 1]
  {
    MsbTable(0x40);
    MsbTable(0x41);
  }

  /** Proof step: the 8 bits of c, most significant first, by division. */
  lemma MsbTable(c: int)
    ensures MsbBits(c) == [(c / 128) % 2, (c / 64) % 2, (c / 32) % 2, (c / 16) % 2,
                           (c / 8) % 2, (c / 4) % 2, (c / 2) % 2, c % 2]
  {
    ShrTable(c);
    var m := MsbBits(c);
    assert m[0] == BitOf(c, 7) && m[1] == BitOf(c, 6) && m[2] == BitOf(c, 5) && m[3] == BitOf(c, 4);
    assert m[4] == BitOf(c, 3) && m[5] == BitOf(c, 2) && m[6] == BitOf(c, 1) && m[7] == BitOf(c, 0);
  }

  /** Proof step: x >> k for k = 1 .. 7 is x divided by 2^k. */
  lemma ShrTable(x: int)
    ensures Shr(x, 1) == x / 2 && Shr(x, 2) == x / 4 && Shr(x, 3) == x / 8
    ensures Shr(x, 4) == x / 16 && Shr(x, 5) == x / 32 && Shr(x, 6) == x / 64 && Shr(x, 7) == x / 128
  {
  }

  /** binaryToChar of 0,1,0,0,0,0,0 and a final -2: the -2 sets bits 1 to 7
      of the char, giving 0xFE. */
  lemma PackFE()
    ensures Pack([0, 1, 0, 0, 0, 0, 0] + [-2]) == [0xFE]
  {
    var v: seq<int> := [0, 1, 0, 0, 0, 0, 0] + [-2];
    Or40FE(v);
    assert v[..CHARBITS] == v && v[CHARBITS..] == [];
  }

  /** Proof step: the seven bits 0,1,0,0,0,0,0 make 0x40, and or-ing -2 at
      bit 0 in gives 0xFE. */
  lemma Or40FE(v: seq<int>)
    requires v == [0, 1, 0, 0, 0, 0, 0] + [-2]
    ensures OrInto(v) == 0xFE
  {
    var w: seq<int> := [0, 1, 0, 0, 0, 0, 0];
    OrInto40(w);
    assert v[..7] == w;
    assert Shl(-2, 0) % 256 == 0xFE;
    OrTable();
  }

  /** Proof step: 0 or-ed into the last place of 0,1,0,0,0,0,0 leaves 0x40. */
  lemma OrInto40(w: seq<int>)
    requires w == [0, 1, 0, 0, 0, 0, 0]
    ensures OrInto(w) == 0x40
  {
    var m := MsbBits(0x40);
    Bits4041();
    CharBinaryRoundTrip(0x40);
    assert m[..7] == w;
    assert Shl(m[7], 0) % 256 == 0;
    OrZero(OrInto(w));
  }

  /** Proof step: 0x40 | 0xFE == 0xFE. */
  lemma OrTable()
    ensures Or(0x40, 0xFE) == 0xFE
  {
    assert Or(1, 3) == 3;
    assert Or(2, 7) == 7;
    assert Or(4, 15) == 15;
    assert Or(8, 31) == 31;
    assert Or(16, 63) == 63;
    assert Or(32, 127) == 127;
  }

  /** Proof step: buffer_dequeue hands out the 8 bits of 0x41 for the
      input [0x41]. */
  lemma Source41()
    ensures IsStream(Source([0x41]))
    ensures Source([0x41]) == [0, 1, 0, 0, 0, 0, 0, 1]
  {
    SourceIsStream([0x41]);
    Bits4041();
    assert ToSignedChar(0x41) == 0x41;
    assert Source([0x41]) == Unit(0x41) + Source([]);
  }

  /** A valid dimension of at least 4 leaves more than 8 data cells. */
  lemma PayloadAbove8(d: nat)
    requires ValidDimension(d) && d >= 4
    ensures Payload(d) > 8
  {
    DataCount(d);
    DimensionFacts(d);
    var L := Log2(d);
    Pow2Grows(L);
    MulMonotone(4, d, d);
  }

  /** With look-ahead the input [0x41] decodes to [0xFE], one error counted. */
  lemma Ahead41(d: nat, s: seq<int>, z: seq<int>)
    requires ValidDimension(d) && d >= 4
    requires s == [0, 1, 0, 0, 0, 0, 0, 1] && z == seq(d * d, _ => 0)
    ensures DecodeRunAhead(d, z, EncodeBlocks(d, s, false), [], Tally(0, 1)) == ([0xFE], Tally(1, 1))
  {
    assert [] + s[..7] + [-2] == [0, 1, 0, 0, 0, 0, 0] + [-2];
    PayloadAbove8(d);
    LastOneLost(d, s, z, [], Tally(0, 1));
    PackFE();
  }

  /** The input byte 0x41 with d >= 4: its 8 bits fit in the first block,
      whose text ends on the data digit 1. With look-ahead the decoder reads
      that digit as padding, "corrects" it to -2 and writes 0xFE, counting
      one error; without look-ahead it writes 0x41 and counts none. */
  lemma LookaheadTurns41IntoFE(d: nat)
    requires ValidDimension(d) && d >= 4
    ensures IsStream(Source([0x41]))
    ensures DecodeRunAhead(d, seq(d * d, _ => 0), EncodeBlocks(d, Source([0x41]), false), [], Tally(0, 1))
      == ([0xFE], Tally(1, 1))
    ensures DecodeRun(d, seq(d * d, _ => 0), EncodeBlocks(d, Source([0x41]), false), [], Tally(0, 1))
      == ([0x41], Tally(0, 1))
  {
    Source41();
    Ahead41(d, Source([0x41]), seq(d * d, _ => 0));
    EncodeDecodeRoundTrip(d, [0x41]);
  }
}
