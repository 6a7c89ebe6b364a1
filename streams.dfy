/** The bit source and sink of the codec: `struct Buffer` with
    `buffer_enqueue`, `buffer_dequeue`, `charToBinary` and `binaryToChar`,
    and the two input files as sequences read through a cursor. */
module Streams {
  import opened Bits
  import opened Block

  /** The values buffer_dequeue hands out for one input byte: its 8 bits,
      most significant first, or a single padding value for 0xFF, which
      compares equal to EOF once stored in a `char`. */
  function Unit(b: Byte): seq<int>
  {
    var c := ToSignedChar(b);
    if c == EOF then [EOF] else MsbBits(c)
  }

  /** All the values buffer_dequeue hands out for the input bytes, before
      it starts returning padding for good. */
  function Source(bytes: seq<Byte>): seq<int>
  {
    if bytes == [] then [] else Unit(bytes[0]) + Source(bytes[1..])
  }

  lemma SourceStep(bytes: seq<Byte>, pos: nat)
    requires pos < |bytes|
    ensures Source(bytes[pos..]) == Unit(bytes[pos]) + Source(bytes[pos + 1..])
  {
    assert bytes[pos..][1..] == bytes[pos + 1..];
  }

  /** The input file of the encoder, read with `fgetc`: its bytes, a cursor
      and the end-of-file indicator. */
  class ByteInput {
    const bytes: seq<Byte>
    var pos: nat
    var eof: bool

    ghost predicate Valid()
      reads this
    {
      pos <= |bytes| && (eof ==> pos == |bytes|)
    }

    constructor (bytes: seq<Byte>)
      ensures this.bytes == bytes && pos == 0 && !eof && Valid()
    {
      this.bytes := bytes;
      pos := 0;
      eof := false;
    }

    /** `fgetc`: the next byte, or EOF, setting the indicator, at the end. */
    method GetC() returns (c: int)
      requires Valid()
      modifies this
      ensures Valid()
      ensures old(pos) < |bytes| ==> c == bytes[old(pos)] && pos == old(pos) + 1 && eof == old(eof)
      ensures old(pos) == |bytes| ==> c == EOF && pos == old(pos) && eof
    {
      if pos < |bytes| {
        c := bytes[pos];
        pos := pos + 1;
      } else {
        c := EOF;
        eof := true;
      }
    }
  }

  /** The input file of the decoder, read with `fscanf("%1d")`: decimal
      digit characters, a cursor and the end-of-file indicator. */
  class DigitInput {
    const text: seq<char>
    var pos: nat
    var eof: bool

    ghost predicate Valid()
      reads this
    {
      pos <= |text| && IsDigits(text) && (eof ==> pos == |text|)
    }

    constructor (text: seq<char>)
      requires IsDigits(text)
      ensures this.text == text && pos == 0 && !eof && Valid()
    {
      this.text := text;
      pos := 0;
      eof := false;
    }

    /** `fscanf(input_file, "%1d", &cell)` with `cell` holding v0: the next
      digit, or v0 unchanged, setting the indicator, at the end. */
    method ScanDigit(v0: int) returns (v: int)
      requires Valid()
      modifies this
      ensures Valid()
      ensures old(pos) < |text| ==> v == DigitValue(text[old(pos)]) && pos == old(pos) + 1 && eof == old(eof)
      ensures old(pos) == |text| ==> v == v0 && pos == old(pos) && eof
    {
      if pos < |text| {
        v := DigitValue(text[pos]);
        pos := pos + 1;
      } else {
        v := v0;
        eof := true;
      }
    }
  }

  /** `struct Buffer`: a fixed array of ints whose `size` is the write
      cursor when bits are enqueued and the read cursor when they are
      dequeued. */
  class Buffer {
    const buffer: array<int>
    var size: nat
    const capacity: nat

    ghost predicate Valid()
      reads this
    {
      buffer.Length == capacity && size <= capacity
    }

    /** `buffer_initialize(n)`: n zeroed cells, size 0. */
    constructor (n: nat)
      ensures Valid() && capacity == n && size == 0 && fresh(buffer)
      ensures buffer[..] == seq(n, _ => 0)
    {
      buffer := new int[n](_ => 0);
      size := 0;
      capacity := n;
    }

    /** `buffer_enqueue`: store v at the cursor and advance it. */
    method Enqueue(v: int)
      requires Valid() && size < capacity
      modifies this, buffer
      ensures Valid() && size == old(size) + 1
      ensures buffer[..] == old(buffer[..])[old(size) := v]
    {
      buffer[size] := v;
      size := size + 1;
    }

    /** `charToBinary`: enqueue the 8 bits of c, most significant first. */
    method CharToBinary(c: int)
      requires Valid() && size + CHARBITS <= capacity
      modifies this, buffer
      ensures Valid() && size == old(size) + CHARBITS
      ensures buffer[..] == old(buffer[..])[..old(size)] + MsbBits(c) + old(buffer[..])[old(size) + CHARBITS..]
    {
      ghost var s0 := size;
      ghost var b0 := buffer[..];
      for i := 0 to CHARBITS
        invariant Valid() && size == s0 + i
        invariant buffer[..] == b0[..s0] + MsbBits(c)[..i] + b0[s0 + i..]
      {
        Enqueue(BitOf(c, CHARBITS - 1 - i));
        assert MsbBits(c)[..i + 1] == MsbBits(c)[..i] + [BitOf(c, CHARBITS - 1 - i)];
      }
    }

    /** `binaryToChar`: or the first 8 cells, each shifted to bit 7 - i, into
      a `char`; the result is the byte it holds. */
    method BinaryToChar() returns (c: nat)
      requires buffer.Length >= CHARBITS
      ensures c == OrInto(buffer[..CHARBITS])
    {
      c := 0;
      for i := 0 to CHARBITS
        invariant c == OrInto(buffer[..i])
      {
        assert buffer[..i + 1][..i] == buffer[..i];
        c := Or(c, Shl(buffer[i], CHARBITS - 1 - i) % 256);
      }
    }

    /** The values the buffer and the rest of the input still hand out,
      before padding. */
    ghost function Remaining(input: ByteInput): seq<int>
      reads this, buffer, input
      requires Valid() && input.Valid()
    {
      buffer[size..] + Source(input.bytes[input.pos..])
    }

    /** `buffer_dequeue`: the next value of the input's bit stream, refilling
      the buffer from the next byte when it is used up; -1 once the input is
      exhausted, and -1 for a 0xFF byte. */
    method Dequeue(input: ByteInput) returns (r: int)
      requires Valid() && capacity == CHARBITS && input.Valid()
      modifies this, buffer, input
      ensures Valid() && input.Valid()
      ensures old(Remaining(input)) == [] ==> r == EOF && Remaining(input) == []
      ensures old(Remaining(input)) != [] ==>
        r == old(Remaining(input))[0] && Remaining(input) == old(Remaining(input))[1..]
      ensures input.eof == (old(input.eof) || old(Remaining(input)) == [])
    {
      if size == capacity {
        var c := Refill(input);
        if c == EOF {
          return EOF;
        }
      }
      r := buffer[size];
      size := size + 1;
    }

    /** The refill branch of `buffer_dequeue`, taken when the buffer is used
        up: read the next byte and spread its bits over the buffer, unless it
        reads as -1 (at the end of the input, or a 0xFF byte), which is
        handed out itself. */
    method Refill(input: ByteInput) returns (c: int)
      requires Valid() && capacity == CHARBITS && input.Valid() && size == capacity
      modifies this, buffer, input
      ensures Valid() && input.Valid()
      ensures c == EOF ==>
        (old(Remaining(input)) == [] ==> Remaining(input) == [])
        && (old(Remaining(input)) != [] ==>
              old(Remaining(input))[0] == EOF && Remaining(input) == old(Remaining(input))[1..])
        && input.eof == (old(input.eof) || old(Remaining(input)) == [])
      ensures c != EOF ==>
        size == 0 && old(Remaining(input)) != [] && Remaining(input) == old(Remaining(input))
        && input.eof == old(input.eof)
    {
      assert buffer[size..] == [];
      ghost var more := input.pos < |input.bytes|;
      if more {
        SourceStep(input.bytes, input.pos);
      }
      var ch := input.GetC();
      c := ToSignedChar(ch);
      if c == EOF {
        assert more ==> old(Remaining(input)) == [EOF] + Remaining(input);
        return;
      }
      assert more && old(Remaining(input)) == MsbBits(c) + Source(input.bytes[input.pos..]);
      size := 0;
      CharToBinary(c);
      size := 0;
      assert buffer[..] == MsbBits(c);
    }
  }
}
