# Extended Hamming (SECDED) block codec — Dafny model

This project models the core of a command-line tool that protects a file
with an extended Hamming code. The tool reads the input as a bit stream,
most significant bit first. It lays the bits out in `d x d` blocks, where
`d` is a power of two from 2 to 256. In each block:

- the cells whose row-major index is 0 or a power of two are reserved;
- row 0 holds the reserved cells at columns 0 and 2^k, and column 0 holds
  them at rows 2^k;
- the remaining cells carry data, and `-1` marks padding once the input is
  exhausted.

The encoder XORs the indices of the cells that hold 1. It sets the reserved
cells `2^k` to the bits of that syndrome, so that the syndrome becomes 0,
and sets `[0][0]` so that the number of ones is even. It then writes the
block as decimal digits: the reserved cells first, then the data cells up to
the first padding cell.

The decoder reads the digits back in the same order and recomputes the
syndrome and the parity. It corrects a single flipped cell, or counts a
double error. It then packs the data bits back into bytes through an 8-bit
buffer that carries across blocks.

The modules follow the program's structure:

| module | file | models |
|---|---|---|
| `Bits` | bits.dfy | `&`, `|`, `^`, `<<`, `>>` on naturals; the `char` conversion; `charToBinary`/`binaryToChar` as values |
| `Geometry` | geometry.dfy | the reserved-cell test `(n & (n-1)) == 0`, the row-major index, the valid dimensions |
| `Block` | block.dfy | pure block functions: fill, parity, write, read, correct, pack |
| `Streams` | streams.dfy | `struct Buffer` (class), `fgetc` and `fscanf("%1d")` over in-memory input |
| `Grid` | matrix.dfy | `struct Matrix` (class over an `array2<int>`) |
| `Encoder` | encoder.dfy | `encode_matrix_fill`, `encode_matrix_parity`, `encode_matrix_write` as methods |
| `Decoder` | decoder.dfy | `decode_matrix_fill`, `decode_matrix_parity`, `decode_matrix_write` as methods |
| `Session` | session.dfy | the block loops of `encode()` and `decode()`, the reserved-cell count, the round trip |
| `Lookahead` | lookahead.dfy | `decode_matrix_fill` and the `decode()` loop under a `%1d` that reads one character ahead |
| `Filename` | filename.dfy | `output_filename_append` |

Each imperative routine is a method over the `Matrix` and `Buffer` objects.
Its postcondition ties the new state to a pure function in `Block`, and the
properties of the code are lemmas about those functions. The matrix is read
through the ghost function `Matrix.Cells()`, which lists its cells in
row-major order (cell `k` is `[k / d][k % d]`).

Modelling decisions:

- **Input and output.** The input file is a sequence of bytes (encoder) or
  of digit characters (decoder), read through a cursor with an end-of-file
  flag. `fgetc` and `fscanf` are methods on that cursor. The text written
  with `fprintf` is returned as a `seq<char>`, and the decoded bytes as a
  `seq<int>`.
- **The 0xFF byte.** `buffer_dequeue` stores the `fgetc` result in a
  `char` and compares it with `EOF` (source.c:294-298). With a signed `char`
  a 0xFF byte compares equal, so that call hands out one padding value `-1`.
  It neither sets end-of-file nor changes `size`, and the next call reads the
  next byte. The model keeps this behaviour (`Bits.ToSignedChar`,
  `Streams.Unit`). `encode_matrix_write` stops a block at its first `-1`
  (source.c:405-426), so the data bits filled after that cell in the same
  block are never written. The decode/encode round trip is therefore stated
  for input without 0xFF bytes, and `Session.LoneFFByteLost` shows that the
  one-byte input 0xFF decodes to nothing.
- **Stale reserved cells.** When `fscanf` fails on a reserved cell, the cell
  keeps its old value. The model keeps this too: `ReadBlock` takes the
  previous block.
- **Reserved-cell count.** The header comment at source.c:18 says a block
  uses `log2(size)` parity bits. The count `encode()` computes and prints at
  source.c:567-576 is `count*2-1`, where `count` is the `log2(d)+1` row
  positions passing `(i & (i-1)) == 0`. That is `2*log2(d)+1` reserved
  cells, `[0][0]` included. The model follows the code
  (`Session.ReservedCount`).
- **`fscanf("%1d")` and end-of-file.** After each data-cell read,
  `decode_matrix_fill` tests `feof` and sets the cell to `-1` if it is set
  (source.c:462-466). The modules `Streams` to `Session` read a digit the way
  musl's `scanf` does: no character past the digit is consumed, so `feof` is
  set only by a read that fails. The `scanf` of glibc and of the BSDs reads
  one character ahead for a numeric conversion and pushes it back. On the
  file's last digit that look-ahead meets the end of the file and sets `feof`,
  so the last data cell becomes `-1`. The `Lookahead` module models that
  reading and shows its effect; see "## Findings".
- **`intBits`.** At source.c:364 `intBits` is `sizeof(int)*4`, i.e. 16 bits.
  It is the constant `INT_BITS = 16`, which is enough because `d*d <= 65536`.

## Model

| member | source | states |
|---|---|---|
| Bits.ToSignedChar | source.c:294-296 | storing the `fgetc` result in a `char`: the value modulo 256, and it equals `EOF` exactly for `EOF` and 0xFF |
| Bits.MsbBits | source.c:270-274 | definition: the 8 values `charToBinary` stores for a char, `c >> (7 - i) & 1` for i = 0..7 (the properties are in Bits.MsbBitsRoundTrip) |
| Bits.OrInto | source.c:275-283 | definition: the char `binaryToChar` assembles, cell i shifted left by `7 - i` and or-ed in, kept to 8 bits (the properties are in Bits.CharBinaryRoundTrip and Block.Pack) |
| Bits.XorOne | source.c:507 | `matrix[x][y] ^= 1` on a C int: the bits above the lowest are kept and the lowest bit is inverted, so 0 and 1 swap and -1 becomes -2 |
| Bits.MsbBitsRoundTrip | source.c:270-274 | the 8 bits `charToBinary` stores are bits, most significant first; their value is the char modulo 256 |
| Bits.CharBinaryRoundTrip | source.c:270-283 | `binaryToChar` of the bits `charToBinary` wrote for byte b returns b |
| Geometry.Pow2OrZero | source.c:331 | definition: the test `(n & (n-1)) == 0`, which 0 passes as well as the powers of two (Geometry.Pow2OrZeroIff) |
| Geometry.IsReserved | source.c:331-340 | definition: cell `[i][j]` is reserved when it lies in row 0 at a column passing the test or in column 0 at a row passing it |
| Geometry.ReservedIffPow2OrZero | source.c:331-340 | below `d*d`, a cell is reserved (row 0 or column 0 at a power of two or 0) exactly when its index is 0 or a power of two |
| Geometry.ParityBitCell | source.c:371-374 | every position `1<<k < d*d` maps via `/d`, `%d` to a reserved cell other than `[0][0]` |
| Geometry.DataCount | source.c:567-573 | a block has `d*d - (2*log2(d)+1)` data cells, at least one |
| Geometry.AxisList | source.c:567-571 | row 0 has `log2(d)+1` positions passing `(j & (j-1)) == 0`: 0 and the powers of two |
| Block.Filled | source.c:324-345 | definition: the block `encode_matrix_fill` builds, 0 in the reserved cells and the successive stream values, then `-1`, in the data cells; it has `d*d` cells (the properties are in Block.FilledData, Block.FilledReserved and Block.FilledPadding) |
| Block.FilledData | source.c:324-345 | the data cells of a filled block, row-major, are the successive stream values, padded with `-1` |
| Block.FilledReserved | source.c:331-340 | every reserved cell of a filled block, `[0][0]` included, is 0 |
| Block.FilledPadding | source.c:289-296 | once the stream is exhausted at a data cell, that cell and every later data cell hold `-1` |
| Block.ReservedOrderCount | source.c:567-573 | the reserved cells number `2*log2(d)+1`, and with the data cells they make up the block |
| Block.Syndrome | source.c:349-361 | definition: the XOR of the row-major indices of the cells holding 1 (Block.SyndromeBound, Block.FlipEffect) |
| Block.SetParityBits | source.c:363-376 | the block with cell `2^j` set to 1 for every set bit j of the syndrome below k; it keeps the length |
| Block.Encoded | source.c:346-383 | the block `encode_matrix_parity` leaves has `d*d` cells (its meaning is in Block.EncodedSyndromeZero, Block.EncodedEvenParity and Block.EncodedKeepsData) |
| Block.EncodedClear | source.c:349-376 | the syndrome of a filled block is below `d*d`, and the parity step sets the cells `2^k` of its set bits |
| Block.EncodedSyndromeZero | source.c:346-382 | after `encode_matrix_parity`, the XOR of the indices of the cells holding 1 is 0 |
| Block.EncodedEvenParity | source.c:346-382 | after `encode_matrix_parity`, the number of ones, `[0][0]` included, is even, and `[0][0]` is a bit |
| Block.EncodedKeepsData | source.c:363-382 | `encode_matrix_parity` changes no data cell, and leaves every reserved cell 0 or 1 |
| Block.EncodedIsCodeword | source.c:346-382 | a filled and protected block is a codeword: syndrome 0, even weight, `[0][0]` a bit |
| Block.Written | source.c:384-427 | the text `encode_matrix_write` prints is made of digits (what it holds is in Block.WrittenLength, Block.WrittenSplit and Block.WriteReadRoundTrip) |
| Block.ReadBlock | source.c:429-469 | the block `decode_matrix_fill` leaves has `d*d` cells: reserved cells from the next digits in write order or stale, data cells from the following digits or `-1` (Block.WriteReadRoundTrip) |
| Block.WrittenLength | source.c:384-427 | the writer emits the reserved cells and the data cells before the first `-1`: exactly `d*d` digits when there is no padding, fewer otherwise |
| Block.WrittenSplit | source.c:384-427 | proof step: the written text is the reserved cells' digits followed by the data cells' digits |
| Block.WriteReadRoundTrip | source.c:384-469 | reading back the written digits, then end of input if the block was cut short, reproduces the block, with data cells from the first `-1` on read as `-1` |
| Block.Corrected | source.c:470-513 | the decoder never lowers `errors`, and leaves `correctable` as it was or sets it to 0 |
| Block.CleanBlockUnchanged | source.c:493 | a block straight from the encoder has syndrome 0: neither the block nor the counters change |
| Block.SingleErrorCorrected | source.c:503-511 | one flipped cell other than `[0][0]` is flipped back, `errors` rises by 1 and `correctable` is untouched |
| Block.DoubleErrorDetected | source.c:494-500 | two distinct flipped cells other than `[0][0]`: the block is left alone, `errors` rises by 2 and `correctable` becomes 0 |
| Block.FlipEffect | source.c:485-489 | flipping cell q XORs q into the syndrome and changes the parity of the weight |
| Block.DataBits | source.c:517-534 | definition: the data cells in row-major order without the `-1` cells, the values `decode_matrix_write` enqueues (Decoder.BitsBelowAll) |
| Block.Pack | source.c:536-541 | every byte `binaryToChar` assembles is in 0..255 |
| Block.Leftover | source.c:536-539 | fewer than 8 bits are left in the buffer |
| Block.PackSnoc | source.c:531-541 | enqueuing one bit emits a byte and empties the buffer exactly when it had 7 bits |
| Block.PackConcat | source.c:514-543 | packing a concatenation packs the first part, and its leftover bits carry into the second |
| Block.PackLength | source.c:514-543 | every enqueued bit ends up in an emitted byte or in the leftover |
| Streams.Unit | source.c:293-306 | definition: what `buffer_dequeue` hands out for one input byte, its 8 bits, most significant first, or a single `-1` for 0xFF (Session.SourcePack, Session.LoneFFByteLost) |
| Streams.Source | source.c:289-309 | definition: the values `buffer_dequeue` hands out for the whole input before it returns `-1` for good (Streams.Buffer.Dequeue, Session.SourceIsStream) |
| Streams.Buffer.constructor | source.c:216-223 | `buffer_initialize(n)`: n zeroed cells, size 0, capacity n |
| Streams.Buffer.Enqueue | source.c:285-288 | stores the value at `size` and advances `size` |
| Streams.Buffer.CharToBinary | source.c:270-274 | writes the char's 8 bits, most significant first, at `size..size+8`, leaving the rest |
| Streams.Buffer.BinaryToChar | source.c:275-283 | ORs the first 8 cells, cell i shifted to bit `7-i`, into the result |
| Streams.Buffer.Dequeue | source.c:289-309 | hands out the next value of the input's bit stream and advances; `-1` once the input is used up; sets end-of-file exactly when it reads past the end |
| Streams.Buffer.Refill | source.c:293-306 | the refill branch: a byte other than 0xFF is spread over the buffer with `size` 0; otherwise `-1` is handed out |
| Streams.ByteInput.GetC | source.c:294 | `fgetc`: the next byte, or `EOF` and the end-of-file flag at the end |
| Streams.DigitInput.ScanDigit | source.c:462 | `fscanf("%1d")` without look-ahead: the next digit, or the cell unchanged and the end-of-file flag at the end |
| Grid.Matrix.constructor | source.c:224-236 | `matrix_initialize(d)`: a zeroed `d x d` block, capacity `d*d` |
| Grid.Matrix.Set | source.c:342 | writing `matrix[i][j]` changes cell `i*d+j` of `Cells()` and nothing else |
| Encoder.EncodeFill | source.c:324-345 | the matrix becomes `Filled(d, stream)`; the stream loses `Payload(d)` values; end-of-file is set when the stream ran out |
| Encoder.FillRows | source.c:326-344 | after all rows the fill state covers all `d*d` cells |
| Encoder.FillRow | source.c:328-343 | one row keeps the fill state: the cells written so far agree with `Filled` and the stream is consumed by the data rank |
| Encoder.FillCell | source.c:331-342 | one cell: 0 for a reserved cell, the next stream value for a data cell |
| Encoder.FillEnd | source.c:345 | proof step: the completed fill state gives the filled block, the remaining stream and the end-of-file flag |
| Encoder.EncodeSyndrome | source.c:349-361 | `parity` is the XOR of the indices of the cells holding 1, and `metaParity` the parity of their number |
| Encoder.SetParityCells | source.c:363-376 | sets the cells `1<<i` for the set bits of `parity`, and toggles `metaParity` once for each |
| Encoder.EncodedBy | source.c:378-382 | proof step: the protected block is the block with its parity cells set, and `[0][0] = 1` when `metaParity` is 1 |
| Encoder.EncodeParity | source.c:346-383 | the matrix becomes `Encoded(d, old matrix)` |
| Encoder.WriteRowZero | source.c:388-394 | writes the row-0 cells at columns 0 and `2^k` |
| Encoder.WriteColumnZero | source.c:397-403 | then the column-0 cells at rows `2^k`, completing the reserved cells in order |
| Encoder.WriteReserved | source.c:386-403 | the digits of the reserved cells in the order they are written |
| Encoder.WriteDataRow | source.c:408-425 | one row of data cells; stops at the first `-1` |
| Encoder.WriteData | source.c:405-426 | the digits of the data cells up to the first `-1` |
| Encoder.EncodeWrite | source.c:384-427 | the text is `Written(d, matrix)` |
| Decoder.DecodeFill | source.c:429-469 | the matrix becomes `ReadBlock(d, old matrix, text)`; the cursor advances by `min(d*d, rest)`; end-of-file is set when fewer than `d*d` digits were left |
| Decoder.ReadRowZero | source.c:432-438 | reads the row-0 reserved cells |
| Decoder.ReadColumnZero | source.c:440-446 | reads the column-0 reserved cells of rows `i >= 1` |
| Decoder.ReadData | source.c:448-468 | reads the data cells row-major |
| Decoder.ReadDataRow | source.c:451-467 | reads one row of data cells |
| Decoder.ReadCell | source.c:453-466 | skips a reserved cell, reads a data cell |
| Decoder.ReadDataCell | source.c:462-466 | a data cell gets the next digit, or `-1` at end of input (a `%1d` without look-ahead; Lookahead.ReadAheadCell gives the look-ahead case) |
| Decoder.ReadReservedCell | source.c:436 | a reserved cell gets the next digit, or keeps its value at end of input |
| Decoder.ReadPosOrder | source.c:429-468 | cells are read in a fixed order that visits each cell once |
| Decoder.ReadDone | source.c:469 | proof step: the completed read state gives `ReadBlock` |
| Decoder.DecodeSyndrome | source.c:474-491 | `parity` is the XOR of the indices of the 1-cells other than `[0][0]`, and `metaParity` the parity of their number |
| Decoder.CorrectedBy | source.c:493-512 | proof step: the three outcomes of `Corrected` in terms of `parity`, `metaParity` and `[0][0]` |
| Decoder.DecodeParity | source.c:470-513 | the new matrix and counters are `Corrected(d, old matrix, old counters)` |
| Decoder.PushBit | source.c:531-541 | enqueuing a bit keeps `out == Pack(bits)` and `buffer == Leftover(bits)` with `size < 8` |
| Decoder.WriteCell | source.c:521-541 | one cell: reserved and `-1` cells enqueue nothing, a data bit is enqueued |
| Decoder.WriteRow | source.c:519-542 | one row keeps the packing invariant |
| Decoder.DecodeWrite | source.c:514-543 | the bytes written are `Pack(old buffer + data bits)`, and the buffer keeps the `Leftover`, fewer than 8 bits |
| Decoder.BitsBelowAll | source.c:517-534 | the bits enqueued over the whole block are the non-`-1` data cells in row-major order |
| Session.SourceIsStream | source.c:289-309 | `buffer_dequeue` hands out bits and `-1` only |
| Session.EncodedPrintable | source.c:384-427 | a filled and protected block can be written one digit per cell |
| Session.EncodeBlocks | source.c:556-564 | the text of the encoder's loop is made of digits |
| Session.Encode | source.c:546-565 | `encode()` emits `EncodeBlocks(d, stream of the input, false)` |
| Session.EncodeBlock | source.c:556-564 | one pass of the loop emits one written block; the loop stops once end-of-file is set and the buffer is used up |
| Session.ReservedCount | source.c:567-573 | the count `encode()` reports is the number of reserved cells, `2*log2(d)+1` |
| Session.DecodeRun | source.c:592-597 | across blocks, `errors` never decreases and `correctable` is never set back to 1 |
| Session.Decode | source.c:585-597 | `decode()` emits `DecodeRun` from a zeroed matrix, empty buffer and counters 0/1; `errors >= 0` and `correctable` is 0 or 1 |
| Session.DecodeBlock | source.c:592-597 | one pass of the loop: fill, correct, write |
| Session.EncodedSent | source.c:405-426 | for a block filled from bits, the writer emits `min(payload, stream)` data cells, which are the stream's first values |
| Session.BlockRoundTrip | source.c:384-543 | a block the encoder builds from bits reads back unchanged, passes the parity check untouched and yields the stream's first bits |
| Session.RoundTripBlocks | source.c:546-597 | decoding the encoder's text of a bit stream packs exactly that stream, and the counters are unchanged |
| Session.SourcePack | source.c:270-309 | without 0xFF bytes, the stream is the bytes' bits and packing it gives the bytes back |
| Session.EncodeDecodeRoundTrip | source.c:546-597 | without 0xFF bytes, decode(encode(bytes)) == bytes with `errors` 0 and `correctable` 1 |
| Session.LoneFFByteLost | source.c:289-309 | the one-byte input 0xFF: `buffer_dequeue` hands out `-1`, and decoding what the encoder writes gives no byte at all, with `errors` 0 and `correctable` 1 |
| Lookahead.ReadBlockAhead | source.c:429-469 | definition: the block `decode_matrix_fill` leaves under a look-ahead `%1d`, with `d*d` cells; reserved cells as in Block.ReadBlock; a data cell is `-1` when its read fails and also when it reads the text's last digit (Lookahead.ReadAheadCell) |
| Lookahead.ReadAheadCell | source.c:429-469 | with a look-ahead `%1d`, the block read differs from Block.ReadBlock in one cell only: the data cell read from the text's last digit is `-1` |
| Lookahead.ReadAheadLongText | source.c:429-469 | with a look-ahead `%1d`, a text longer than a block reads the same block as without it |
| Lookahead.DecodeRunAhead | source.c:585-597 | the `decode()` loop with a look-ahead `%1d` stops after the pass that reads the last digit; `errors` never decreases and `correctable` is never set back to 1 |
| Lookahead.LostOneCorrected | source.c:493-511 | a codeword whose data cell k held 1 and now holds `-1` has a single error at k: `^= 1` makes it `-2` and `errors` rises by 1 |
| Lookahead.LostZeroKept | source.c:493 | a codeword whose data cell k held 0 and now holds `-1` still has syndrome 0: the block and the counters are left as they are |
| Lookahead.LastOneLost | source.c:462-466 | with a look-ahead `%1d`, a stream that ends inside its first block with a 1 decodes with that bit turned into `-2` and one error counted |
| Lookahead.LastZeroLost | source.c:462-466 | with a look-ahead `%1d`, a stream that ends inside its first block with a 0 decodes without that bit and no error counted |
| Lookahead.LastBitLost | source.c:462-466 | for any such stream, look-ahead loses its last bit as above, while the reading without look-ahead returns the whole stream |
| Lookahead.LookaheadTurns41IntoFE | source.c:462-466 | for d >= 4 and the input byte 0x41: with look-ahead `decode(encode)` gives 0xFE and `errors` 1; without it, 0x41 and `errors` 0 |
| Filename.LastDot | source.c:247 | `strrchr(filename, '.')`: the last '.', or none when there is no '.' |
| Filename.ExtensionSplit | source.c:247-252 | the stem and the extension make up the input; the extension is empty or a '.' followed by no other '.' |
| Filename.ExtensionUnique | source.c:247-252 | that split is the only one with that property |
| Filename.FilenameIsCString | source.c:238-269 | the output name holds no NUL |
| Filename.StrCpy | source.c:242 | `strcpy`: the string and its NUL at the start of the buffer |
| Filename.StrCat | source.c:256-264 | `strcat`: the string and a NUL appended at the old NUL |
| Filename.OutputFilenameAppend | source.c:238-269 | the result is the input without its last `.`-suffix, then `_encoded` or `_decoded`, then that suffix. It is 8 characters longer than the input, fits the `strlen+9` buffer, and sets `free_me` to 1 |

## Left out

- `main`, `getopt` handling, settings validation, `print_usage`, `print_all` and `print_size`: command-line glue. The valid dimensions are the precondition `ValidDimension(d)`, that is `2 <= d <= 256` and a power of two (source.c:157-159).
- Plain `char` is taken to be signed (`Bits.ToSignedChar`). Where `char` is unsigned, `c == EOF` at source.c:296 never holds, and the loop at source.c:556 does not end. That reading is not modelled.
- `fopen`, `fclose`, `fflush` and the `FILE` objects: the files are sequences read through a cursor and text returned as values.
- `matrix_print`: debug output.
- The float redundancy percentage and the `printf` at source.c:574-577: only the integer count is modelled.
- The error report `decode()` prints at the end: the counters it reads are modelled, the messages are not.
- `encode_vegetarian` and `decode_vegetarian`: a raw bit-dump pass-through.
- `calloc`, `malloc`, `strdup` and `free`: memory management. The `strdup`'d extension is a sequence.
- Decoder input other than the digits 0-9: `fscanf("%1d")` on other characters is not modelled, and `DigitInput` requires a digit text.
- Session.EncodeDecodeRoundTrip: stated only for input without 0xFF bytes, because the source turns a 0xFF byte into one padding value and the block is written only up to it. Session.LoneFFByteLost shows the byte being lost.
- Overflow of the `int` counter `errors`: counters are unbounded integers.
- Streams.DigitInput.ScanDigit: models a `%1d` that reads no character past the digit, as musl's does. With the look-ahead `scanf` of glibc and the BSDs, the read of the file's last digit also sets end-of-file. The `Lookahead` module models that case and "## Findings" states it.
- Decoder.ReadDataCell: stated for a `%1d` without look-ahead. With look-ahead, the data cell read from the file's last digit becomes `-1` (Lookahead.ReadAheadCell).
- Decoder.DecodeFill: stated for a `%1d` without look-ahead. With look-ahead, its result is Lookahead.ReadBlockAhead.
- Block.ReadBlock: the block read by a `%1d` without look-ahead. With look-ahead, the data cell read from the last digit is `-1` (Lookahead.ReadAheadCell).
- Block.WriteReadRoundTrip: holds for a `%1d` without look-ahead. With look-ahead, a block whose text ends the file loses its last data cell (Lookahead.LastBitLost).
- Session.BlockRoundTrip: holds for a `%1d` without look-ahead. With look-ahead, the last block of the file does not read back unchanged (Lookahead.LastBitLost).
- Session.DecodeRun: the loop for a `%1d` without look-ahead. With look-ahead it is Lookahead.DecodeRunAhead.
- Session.Decode: the result for a `%1d` without look-ahead. With look-ahead, see Lookahead.DecodeRunAhead.
- Session.RoundTripBlocks: holds for a `%1d` without look-ahead. With look-ahead, the stream's last bit is lost or turned into `-2` when the stream ends inside its first block (Lookahead.LastBitLost).
- Session.EncodeDecodeRoundTrip: holds for a `%1d` without look-ahead. With look-ahead it fails, for example on the input 0x41 (Lookahead.LookaheadTurns41IntoFE).
- Lookahead: the look-ahead case is worked out for streams that end inside the first block. Longer streams are not stated, though Lookahead.ReadAheadLongText shows that every block but the last reads as without look-ahead.

## Findings

| source | as written | input that shows it | evidently intended | confidence | as-written member | corrected member |
|---|---|---|---|---|---|---|
| source.c:462-466 | after a successful `fscanf("%1d")` the data cell is set to `-1` whenever `feof` is set; a `scanf` that reads one character ahead (glibc, the BSDs) sets `feof` on the file's last digit | d = 4, input byte 0x41: decoding the encoder's output gives 0xFE and reports 1 corrected error | only a failed read makes a data cell padding, so `decode(encode(x)) == x` with no error | not executed; depends on the C library's `scanf` | Lookahead.LookaheadTurns41IntoFE | Session.EncodeDecodeRoundTrip |
