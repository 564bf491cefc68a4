# sz: the Snappy block encoder and framing format, in Dafny

This project models the core of `sz`, a Go implementation of the Snappy
framing format, and proves properties of the model. The core has two parts.

- **The block encoder** (`snappy/encode.go`). It is a single greedy
  left-to-right pass over the source. A fresh table of 2^14 slots maps a
  multiplicative hash of each 4-byte word to the latest position with that
  hash. The output is a varint length preamble followed by literal and copy
  elements, as in sections 1, 2.1, 2.2.1 and 2.2.2 of Snappy's
  `format_description.txt`. The Go wrapper `Encode` sizes the destination
  with `MaxEncodedLen(n) = 32 + n + n/6`. It panics if the C `encode`
  reports that the destination was too small.
- **The framing layer** (`sz.go`), following sections 3 and 4.1-4.6 of
  Snappy's `framing_format.txt`.
  - `Writer` buffers input into 65536-byte blocks. `Flush` writes each
    block as one chunk: a type byte (0x00 compressed, 0x01 raw), a 3-byte
    length, the masked CRC-32C of the block, then the payload.
  - `NewReader` checks the 10-byte stream identifier.
  - `Read` parses chunk headers, dispatches on the chunk type, verifies
    checksums and hands out the decoded bytes. `NewReaderStrictMem` opens a
    reader that also refuses chunks longer than `MaxEncodedLen(65536) + 8`.

The files are:

- `bytes.dfy`, module `Bytes`: bytes, little-endian integers, and Go's
  `binary.PutUvarint` with its inverse.
- `crc32c.dfy`, module `Crc32c`: a bitwise CRC-32C and the mask of
  `sz.go:95`.
- `format.dfy`, module `SnappyFormat`: a reference decoder written from the
  block format. The encoder is proved against it, and the reader uses it
  where `sz.go` calls the external `snappy.Decode` and `snappy.DecodedLen`.
- `encoder.dfy`, module `Encoder`.
  - The C functions `emitLiteral`, `emitCopy` and `encode`. Pointers into
    the destination become a cursor `d` and a length `dstLen`, and NULL or
    -1 becomes `None`.
  - `encode` appears twice. `EncodeLoop` is a pure function, and
    `EncodeScan` is a method that runs the C loop on a mutable array table.
    The method's postcondition states that it computes exactly what the
    function describes.
  - The Go `Encode` and `MaxEncodedLen`.
- `framing.dfy`, module `Framing`: `Writer`, `Flush`, `Close`, `NewReader`,
  `NewReaderStrictMem` and `Read`. A writer's sink is the byte sequence
  written so far. A reader's source is the byte sequence not yet consumed.

The headline results:

- **The encoder cannot panic.** With a destination of `MaxEncodedLen(n)`
  bytes, `encode` never returns -1, so the panic at `snappy/encode.go:152-154`
  is unreachable (`EncodeCorrect`).
- **Encoder round trip.** Every block decodes back to its source
  (`EncodeRoundTrip`).
- **Stream round trip.** Whatever is written through a `Writer` and closed is
  read back by `NewReader` or `NewReaderStrictMem` unchanged, followed by
  `io.EOF`, with read buffers of any size (`StreamRoundTrip`).

## Model

| member | source | states |
|---|---|---|
| `Bytes.FromLittleEndianOfLittleEndian` | sz.go:210-218 | k little-endian bytes of a value below 256^k, read back as Read reads a checksum, give the value again |
| `Bytes.FromLittleEndianInjective` | snappy/encode.go:32-37 | two equally long byte strings that denote the same little-endian integer are equal, so two equal L32 words mean four equal bytes |
| `Bytes.PutUvarint` | snappy/encode.go:139 | binary.PutUvarint writes at least one byte; every byte but the last has the continuation bit 0x80 set and the last has it clear; its inverse is stated by ReadPutUvarint |
| `Bytes.ReadPutUvarint` | snappy/encode.go:138-139 | reading back the varint that Encode writes yields len(src) and the varint's exact width, whatever bytes follow |
| `Bytes.PutUvarintLengthBound` | snappy/encode.go:139 | a value below 128^k takes at most k varint bytes, so the preamble of a source shorter than 2^31 takes at most five |
| `Crc32c.Mask` | sz.go:95 | no contract of its own: UnmaskMask and MaskUnmask, the next two rows, state that rotating the checksum right by 15 bits and adding 0xa282ead8 modulo 2^32 is a bijection on 32-bit words, inverted by Unmask |
| `Crc32c.UnmaskMask` | sz.go:95 | the checksum mask (rotate right 15, add 0xa282ead8 mod 2^32) loses nothing: unmasking recovers the checksum, so distinct checksums never mask alike |
| `Crc32c.MaskUnmask` | sz.go:265 | the mask is onto: every 32-bit word is the mask of its unmasking; with UnmaskMask the mask is a bijection on 32-bit words |
| `Crc32c.MaskedChecksum` | sz.go:91-95 | no contract of its own: MaskedChecksumUnmasks, the next row, states that the stored value unmasks to the CRC-32C of the uncompressed bytes |
| `Crc32c.MaskedChecksumUnmasks` | sz.go:91-95 | unmasking the masked checksum Flush stores gives back the CRC-32C of the block, the value Read recomputes |
| `Crc32c.MaskedChecksumOfEmpty` | sz.go:91-95 | the masked CRC-32C of no bytes is 0xa282ead8 |
| `SnappyFormat.CopyFromAdditive` | snappy/encode.go:42-57 | two copies with the same offset in a row act as one copy of the summed length, so splitting a long copy into pieces loses nothing |
| `SnappyFormat.CopyFromMatch` | snappy/encode.go:113-118 | if the bytes at p repeat those offset positions earlier, a copy from the prefix before p reproduces them |
| `Encoder.MaxEncodedLen` | snappy/encode.go:160-170 | 6 * MaxEncodedLen(n) lies between 7n + 187 and 7n + 192: the 7/6 blow-up of n plus a 32-byte allowance, with n/6 rounded down |
| `Encoder.Load32` | snappy/encode.go:32-37 | no contract of its own: Load32IsLittleEndian, the next row, states what L32 reads |
| `Encoder.Load32IsLittleEndian` | snappy/encode.go:32-37 | L32 is the little-endian reading of the four bytes at the position |
| `Encoder.Hash` | snappy/encode.go:105-106 | the slot index (h * 0x1e35a7bd mod 2^32) >> 18 is always below 2^14 |
| `Encoder.LengthWidth` | snappy/encode.go:69-87 | a long literal spends 1, 2, 3 or 4 length bytes for lengths below 2^8, 2^16, 2^24 and 2^32, and length-1 fits in them |
| `Encoder.LiteralSize` | snappy/encode.go:63-91 | a literal of n bytes costs n + 1 bytes below 60 and at least n + 2 from 60 on (a tag byte plus one to four length bytes), so the cost exceeds n + 1 exactly when n >= 60; never more than n + 5 |
| `Encoder.LiteralBytes` | snappy/encode.go:67-89 | emitLiteral writes LiteralSize bytes ending in the literal's bytes verbatim |
| `Encoder.ParseLiteralBytes` | snappy/encode.go:67-89 | the decoder reads what emitLiteral writes back as exactly that literal, tag 0..59 or tag 60..63 plus length bytes |
| `Encoder.EmitLiteral` | snappy/encode.go:63-66 | emitLiteral returns NULL exactly when fewer than len + 6 bytes remain before dEnd; otherwise it advances by LiteralSize and stays within dEnd |
| `Encoder.CopyBytes` | snappy/encode.go:42-57 | emitCopy writes CopySize bytes: three per piece of at most 64 bytes, two for a final piece that fits a two-byte copy |
| `Encoder.ParseCopy1Bytes` | snappy/encode.go:44-48 | the two-byte copy ((offset>>8)&7)<<5, (len-4)<<2, tag 1, offset&0xff decodes back to that offset and length |
| `Encoder.ParseCopy2Bytes` | snappy/encode.go:51-56 | the three-byte piece (l-1)<<2, tag 2, 16-bit little-endian offset decodes back to that offset and length |
| `Encoder.RunCopyBytes` | snappy/encode.go:41-59 | decoding all the pieces emitCopy writes performs exactly the requested copy: the pieces' lengths add up to len |
| `Encoder.EmitCopy` | snappy/encode.go:41-59 | emitCopy never writes past dEnd, and it succeeds whenever the whole copy fits with a byte to spare |
| `Encoder.CopySizeBound` | snappy/encode.go:42-57 | a copy of at least four bytes costs at most one byte less than it covers, and a copy of at most 64 bytes costs at most three |
| `Encoder.RunElementsBytes` | snappy/encode.go:116-123 | decoding the bytes of the emitted literals and copies reproduces the output of applying those elements in order |
| `Encoder.InitialTableOk` | snappy/encode.go:97-100 | the table encode fills on entry holds only the sentinel, which lies before the source |
| `Encoder.TableStore` | snappy/encode.go:107-108 | recording the scan position in a slot keeps every slot at the sentinel or at a position already passed |
| `Encoder.MatchEnd` | snappy/encode.go:114-115 | the match end stays within the source and stops at the end or at the first byte that differs from the one s - t earlier |
| `Encoder.MatchEndRepeats` | snappy/encode.go:114-115 | every byte the inner loop passes over repeats the byte s - t positions earlier |
| `Encoder.ExtendMatch` | snappy/encode.go:114-115 | the inner while loop stops at MatchEnd, and the run it passes over repeats the bytes s - t earlier |
| `Encoder.MatchFound` | snappy/encode.go:109-115 | a match passed by the word comparison covers at least four bytes that all repeat the bytes at t, so every copy is valid |
| `Encoder.WithPending` | snappy/encode.go:116 | flushing the pending literal before a match keeps the elements already written and adds at most one |
| `Encoder.Iteration` | snappy/encode.go:104-121 | every pass of the while loop strictly advances s, so encode terminates, and the table keeps holding earlier positions only |
| `Encoder.EmitMatch` | snappy/encode.go:116-120 | after a match the scan resumes at its end with nothing pending |
| `Encoder.IterationExtends` | snappy/encode.go:104-121 | a pass of the while loop that continues only appends elements after those written so far; it never rewrites d's past |
| `Encoder.IterationMiss` | snappy/encode.go:105-112 | a pass without a usable match records s and moves on by one byte, writing nothing |
| `Encoder.IterationMatch` | snappy/encode.go:105-120 | a pass with a match whose literal and copy both fit emits them and resumes at the match's end |
| `Encoder.UnfoldOutOfRoom` | snappy/encode.go:116-119 | a pass whose emitLiteral or emitCopy returns NULL makes encode return -1 |
| `Encoder.PendingStep` | snappy/encode.go:116-117 | the pending literal before a match always finds room, and the output stays within 7/6 of the bytes covered plus five |
| `Encoder.CopyPart` | snappy/encode.go:118-120 | the copy after it always finds room too, and restores the loop invariant at the match's end |
| `Encoder.MatchStep` | snappy/encode.go:113-120 | a pass with a match emits both elements without running out of room and keeps the invariant |
| `Encoder.FinishStep` | snappy/encode.go:122-124 | the final literal always finds room, and the elements then reproduce the whole source within MaxEncodedLen bytes |
| `Encoder.EncodeLoop` | snappy/encode.go:96-125 | a successful encode keeps the elements written before the loop state as a prefix of its output; what the whole output is, and that -1 never comes, is EncodeLoopCorrect |
| `Encoder.EncodeLoopCorrect` | snappy/encode.go:96-125 | from any state meeting the invariant, encode never returns -1, and the elements it writes reproduce src within MaxEncodedLen bytes |
| `Encoder.MissCase` | snappy/encode.go:109-112 | induction step of EncodeLoopCorrect for a pass without a match |
| `Encoder.MatchCase` | snappy/encode.go:113-120 | induction step of EncodeLoopCorrect for a pass with a match |
| `Encoder.EmitMatchPass` | snappy/encode.go:116-120 | the imperative second half of a pass (emitLiteral, NULL check, emitCopy, NULL check) computes EmitMatch |
| `Encoder.ScanPass` | snappy/encode.go:105-120 | one pass of the C loop on the mutable table computes Iteration and leaves the table as Iteration says |
| `Encoder.EncodeScan` | snappy/encode.go:96-125 | encode run as a loop over an array table (filled with the sentinel, then scanned) computes EncodeLoop, and with MaxEncodedLen bytes of room it never returns -1 and its elements reproduce src |
| `Encoder.Encode` | snappy/encode.go:133-156 | a returned block starts with the varint of len(src) (line 139); the panic of lines 152-154 needs a non-empty source, since the empty one returns at lines 140-142; that the panic never happens is EncodeCorrect |
| `Encoder.EncodeCorrect` | snappy/encode.go:133-156 | Encode never panics, and its block is the varint of len(src) followed by elements reproducing src, at most MaxEncodedLen(len(src)) bytes long |
| `Encoder.EncodeRoundTrip` | snappy/encode.go:133-156 | the reference decoder turns Encode's block back into src, and the block declares len(src) |
| `Encoder.EncodeEmpty` | snappy/encode.go:139-142 | the empty source encodes to the single byte 00 |
| `Encoder.EncodeFourBytes` | snappy/encode.go:104-124 | "aaaa" encodes to 04 0c 61 61 61 61 |
| `Encoder.EncodeEightBytes` | snappy/encode.go:104-124 | "aaaaaaaa" encodes to 08 00 61 0d 01: the literal "a", then a copy of offset 1 and length 7 |
| `Framing.EncodeBlock` | sz.go:70-73 | snappy.Encode of the buffered block yields content exactly on the blocks the encoder model covers (shorter than 2^31 bytes, so every block Flush passes), and that content decodes back to the block |
| `Framing.EncodeBlockCorrect` | sz.go:70-73 | encoding a block of at most 65536 bytes into w.c never fails, stays within MaxEncodedLen, declares the block's length and decodes back to it |
| `Framing.NewWriter` | sz.go:33-43 | a new writer has written exactly the 10-byte stream identifier and buffers nothing |
| `Framing.HeaderLength` | sz.go:88-89 | byte(n), byte(n>>8), byte(n>>16) is the 3-byte little-endian n |
| `Framing.HeaderFields` | sz.go:88-89 | read back, the bytes byte(n), byte(n>>8), byte(n>>16) give n modulo 2^24: the length field keeps only the low 24 bits |
| `Framing.ChunkHeader` | sz.go:88-96 | the 8-byte head: the type byte, then a length field that reads back as payload length + 4 modulo 2^24, then a checksum field that reads back as the masked CRC-32C of the uncompressed data |
| `Framing.ChunkParts` | sz.go:74-86 | the head and payload Flush picks: type 0x01 with the raw block exactly when the encoding is longer than the block, else type 0x00 with the encoding; the payload is never longer than the block and the checksum is always over the block |
| `Framing.ChunkWritesBytes` | sz.go:102-117 | the single Write of w.c[:n+4] and the two Writes of head and content send the same bytes |
| `Framing.FlushPathsAgree` | sz.go:102-117 | Flush has the same outcome whether or not the encoded content is contiguous with the header |
| `Framing.Flush` | sz.go:69-120 | a successful Flush empties the buffer and writes at least the 8-byte header |
| `Framing.FlushChunk` | sz.go:69-120 | Flush appends exactly the chunk of the buffered block to the sink and empties the buffer |
| `Framing.PartsLayout` | sz.go:77-96 | the header and payload Flush builds: type 0x01 with the raw block exactly when the encoding is longer than the block, else type 0x00 with the encoding |
| `Framing.ChunkLayout` | sz.go:74-96 | a chunk's type is 0x01 exactly when the encoding is strictly longer than the block (equal stays 0x00), its length field counts payload and checksum, its checksum is the masked CRC-32C of the block, and its payload is never longer than the block |
| `Framing.EmptyHeader` | sz.go:88-96 | the header of an empty raw chunk is 01 04 00 00 d8 ea 82 a2 |
| `Framing.EmptyChunk` | sz.go:78-96 | the chunk of the empty block is raw, because its one-byte encoding is longer than the block |
| `Framing.FlushEmpty` | sz.go:69-120 | flushing an empty buffer writes exactly 01 04 00 00 d8 ea 82 a2 |
| `Framing.Write` | sz.go:46-60 | Write keeps at most 65536 bytes buffered and reports every byte of data as written unless a Flush fails |
| `Framing.WriteFlushStep` | sz.go:47-56 | a pass of Write's loop that fills the buffer flushes the full block as one chunk and goes on with an empty buffer |
| `Framing.WriteBufferStep` | sz.go:47-57 | a pass that leaves room in the buffer writes nothing to the sink |
| `Framing.WriteBuffers` | sz.go:46-60 | Write accepts all of data, leaves fewer than 65536 bytes buffered, and has flushed the old buffer followed by data as consecutive full 65536-byte blocks, one chunk each, in order |
| `Framing.WriteAllChunks` | sz.go:46-60 | a sequence of Writes succeeds and flushes the written bytes, in order, as full blocks, one chunk each |
| `Framing.StreamChunks` | sz.go:33-64 | a Writer's stream is the stream identifier followed by one chunk per block, and the blocks, each at most 65536 bytes, hold the written bytes in order |
| `Framing.Close` | sz.go:62-64 | Close is Flush: on a writer whose buffer holds at most 65536 bytes it appends exactly that buffer's chunk and leaves the buffer empty |
| `Framing.NewReader` | sz.go:132-150 | NewReader succeeds only on a stream that begins with the 10-byte identifier, and then stands right after it |
| `Framing.NewReaderChecks` | sz.go:132-150 | NewReader fails with ErrUnexpectedEOF on fewer than ten bytes, fails with ErrFramingCorrupt when any of the ten differs from ff 06 00 00 "sNaPpY", and accepts the stream otherwise |
| `Framing.NewReaderStrictMemAsWritten` | sz.go:158-162 | as written, NewReaderStrictMem never returns an error: it panics on a nil dereference exactly when the stream is shorter than ten bytes or does not start with the identifier, and otherwise opens a strict reader right after it |
| `Framing.StrictMemPanicsOnShortStream` | sz.go:158-162 | on an empty stream the as-written NewReaderStrictMem panics where NewReader returns ErrUnexpectedEOF |
| `Framing.NewReaderStrictMem` | sz.go:158-162 | as intended, NewReaderStrictMem passes NewReader's error on and makes a reader it opens strict |
| `Framing.ChunkLength` | sz.go:193 | the length field head[1] + head[2]<<8 + head[3]<<16 is the 3-byte little-endian value and below 2^24 |
| `Framing.CheckCrc` | sz.go:260-270 | a data chunk passes exactly when the masked CRC-32C of its decoded bytes equals the stored checksum, else ErrCRCMismatch; the decoded bytes survive a mismatch only in the as-written mode |
| `Framing.ReadChunk` | sz.go:185-270 | one chunk: io.EOF exactly at a chunk boundary, ErrUnexpectedEOF inside a header or payload, ErrStrictMemLimitExceeded in strict mode for a length above 76498 before the payload is read; a chunk read without error is consumed whole, a data chunk's bytes match its checksum, and a failed chunk leaves nothing but a mismatched chunk's bytes behind |
| `Framing.ReadChunkDispatch` | sz.go:210-259 | dispatch by type: 0x00/0x01 with payload under 4 bytes is ErrFramingCorrupt; 0x00 needs a declared length of at most 65536 and a successful decode; 0x01 needs a length of at most 65540; 0xff needs the payload "sNaPpY"; 0x02-0x7f is ErrUnexpectedChunk; 0x80-0xfe is skipped and yields no bytes |
| `Framing.ReadCompressedChunk` | sz.go:221-231 | a compressed chunk is refused when its declared length is unreadable or above 65536, fails when it does not decode, and is otherwise checked against its checksum |
| `Framing.ReadUncompressedChunk` | sz.go:232-239 | an uncompressed chunk longer than 65540 bytes is refused, and otherwise its payload after the checksum is checked against the checksum |
| `Framing.StrictLimitResumesInPayload` | sz.go:185-259 | in strict mode the chunk 00 ff ff 01 (length 131071, over 76498) is refused with only its 4-byte header consumed, and the next pull reads its payload bytes 80 00 00 00 as an empty skippable chunk without error |
| `Framing.Read` | sz.go:174-183 | Read returns at most len(p) bytes, exactly len(p) unless it returns an error, keeps the strict flag, and never un-consumes input; a Read without error for a non-empty p consumes input or r.dec, so the loop ends |
| `Framing.ReadNext` | sz.go:185-270 | once r.dec is used up, the chunk-pulling half of Read returns at most len(p) bytes, exactly len(p) unless it returns an error, and then has consumed input |
| `Framing.ChunkIsDataChunk` | sz.go:69-120 | every chunk Flush writes is a well-formed data chunk carrying its block, within the strict limit |
| `Framing.ReadDataChunk` | sz.go:185-270 | the reader takes back any well-formed data chunk in either mode, hands over its block, and resumes right after it |
| `Framing.ChunksFramed` | sz.go:69-120 | the chunks of a Writer's stream are well-formed data chunks, one per block |
| `Framing.ReadWithinDec` | sz.go:178-183 | a Read for no more bytes than r.dec holds returns the first of them and consumes no input |
| `Framing.ReadFromDec` | sz.go:179-181 | copying from r.dec and then reading on yields the next bytes of r.dec followed by what comes after, in order |
| `Framing.ReadPastDec` | sz.go:176-183 | a Read for more bytes than r.dec holds returns all of them, then what a Read for the rest of p returns |
| `Framing.ReadDecCase` | sz.go:176-183 | on framed input, a Read that starts with bytes in r.dec returns the next bytes of the stream in order |
| `Framing.ReadChunkCase` | sz.go:185-270 | on framed input with r.dec used up, a Read pulls the next chunk and returns the next bytes of the stream in order |
| `Framing.ReadChunks` | sz.go:174-273 | on framed input, a Read of k bytes returns the next k bytes of the blocks in order, or all that remain followed by io.EOF |
| `Framing.ReadAllChunks` | sz.go:174-273 | reading framed chunks until an error yields exactly the blocks' bytes, then io.EOF, whatever the buffer size |
| `Framing.StreamRoundTrip` | sz.go:33-273 | what a Writer produces from any writes, opened with NewReader or NewReaderStrictMem and read to the end with any buffer size, gives back the written bytes in order, then io.EOF |
| `Framing.ReadAtEnd` | sz.go:186-191 | a Read on a stream that ends at a chunk boundary returns io.EOF and nothing else |
| `Framing.ReadLeftOver` | sz.go:178-183 | a Read with bytes left in r.dec returns the first of them even at the end of the input |
| `Framing.ReadMismatchedChunk` | sz.go:232-270 | a raw chunk under a wrong checksum is ErrCRCMismatch; as written its bytes stay in r.dec, as intended they are dropped |
| `Framing.CrcMismatchLeaksBytes` | sz.go:232-270 | as written, after a Read reports ErrCRCMismatch, the next Read hands out the unverified bytes of the chunk that failed |
| `Framing.ErrorLeavesNothing` | sz.go:174-273 | as intended, a Read that ends in any error leaves nothing in r.dec |
| `Framing.ErrorLeavesNothingNext` | sz.go:185-270 | as intended, the chunk-pulling half of Read leaves nothing in r.dec when it ends in an error |
| `Framing.CrcMismatchDropsBytes` | sz.go:232-270 | as intended, after ErrCRCMismatch the next Read returns no byte of the failed chunk, only io.EOF |

## Left out

- I/O failures of the sink and the source are not modelled. A sink is an
  appended byte sequence and a source is the bytes not yet read, so the
  error returns at `sz.go:34-37`, `sz.go:104-116` and other sink or source
  failures never happen.
- `snappy-go` is not part of this model. `sz.go` imports it (`sz.go:7`), not
  the local cgo encoder (`sz.go:8`). The framing layer is modelled with the
  local encoder (`Encoder.Encode`) and with the reference decoder of
  `SnappyFormat` in place of `snappy.Decode` and `snappy.DecodedLen`.
  - A decode failure is `DecodeFailed`.
  - Any `Encode` error is `EncodeFailed`, and the proofs show it never
    happens.
- The address comparison `&w.c[8] == &content[0]` (`sz.go:102`) is the boolean
  `inPlace`. Only the equivalence of the two write paths is stated.
- Cgo and unsafe pointer plumbing is not modelled (`snappy/encode.go:144-151`).
  The platform-specific unaligned load of `L32` (`snappy/encode.go:33`) is
  modelled as the portable little-endian read (`snappy/encode.go:36`).
- Sources of 2^31 bytes or more are not modelled. Lengths are C `int` inside
  `encode`, so `Encode` requires `|src| < 2^31`. The framing layer never
  passes more than 65536 bytes.
- The CRC-32C is modelled bitwise (reflected polynomial 0x82F63B78), not
  with the table of `hash/crc32`. No check value is proved for it; only the
  empty input's checksum and the mask are.
- `hash.Hash32` reuse (`Reset`, `Write`, `Sum32`) is modelled as one
  checksum function. The reader's scratch buffers `r.blk` (`sz.go:125`, `sz.go:198-201`) and
  `r.spc` (`sz.go:127`, `sz.go:228`, `sz.go:238-239`) are modelled as plain
  values.
- `ReadAll` is not a function of `sz.go`. It models a consumer that calls
  `Read` until it returns an error, and the stream round trip is stated
  through it.
- Reader errors are not terminal in the code, and the model does the same.
  No lemma claims that errors are sticky.
  - After `ErrStrictMemLimitExceeded` only the chunk's header has been
    consumed (`sz.go:187`, `sz.go:194-196`). The next `Read` therefore
    resumes inside the refused chunk's payload
    (`StrictLimitResumesInPayload`).
  - After `ErrCRCMismatch`, in the code as written, the next `Read` first
    returns the bytes left in `r.dec` (`CrcMismatchLeaksBytes`).
  - After any other error the next `Read` resumes after the failing chunk,
    or at the end of the input when the chunk was cut short.
- The command-line tool `cmd/sz/sz.go` is not part of this model.
- The 66/65 blow-up bound that the comment at `snappy/encode.go:161-168`
  suspects is not proved. Only `32 + n + n/6` is.
- `Framing.Flush`: its own contract states only that the buffer is emptied
  and a header is written. The exact bytes are stated by `FlushChunk` and
  `ChunkLayout`.
- `Framing.Read`: its own contract states only the byte counts and progress.
  The bytes it returns on a framed stream are stated by `ReadChunks`.

## Findings

| source | as written | input that shows it | evidently intended | confidence | as-written member | corrected member |
|---|---|---|---|---|---|---|
| sz.go:158-162 | `NewReaderStrictMem` sets `szr.strict = true` before it looks at `err`, so when `NewReader` fails and returns a nil `*Reader` the assignment dereferences nil | an empty stream (or any stream shorter than 10 bytes or not starting with the identifier) | return `NewReader`'s error unchanged and set strict mode only on a reader that was opened | not executed | `Framing.StrictMemPanicsOnShortStream` | `Framing.NewReaderStrictMem` |
| sz.go:232-270 | `Read` stores the decoded bytes in `r.dec` (`sz.go:228`, `sz.go:238-239`) before it compares checksums (`sz.go:266`), so after `ErrCRCMismatch` the bytes stay in `r.dec` and the next `Read` returns them | after the stream identifier, a type 0x01 chunk with payload `d` (non-empty) under a stored checksum `m != MaskedChecksum(d)`, i.e. `MismatchedChunk(d, m)`; the second `Read` returns `d[..min(len(p), len(d))]` | a chunk that fails its checksum hands out none of its bytes | not executed | `Framing.CrcMismatchLeaksBytes` | `Framing.CrcMismatchDropsBytes` |

The corrected reading is what the model uses for the stream round trip. The
`keepUnverified` flag of `Read` switches between the two behaviours, and
`ErrorLeavesNothing` proves for the intended one that no error leaves bytes
behind. Both behaviours agree on every stream without a checksum mismatch.
