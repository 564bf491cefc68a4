/** The Snappy framing layer of sz.go: a Writer that cuts its input into
    blocks of at most 64 KiB and writes each as one checksummed chunk, and
    a Reader that checks the stream identifier, parses chunk headers,
    dispatches on the chunk type and verifies checksums (sections 3 and
    4.1-4.6 of Google's Snappy framing_format.txt).

    sz.go calls the external snappy-go package for the block codec; here
    the encoder is the one of snappy/encode.go (module Encoder) and the
    decoder is the reference decoder of module SnappyFormat. The sink is
    the sequence of bytes written so far and the source the sequence of
    bytes not yet read; their failures are not modelled. */
module Framing {
  import opened Bytes
  import opened Crc32c
  import Encoder
  import opened SnappyFormat

  const BlockSize := 0x1_0000                            // blockSize, 1 << 16

  /** The stream identifier chunk: type 0xff, length 6, "sNaPpY". */
  const Signature: seq<byte> := [0xff, 0x06, 0x00, 0x00, 0x73, 0x4e, 0x61, 0x50, 0x70, 0x59]

  const ChunkTypeCompressed := 0x00
  const ChunkTypeUncompressed := 0x01
  const ChunkTypeFirstSkippable := 0x80
  const ChunkTypePadding := 0xfe
  const ChunkTypeSig := 0xff

  /** The largest chunk a strict reader accepts: a worst-case encoding of
      a full block plus eight bytes (76498). */
  const StrictBlockLimit := Encoder.MaxEncodedLen(BlockSize) + 8

  /** The errors Writer and Reader return: the four of sz.go, the io
      package's EOF and ErrUnexpectedEOF, and whatever the codec's
      Encode or Decode returns. */
  datatype Error =
    | FramingCorrupt
    | UnexpectedChunk
    | CRCMismatch
    | StrictMemLimitExceeded
    | EOF
    | UnexpectedEOF
    | EncodeFailed
    | DecodeFailed

  datatype Result<T> = Ok(value: T) | Err(error: Error)

  function Min(a: nat, b: nat): nat
  {
    if a < b then a else b
  }

  /** The bytes of a sequence of writes, in order. */
  function Concat(parts: seq<seq<byte>>): (r: seq<byte>)
    decreases |parts|
  {
    if |parts| == 0 then [] else parts[0] + Concat(parts[1..])
  }

  lemma {:induction false} ConcatAppend(parts: seq<seq<byte>>, p: seq<byte>)
    ensures Concat(parts + [p]) == Concat(parts) + p
    decreases |parts|
  {
    if |parts| == 0 {
      assert parts + [p] == [p];
    } else {
      assert (parts + [p])[1..] == parts[1..] + [p];
      ConcatAppend(parts[1..], p);
    }
  }

  /* ---------------------------------------------------------------- */
  /* The block codec                                                   */
  /* ---------------------------------------------------------------- */

  /** snappy.Encode as Flush calls it, with dst = w.c[8:] of
      MaxEncodedLen(65536) bytes; None stands for the panic. */
  function EncodeBlock(block: seq<byte>): (r: Option<seq<byte>>)
    ensures r.Some? <==> |block| < Encoder.MaxSourceLength
    ensures r.Some? ==> DecodeBlock(r.value) == Some(block)
  {
    if |block| >= Encoder.MaxSourceLength then None
    else
      Encoder.EncodeRoundTrip(Encoder.MaxEncodedLen(BlockSize), block);
      match Encoder.Encode(Encoder.MaxEncodedLen(BlockSize), block)
      case Block(b) => Some(b)
      case BufferTooSmallPanic => None
  }

  /** What the framing relies on from the codec: a block of at most
      BlockSize bytes encodes within MaxEncodedLen bytes, and the encoding
      declares the block's length and decodes back to it. */
  lemma EncodeBlockCorrect(block: seq<byte>)
    requires |block| <= BlockSize
    ensures EncodeBlock(block).Some?
    ensures |EncodeBlock(block).value| <= Encoder.MaxEncodedLen(|block|)
    ensures DecodedLength(EncodeBlock(block).value) == Some(|block|)
    ensures DecodeBlock(EncodeBlock(block).value) == Some(block)
  {
    var es := Encoder.EncodeCorrect(Encoder.MaxEncodedLen(BlockSize), block);
    Encoder.EncodeRoundTrip(Encoder.MaxEncodedLen(BlockSize), block);
  }

  /** A sequence of blocks none longer than BlockSize. */
  predicate Blocks(blocks: seq<seq<byte>>)
  {
    forall i :: 0 <= i < |blocks| ==> |blocks[i]| <= BlockSize
  }
  /* ---------------------------------------------------------------- */
  /* Writer                                                            */
  /* ---------------------------------------------------------------- */

  /** A Writer: everything written to the underlying io.Writer so far, and
      the uncompressed bytes buffered for the next chunk (w.b[:w.n]). */
  datatype Writer = Writer(sink: seq<byte>, buf: seq<byte>)

  /** NewWriter writes the stream identifier and starts with an empty
      buffer. */
  function NewWriter(sink: seq<byte>): (w: Writer)
    ensures |w.sink| == |sink| + 10 && w.sink[..|sink|] == sink && w.sink[|sink|..] == Signature && w.buf == []
  {
    Writer(sink + Signature, [])
  }

  /** The eight-byte chunk header Flush writes: the type, the chunk length
      (payload plus four checksum bytes) truncated to three bytes as
      byte(n), byte(n>>8), byte(n>>16), and the masked CRC-32C of the
      uncompressed data as four little-endian bytes. */
  function ChunkHeader(tag: byte, payloadLen: nat, data: seq<byte>): (h: seq<byte>)
    ensures |h| == 8 && h[0] == tag
    ensures FromLittleEndian(h[1..4]) == (payloadLen + 4) % 0x100_0000
    ensures FromLittleEndian(h[4..8]) == MaskedChecksum(data)
  {
    var n := payloadLen + 4;
    var h := [tag, n % 0x100, (n / 0x100) % 0x100, (n / 0x1_0000) % 0x100] + LittleEndian(MaskedChecksum(data), 4);
    HeaderFields(n, h[1..4]);
    assert h[4..8] == LittleEndian(MaskedChecksum(data), 4);
    assert Pow256(4) == 0x1_0000_0000;
    FromLittleEndianOfLittleEndian(MaskedChecksum(data), 4);
    h
  }

  /** The bytes byte(n), byte(n>>8), byte(n>>16) denote n truncated to
      three bytes. */
  lemma HeaderFields(n: nat, f: seq<byte>)
    requires f == [n % 0x100, (n / 0x100) % 0x100, (n / 0x1_0000) % 0x100]
    ensures FromLittleEndian(f) == n % 0x100_0000
  {
    var m := n % 0x100_0000;
    var q := n / 0x100_0000;
    assert n == m + 0x100 * (0x1_0000 * q);
    AddMultiple256(m, 0x1_0000 * q);
    assert n / 0x100 == m / 0x100 + 0x100 * (0x100 * q);
    AddMultiple256(m / 0x100, 0x100 * q);
    assert n / 0x1_0000 == n / 0x100 / 0x100 && m / 0x1_0000 == m / 0x100 / 0x100;
    assert n / 0x1_0000 == m / 0x1_0000 + 0x100 * q;
    AddMultiple256(m / 0x1_0000, q);
    HeaderLength(m);
    assert Pow256(3) == 0x100_0000;
    FromLittleEndianOfLittleEndian(m, 3);
  }

  /** The header and the payload of the chunk for a block whose encoding
      is content: the encoding under type 0x00 unless it is longer than the
      block (incompressible), else the block itself under type 0x01. */
  function ChunkParts(block: seq<byte>, content: seq<byte>): (r: (seq<byte>, seq<byte>))
    ensures |r.0| == 8 && |r.1| <= |block|
    ensures r.0[0] == ChunkTypeUncompressed <==> |content| > |block|
    ensures r.0[0] == ChunkTypeCompressed || r.0[0] == ChunkTypeUncompressed
    ensures r.1 == (if r.0[0] == ChunkTypeUncompressed then block else content)
    ensures FromLittleEndian(r.0[4..8]) == MaskedChecksum(block)
  {
    if |content| > |block| then (ChunkHeader(ChunkTypeUncompressed, |block|, block), block)
    else (ChunkHeader(ChunkTypeCompressed, |content|, block), content)
  }

  /** What Flush hands to the io.Writer: one Write of the whole chunk when
      the encoded content already sits behind the header in w.c, else the
      header and the content in two Writes. */
  function ChunkWrites(head: seq<byte>, content: seq<byte>, contiguous: bool): seq<seq<byte>>
  {
    if contiguous then [head + content] else [head, content]
  }

  /** Both ways of handing a chunk to the io.Writer send the same bytes. */
  lemma ChunkWritesBytes(head: seq<byte>, content: seq<byte>, contiguous: bool)
    ensures Concat(ChunkWrites(head, content, contiguous)) == head + content
  {
    assert Concat([content]) == content;
    assert Concat([head + content]) == head + content;
  }

  /** Flush: encode the buffer; if the encoding is longer than the buffer,
      send the raw bytes as an uncompressed chunk instead; then write the
      header and the payload and empty the buffer. `inPlace` says whether
      the codec returned its output inside w.c (the address comparison in
      isContiguous). An encoder failure leaves the writer as it was. */
  function Flush(w: Writer, inPlace: bool): (r: Result<Writer>)
    ensures r.Ok? ==> r.value.buf == [] && |r.value.sink| >= |w.sink| + 8
  {
    match EncodeBlock(w.buf)
    case None => Err(EncodeFailed)
    case Some(content) =>
      var (head, payload) := ChunkParts(w.buf, content);
      var writes := ChunkWrites(head, payload, |content| <= |w.buf| && inPlace);
      ChunkWritesBytes(head, payload, |content| <= |w.buf| && inPlace);
      Ok(Writer(w.sink + Concat(writes), []))
  }

  /** Close is Flush: it writes the chunk of the buffered block and leaves
      the buffer empty. */
  function Close(w: Writer, inPlace: bool): (r: Result<Writer>)
    ensures |w.buf| <= BlockSize ==> r == Ok(Writer(w.sink + Chunk(w.buf), []))
  {
    if |w.buf| <= BlockSize then
      FlushChunk(w, inPlace);
      Flush(w, inPlace)
    else
      Flush(w, inPlace)
  }

  /** The chunk that carries one block, header and payload. */
  function Chunk(block: seq<byte>): seq<byte>
    requires |block| <= BlockSize
  {
    EncodeBlockCorrect(block);
    var (head, payload) := ChunkParts(block, EncodeBlock(block).value);
    head + payload
  }

  /** The chunks of a sequence of blocks, in order. */
  function Chunks(blocks: seq<seq<byte>>): seq<byte>
    requires Blocks(blocks)
    decreases |blocks|
  {
    if |blocks| == 0 then [] else Chunk(blocks[0]) + Chunks(blocks[1..])
  }

  lemma ChunksAppend(blocks: seq<seq<byte>>, b: seq<byte>)
    requires Blocks(blocks) && |b| <= BlockSize
    ensures Blocks(blocks + [b]) && Chunks(blocks + [b]) == Chunks(blocks) + Chunk(b)
  {
    assert Blocks([b]);
    ChunksOfAppend(blocks, [b]);
    ChunksOfOne(b);
  }

  lemma ChunksOfOne(b: seq<byte>)
    requires |b| <= BlockSize
    ensures Chunks([b]) == Chunk(b)
  {
    assert [b][1..] == [];
  }

  /** The two write paths of Flush send the same bytes to the sink. */
  lemma FlushPathsAgree(w: Writer)
    ensures Flush(w, true) == Flush(w, false)
  {
    match EncodeBlock(w.buf) {
      case None =>
      case Some(content) =>
        var (head, payload) := ChunkParts(w.buf, content);
        ChunkWritesBytes(head, payload, true);
        ChunkWritesBytes(head, payload, false);
    }
  }

  /** Flush writes exactly the chunk for the buffered block. */
  lemma FlushChunk(w: Writer, inPlace: bool)
    requires |w.buf| <= BlockSize
    ensures Flush(w, inPlace) == Ok(Writer(w.sink + Chunk(w.buf), []))
  {
    EncodeBlockCorrect(w.buf);
    var content := EncodeBlock(w.buf).value;
    var (head, payload) := ChunkParts(w.buf, content);
    ChunkWritesBytes(head, payload, |content| <= |w.buf| && inPlace);
  }

  /** The three length bytes of a header are the little-endian length. */
  lemma HeaderLength(n: nat)
    ensures LittleEndian(n, 3) == [n % 0x100, (n / 0x100) % 0x100, (n / 0x1_0000) % 0x100]
  {
    assert n / 0x100 / 0x100 == n / 0x1_0000;
    assert LittleEndian(n / 0x1_0000, 1) == [(n / 0x1_0000) % 0x100];
  }

  /** The layout of the chunk Flush writes, field by field: the type is
      0x01 exactly when the encoding is longer than the block (equal length
      stays compressed), the three-byte length counts the payload and the
      checksum, the checksum is the masked CRC-32C of the uncompressed
      block, and the payload is the raw block or its encoding, so never
      longer than the block. */
  lemma ChunkLayout(block: seq<byte>)
    requires |block| <= BlockSize
    ensures EncodeBlock(block).Some?
    ensures var ch := Chunk(block);
      |ch| >= 8 && |ch| <= |block| + 8
      && (ch[0] == ChunkTypeUncompressed <==> |EncodeBlock(block).value| > |block|)
      && (ch[0] == ChunkTypeCompressed || ch[0] == ChunkTypeUncompressed)
      && FromLittleEndian(ch[1..4]) == |ch| - 4
      && FromLittleEndian(ch[4..8]) == MaskedChecksum(block)
      && ch[8..] == (if ch[0] == ChunkTypeUncompressed then block else EncodeBlock(block).value)
  {
    EncodeBlockCorrect(block);
    var content := EncodeBlock(block).value;
    var (head, payload) := ChunkParts(block, content);
    PartsLayout(block, content);
    SplitChunk(head, payload);
  }

  /** ChunkParts, field by field. */
  lemma PartsLayout(block: seq<byte>, content: seq<byte>)
    requires |block| <= BlockSize && |content| <= Encoder.MaxEncodedLen(BlockSize)
    ensures var (head, payload) := ChunkParts(block, content);
      |head| == 8 && |payload| <= |block|
      && (head[0] == ChunkTypeUncompressed <==> |content| > |block|)
      && (head[0] == ChunkTypeCompressed || head[0] == ChunkTypeUncompressed)
      && FromLittleEndian(head[1..4]) == |payload| + 4
      && FromLittleEndian(head[4..8]) == MaskedChecksum(block)
      && payload == (if head[0] == ChunkTypeUncompressed then block else content)
  {
    var (head, payload) := ChunkParts(block, content);
  }

  /** The fields of a header followed by a payload. */
  lemma SplitChunk(head: seq<byte>, payload: seq<byte>)
    requires |head| == 8
    ensures var ch := head + payload;
      ch[0] == head[0] && ch[1..4] == head[1..4] && ch[4..8] == head[4..8] && ch[8..] == payload
  {
  }

  /** The flush of an empty buffer: the encoding of the empty block is the
      one-byte preamble 0x00, longer than the block, so it goes out as an
      uncompressed chunk 01 04 00 00 whose checksum is the masked CRC of
      nothing, d8 ea 82 a2. */
  lemma FlushEmpty(sink: seq<byte>, inPlace: bool)
    ensures Flush(Writer(sink, []), inPlace) == Ok(Writer(sink + [0x01, 0x04, 0x00, 0x00, 0xd8, 0xea, 0x82, 0xa2], []))
  {
    FlushChunk(Writer(sink, []), inPlace);
    EmptyChunk();
  }

  /** The chunk of the empty block. */
  lemma EmptyChunk()
    ensures Chunk([]) == [0x01, 0x04, 0x00, 0x00, 0xd8, 0xea, 0x82, 0xa2]
  {
    var empty: seq<byte> := [];
    Encoder.EncodeEmpty(Encoder.MaxEncodedLen(BlockSize));
    assert EncodeBlock(empty) == Some([0]);
    EmptyHeader();
    assert ChunkParts(empty, [0]) == (ChunkHeader(1, 0, empty), empty);
  }

  /** The header of the empty block's uncompressed chunk. */
  lemma EmptyHeader()
    ensures ChunkHeader(1, 0, []) == [0x01, 0x04, 0x00, 0x00, 0xd8, 0xea, 0x82, 0xa2]
  {
    MaskedChecksumOfEmpty();
    assert LittleEndian(0xa282_ead8, 4) == [0xd8, 0xea, 0x82, 0xa2];
  }

  /** The outcome of Write: the writer, the count of bytes accepted, and
      the error that stopped it, if any. */
  datatype Written = Written(w: Writer, n: nat, err: Option<Error>)

  /** Write: copy as much of data as fits into the buffer; whenever the
      buffer is full, Flush it, returning at once if that fails; repeat
      until data is used up. The count includes the bytes copied into the
      buffer before a failing Flush. */
  function Write(w: Writer, data: seq<byte>, inPlace: bool): (r: Written)
    requires |w.buf| <= BlockSize
    ensures |r.w.buf| <= BlockSize && r.n <= |data|
    ensures r.err.None? ==> r.n == |data|
    decreases |data|, if |w.buf| == BlockSize then 1 else 0
  {
    if |data| == 0 then Written(w, 0, None)
    else
      var copied := Min(BlockSize - |w.buf|, |data|);
      var w1 := Writer(w.sink, w.buf + data[..copied]);
      if |w1.buf| == BlockSize then
        match Flush(w1, inPlace)
        case Err(e) => Written(w1, copied, Some(e))
        case Ok(w2) =>
          var r := Write(w2, data[copied..], inPlace);
          Written(r.w, copied + r.n, r.err)
      else
        var r := Write(w1, data[copied..], inPlace);
        Written(r.w, copied + r.n, r.err)
  }

  /** Every block in blocks is a full one. */
  predicate FullBlocks(blocks: seq<seq<byte>>)
  {
    forall i :: 0 <= i < |blocks| ==> |blocks[i]| == BlockSize
  }

  /** A pass of Write's loop that fills the buffer: the full block is
      flushed as one chunk and the loop goes on with an empty buffer. */
  lemma WriteFlushStep(w: Writer, data: seq<byte>, inPlace: bool, copied: nat)
    requires |w.buf| < BlockSize && |data| > 0
    requires copied == Min(BlockSize - |w.buf|, |data|) && |w.buf| + copied == BlockSize
    ensures var r := Write(Writer(w.sink + Chunk(w.buf + data[..copied]), []), data[copied..], inPlace);
      Write(w, data, inPlace) == Written(r.w, copied + r.n, r.err)
  {
    FlushChunk(Writer(w.sink, w.buf + data[..copied]), inPlace);
  }

  /** A pass of Write's loop that leaves room in the buffer. */
  lemma WriteBufferStep(w: Writer, data: seq<byte>, inPlace: bool, copied: nat)
    requires |w.buf| < BlockSize && |data| > 0
    requires copied == Min(BlockSize - |w.buf|, |data|) && |w.buf| + copied < BlockSize
    ensures var r := Write(Writer(w.sink, w.buf + data[..copied]), data[copied..], inPlace);
      Write(w, data, inPlace) == Written(r.w, copied + r.n, r.err)
  {
  }

  /** Putting a full block in front of a sequence of full blocks. */
  lemma ConsBlock(full: seq<byte>, more: seq<seq<byte>>)
    requires |full| == BlockSize && FullBlocks(more)
    ensures FullBlocks([full] + more) && Blocks([full] + more)
    ensures Concat([full] + more) == full + Concat(more)
    ensures Chunks([full] + more) == Chunk(full) + Chunks(more)
  {
    var blocks := [full] + more;
    assert blocks[0] == full && blocks[1..] == more;
  }

  /** Regrouping the bytes around one pass of Write's loop. */
  lemma Regroup(buf: seq<byte>, data: seq<byte>, copied: nat, front: seq<byte>, back: seq<byte>)
    requires copied <= |data| && data[copied..] == front + back
    ensures buf + data == (buf + data[..copied] + front) + back
  {
    assert data == data[..copied] + (front + back);
  }

  lemma Assoc(a: seq<byte>, b: seq<byte>, c: seq<byte>)
    ensures (a + b) + c == a + (b + c)
  {
  }

  /** Write buffering: Write accepts all of data, keeps fewer than
      BlockSize bytes buffered, and has flushed the buffered bytes followed
      by data as consecutive full blocks, one chunk each, in order. */
  lemma {:induction false} WriteBuffers(w: Writer, data: seq<byte>, inPlace: bool)
    returns (blocks: seq<seq<byte>>, w': Writer)
    requires |w.buf| < BlockSize
    ensures FullBlocks(blocks) && Blocks(blocks)
    ensures Write(w, data, inPlace) == Written(w', |data|, None)
    ensures |w'.buf| < BlockSize
    ensures w.buf + data == Concat(blocks) + w'.buf
    ensures w'.sink == w.sink + Chunks(blocks)
    decreases |data|
  {
    if |data| == 0 {
      blocks, w' := [], w;
    } else {
      var copied := Min(BlockSize - |w.buf|, |data|);
      var full := w.buf + data[..copied];
      if |full| == BlockSize {
        WriteFlushStep(w, data, inPlace, copied);
        var more;
        more, w' := WriteBuffers(Writer(w.sink + Chunk(full), []), data[copied..], inPlace);
        blocks := [full] + more;
        ConsBlock(full, more);
        Regroup(w.buf, data, copied, Concat(more), w'.buf);
        Assoc(w.sink, Chunk(full), Chunks(more));
      } else {
        WriteBufferStep(w, data, inPlace, copied);
        blocks, w' := WriteBuffers(Writer(w.sink, full), data[copied..], inPlace);
        Regroup(w.buf, data, copied, [], data[copied..]);
      }
    }
  }

  /** Writes each of writes in turn, stopping at the first error. */
  function WriteAll(w: Writer, writes: seq<seq<byte>>, inPlace: bool): (r: Result<Writer>)
    requires |w.buf| <= BlockSize
    ensures r.Ok? ==> |r.value.buf| <= BlockSize
    decreases |writes|
  {
    if |writes| == 0 then Ok(w)
    else
      var r := Write(w, writes[0], inPlace);
      if r.err.Some? then Err(r.err.value) else WriteAll(r.w, writes[1..], inPlace)
  }

  /** The stream a program produces that opens a Writer on an empty sink,
      writes each of writes in turn and closes it. */
  function Stream(writes: seq<seq<byte>>, inPlace: bool): Result<seq<byte>>
  {
    match WriteAll(NewWriter([]), writes, inPlace)
    case Err(e) => Err(e)
    case Ok(w) =>
      match Close(w, inPlace)
      case Err(e) => Err(e)
      case Ok(w') => Ok(w'.sink)
  }

  lemma {:induction false} ConcatOfAppend(a: seq<seq<byte>>, b: seq<seq<byte>>)
    ensures Concat(a + b) == Concat(a) + Concat(b)
    decreases |a|
  {
    if |a| == 0 {
      assert a + b == b;
    } else {
      assert (a + b)[1..] == a[1..] + b;
      ConcatOfAppend(a[1..], b);
    }
  }

  lemma {:induction false} ChunksOfAppend(a: seq<seq<byte>>, b: seq<seq<byte>>)
    requires Blocks(a) && Blocks(b)
    ensures Blocks(a + b) && Chunks(a + b) == Chunks(a) + Chunks(b)
    decreases |a|
  {
    BlocksAppend(a, b);
    if |a| == 0 {
      assert a + b == b;
    } else {
      assert (a + b)[0] == a[0] && (a + b)[1..] == a[1..] + b;
      ChunksOfAppend(a[1..], b);
      Assoc(Chunk(a[0]), Chunks(a[1..]), Chunks(b));
    }
  }

  lemma BlocksAppend(a: seq<seq<byte>>, b: seq<seq<byte>>)
    requires Blocks(a) && Blocks(b)
    ensures Blocks(a + b)
  {
    forall i | 0 <= i < |a + b|
      ensures |(a + b)[i]| <= BlockSize
    {
      if i >= |a| {
        assert (a + b)[i] == b[i - |a|];
      }
    }
  }

  /** Chaining the bytes of two consecutive Writes. */
  lemma Chain(buf: seq<byte>, x: seq<byte>, y: seq<byte>, c1: seq<byte>, mid: seq<byte>, c2: seq<byte>, end: seq<byte>)
    requires buf + x == c1 + mid && mid + y == c2 + end
    ensures buf + (x + y) == (c1 + c2) + end
  {
    calc {
      buf + (x + y);
      (buf + x) + y;
      (c1 + mid) + y;
      c1 + (mid + y);
      c1 + (c2 + end);
    }
  }

  /** Writing a sequence of writes succeeds, and flushes the buffered
      bytes followed by the written ones as a sequence of full blocks, one
      chunk each. */
  lemma {:induction false} WriteAllChunks(w: Writer, writes: seq<seq<byte>>, inPlace: bool)
    returns (blocks: seq<seq<byte>>, w': Writer)
    requires |w.buf| < BlockSize
    ensures FullBlocks(blocks) && Blocks(blocks)
    ensures WriteAll(w, writes, inPlace) == Ok(w') && |w'.buf| < BlockSize
    ensures w.buf + Concat(writes) == Concat(blocks) + w'.buf
    ensures w'.sink == w.sink + Chunks(blocks)
    decreases |writes|
  {
    if |writes| == 0 {
      blocks, w' := [], w;
    } else {
      var first, w1 := WriteBuffers(w, writes[0], inPlace);
      var rest;
      rest, w' := WriteAllChunks(w1, writes[1..], inPlace);
      blocks := first + rest;
      ConcatOfAppend(first, rest);
      ChunksOfAppend(first, rest);
      assert FullBlocks(blocks) by {
        forall i | 0 <= i < |blocks|
          ensures |blocks[i]| == BlockSize
        {
          if i >= |first| {
            assert blocks[i] == rest[i - |first|];
          }
        }
      }
      assert Concat(writes) == writes[0] + Concat(writes[1..]);
      Chain(w.buf, writes[0], Concat(writes[1..]), Concat(first), w1.buf, Concat(rest), w'.buf);
      Assoc(w.sink, Chunks(first), Chunks(rest));
    }
  }

  /** The stream of any sequence of writes is the stream identifier
      followed by one chunk per block, the blocks holding the written bytes
      in order, each at most BlockSize long. */
  lemma StreamChunks(writes: seq<seq<byte>>, inPlace: bool) returns (blocks: seq<seq<byte>>)
    ensures Blocks(blocks)
    ensures Stream(writes, inPlace) == Ok(Signature + Chunks(blocks))
    ensures Concat(blocks) == Concat(writes)
  {
    var w0 := NewWriter([]);
    var body, w := WriteAllChunks(w0, writes, inPlace);
    FlushChunk(w, inPlace);
    ChunksAppend(body, w.buf);
    ConcatAppend(body, w.buf);
    blocks := body + [w.buf];
    assert Blocks(blocks) by {
      forall i | 0 <= i < |blocks|
        ensures |blocks[i]| <= BlockSize
      {
        if i < |body| {
          assert blocks[i] == body[i];
        }
      }
    }
    assert w0.buf + Concat(writes) == Concat(writes);
    Assoc(Signature, Chunks(body), Chunk(w.buf));
  }

  /* ---------------------------------------------------------------- */
  /* Reader                                                            */
  /* ---------------------------------------------------------------- */


  /** A Reader: the bytes of the underlying io.Reader not yet consumed,
      the unread part of the current block (r.dec), and strict mode. */
  datatype Reader = Reader(input: seq<byte>, dec: seq<byte>, strict: bool)

  /** NewReader: read the ten bytes of the stream identifier (a stream
      that ends first is ErrUnexpectedEOF, whether it ends at once or
      inside them) and compare them with the signature. */
  function NewReader(input: seq<byte>): (r: Result<Reader>)
    ensures r.Ok? ==> |input| >= 10 && r.value == Reader(input[10..], [], false) && input[..10] == Signature
  {
    if |input| < 10 then Err(UnexpectedEOF)
    else if exists i :: 0 <= i < 10 && input[i] != Signature[i] then Err(FramingCorrupt)
    else
      assert input[..10] == Signature;
      Ok(Reader(input[10..], [], false))
  }

  /** NewReader fails with ErrUnexpectedEOF on fewer than ten bytes and
      with ErrFramingCorrupt when any of the ten differs from the
      signature, and accepts a stream that starts with it. */
  lemma NewReaderChecks(input: seq<byte>)
    ensures |input| < 10 ==> NewReader(input) == Err(UnexpectedEOF)
    ensures |input| >= 10 && input[..10] != Signature ==> NewReader(input) == Err(FramingCorrupt)
    ensures |input| >= 10 && input[..10] == Signature ==> NewReader(input) == Ok(Reader(input[10..], [], false))
  {
    if |input| >= 10 && input[..10] != Signature {
      var i :| 0 <= i < 10 && input[..10][i] != Signature[i];
      assert input[i] != Signature[i];
    }
  }

  /** The three outcomes of NewReaderStrictMem as written. */
  datatype Opened = Opened(reader: Reader) | OpenFailed(error: Error) | NilDereferencePanic

  /** NewReaderStrictMem as written: it sets szr.strict before looking at
      err, so when NewReader fails (returning a nil *Reader) it
      dereferences nil. */
  function NewReaderStrictMemAsWritten(input: seq<byte>): (r: Opened)
    ensures !r.OpenFailed?
    ensures r.NilDereferencePanic? <==> |input| < 10 || input[..10] != Signature
    ensures r.Opened? ==> r.reader == Reader(input[10..], [], true)
  {
    NewReaderChecks(input);
    match NewReader(input)
    case Err(_) => NilDereferencePanic
    case Ok(rd) => Opened(rd.(strict := true))
  }

  /** A stream too short for the stream identifier makes the as-written
      NewReaderStrictMem panic instead of returning ErrUnexpectedEOF. */
  lemma StrictMemPanicsOnShortStream()
    ensures NewReaderStrictMemAsWritten([]) == NilDereferencePanic
    ensures NewReader([]) == Err(UnexpectedEOF)
  {
  }

  /** NewReaderStrictMem as intended: NewReader's error is passed on, and
      a reader it opens is switched to strict mode. */
  function NewReaderStrictMem(input: seq<byte>): (r: Result<Reader>)
    ensures NewReader(input).Err? ==> r == Err(NewReader(input).error)
    ensures NewReader(input).Ok? ==> r == Ok(NewReader(input).value.(strict := true))
  {
    match NewReader(input)
    case Err(e) => Err(e)
    case Ok(rd) => Ok(rd.(strict := true))
  }

  /** The length field of a chunk header, head[1] + head[2]<<8 + head[3]<<16. */
  function ChunkLength(input: seq<byte>): (l: nat)
    requires |input| >= 4
    ensures l == FromLittleEndian(input[1..4]) && l < 0x100_0000
  {
    var b1: int, b2: int, b3: int := input[1], input[2], input[3];
    var h := input[1..4];
    assert h[1..][1..][1..] == [];
    assert FromLittleEndian(h[1..][1..]) == b3;
    assert FromLittleEndian(h[1..]) == b2 + 0x100 * b3;
    b1 + b2 * 0x100 + b3 * 0x1_0000
  }

  /** One chunk read: the input after it, the bytes it leaves in r.dec,
      and the error it ends with, if any. */
  datatype Chunked = Chunked(rest: seq<byte>, dec: seq<byte>, err: Option<Error>)

  /** The check that ends a data chunk: the masked CRC-32C of the decoded
      bytes against the checksum in the payload. As written, the decoded
      bytes stay in r.dec after a mismatch (keepUnverified); as intended,
      they are dropped. */
  function CheckCrc(rest: seq<byte>, dec: seq<byte>, masked: nat, keepUnverified: bool): (r: Chunked)
    ensures r.rest == rest
    ensures r.err.None? <==> MaskedChecksum(dec) == masked
    ensures r.err.Some? ==> r.err == Some(CRCMismatch)
    ensures r.dec == (if r.err.None? || keepUnverified then dec else [])
  {
    if MaskedChecksum(dec) != masked then Chunked(rest, if keepUnverified then dec else [], Some(CRCMismatch))
    else Chunked(rest, dec, None)
  }

  /** The body of Read's loop once r.dec is used up: read a four-byte chunk
      header and the payload it announces, then dispatch on the type. */
  function ReadChunk(input: seq<byte>, strict: bool, keepUnverified: bool): (r: Chunked)
    ensures |r.rest| <= |input| && r.rest == input[|input| - |r.rest|..]
    ensures r.err == Some(EOF) <==> |input| == 0
    ensures 0 < |input| < 4 ==> r.err == Some(UnexpectedEOF)
    ensures |input| >= 4 && strict && ChunkLength(input) > StrictBlockLimit
            ==> r.err == Some(StrictMemLimitExceeded) && r.rest == input[4..]
    ensures |input| >= 4 && !(strict && ChunkLength(input) > StrictBlockLimit) && |input| < 4 + ChunkLength(input)
            ==> r.err == Some(UnexpectedEOF)
    ensures r.err.None? ==> 4 + ChunkLength(input) <= |input| && r.rest == input[4 + ChunkLength(input)..]
    ensures r.err.None? && (input[0] == 0 || input[0] == 1)
            ==> 8 <= 4 + ChunkLength(input) && MaskedChecksum(r.dec) == FromLittleEndian(input[4..8])
    ensures r.err.None? && input[0] == 1 ==> |r.dec| <= BlockSize
    ensures r.dec != [] ==> |input| >= 8 && (input[0] == 0 || input[0] == 1)
    ensures r.err.None? && |input| >= 4 ==> input[0] <= 1 || input[0] == ChunkTypeSig || input[0] >= ChunkTypeFirstSkippable
    ensures r.err.Some? && (r.err != Some(CRCMismatch) || !keepUnverified) ==> r.dec == []
  {
    if |input| == 0 then Chunked([], [], Some(EOF))
    else if |input| < 4 then Chunked([], [], Some(UnexpectedEOF))
    else
      var tag := input[0];
      var l := ChunkLength(input);
      if strict && l > StrictBlockLimit then Chunked(input[4..], [], Some(StrictMemLimitExceeded))
      else if |input| < 4 + l then Chunked([], [], Some(UnexpectedEOF))
      else
        var blk := input[4..4 + l];
        var rest := input[4 + l..];
        if (tag == ChunkTypeCompressed || tag == ChunkTypeUncompressed) && l < 4 then
          Chunked(rest, [], Some(FramingCorrupt))
        else if tag == ChunkTypeCompressed then
          assert blk[..4] == input[4..8];
          match DecodedLength(blk[4..])
          case None => Chunked(rest, [], Some(FramingCorrupt))
          case Some(n) =>
            if n > BlockSize then Chunked(rest, [], Some(FramingCorrupt))
            else
              match DecodeBlock(blk[4..])
              case None => Chunked(rest, [], Some(DecodeFailed))
              case Some(dec) => CheckCrc(rest, dec, FromLittleEndian(blk[..4]), keepUnverified)
        else if tag == ChunkTypeUncompressed then
          assert blk[..4] == input[4..8];
          if l > BlockSize + 4 then Chunked(rest, [], Some(FramingCorrupt))
          else CheckCrc(rest, blk[4..], FromLittleEndian(blk[..4]), keepUnverified)
        else if tag == ChunkTypeSig then
          if l != 6 || blk != Signature[4..] then Chunked(rest, [], Some(FramingCorrupt))
          else Chunked(rest, [], None)
        else if tag < ChunkTypeFirstSkippable then Chunked(rest, [], Some(UnexpectedChunk))
        else Chunked(rest, [], None)
  }

  /** Read's dispatch on the chunk type, once the header and the payload
      it announces are in: data chunks need room for their checksum; a
      compressed chunk must declare at most 65536 decoded bytes and decode,
      an uncompressed one must carry at most 65536 bytes, and either is then
      checked against its checksum; a stream identifier is accepted exactly
      when its payload is "sNaPpY"; the reserved unskippable types
      0x02-0x7f are refused; the skippable types 0x80-0xfe are passed over. */
  lemma ReadChunkDispatch(input: seq<byte>, strict: bool, keepUnverified: bool)
    requires |input| >= 4 && !(strict && ChunkLength(input) > StrictBlockLimit)
    requires |input| >= 4 + ChunkLength(input)
    ensures var tag, l := input[0], ChunkLength(input);
      var blk, rest := input[4..4 + l], input[4 + l..];
      var r := ReadChunk(input, strict, keepUnverified);
      && ((tag == ChunkTypeCompressed || tag == ChunkTypeUncompressed) && l < 4
          ==> r == Chunked(rest, [], Some(FramingCorrupt)))
      && (tag == ChunkTypeCompressed && l >= 4 ==>
            r == match DecodedLength(blk[4..])
                 case None => Chunked(rest, [], Some(FramingCorrupt))
                 case Some(n) =>
                   if n > BlockSize then Chunked(rest, [], Some(FramingCorrupt))
                   else match DecodeBlock(blk[4..])
                        case None => Chunked(rest, [], Some(DecodeFailed))
                        case Some(dec) => CheckCrc(rest, dec, FromLittleEndian(input[4..8]), keepUnverified))
      && (tag == ChunkTypeUncompressed && l >= 4 ==>
            r == if l > BlockSize + 4 then Chunked(rest, [], Some(FramingCorrupt))
                 else CheckCrc(rest, input[8..4 + l], FromLittleEndian(input[4..8]), keepUnverified))
      && (tag == ChunkTypeSig ==>
            r == Chunked(rest, [], if blk == Signature[4..] then None else Some(FramingCorrupt)))
      && (ChunkTypeUncompressed < tag < ChunkTypeFirstSkippable ==> r == Chunked(rest, [], Some(UnexpectedChunk)))
      && (ChunkTypeFirstSkippable <= tag < ChunkTypeSig ==> r == Chunked(rest, [], None))
  {
    var l := ChunkLength(input);
    if input[0] == ChunkTypeCompressed && l >= 4 {
      ReadCompressedChunk(input, strict, keepUnverified);
    } else if input[0] == ChunkTypeUncompressed && l >= 4 {
      ReadUncompressedChunk(input, strict, keepUnverified);
    }
  }

  /** ReadChunkDispatch for a compressed chunk with room for its checksum. */
  lemma ReadCompressedChunk(input: seq<byte>, strict: bool, keepUnverified: bool)
    requires |input| >= 4 && !(strict && ChunkLength(input) > StrictBlockLimit)
    requires |input| >= 4 + ChunkLength(input) >= 8 && input[0] == ChunkTypeCompressed
    ensures var l := ChunkLength(input);
      var rest := input[4 + l..];
      ReadChunk(input, strict, keepUnverified)
      == match DecodedLength(input[8..4 + l])
         case None => Chunked(rest, [], Some(FramingCorrupt))
         case Some(n) =>
           if n > BlockSize then Chunked(rest, [], Some(FramingCorrupt))
           else match DecodeBlock(input[8..4 + l])
                case None => Chunked(rest, [], Some(DecodeFailed))
                case Some(dec) => CheckCrc(rest, dec, FromLittleEndian(input[4..8]), keepUnverified)
  {
    var l := ChunkLength(input);
    var blk := input[4..4 + l];
    assert blk[..4] == input[4..8] && blk[4..] == input[8..4 + l];
  }

  /** ReadChunkDispatch for an uncompressed chunk with room for its checksum. */
  lemma ReadUncompressedChunk(input: seq<byte>, strict: bool, keepUnverified: bool)
    requires |input| >= 4 && !(strict && ChunkLength(input) > StrictBlockLimit)
    requires |input| >= 4 + ChunkLength(input) >= 8 && input[0] == ChunkTypeUncompressed
    ensures var l := ChunkLength(input);
      ReadChunk(input, strict, keepUnverified)
      == if l > BlockSize + 4 then Chunked(input[4 + l..], [], Some(FramingCorrupt))
         else CheckCrc(input[4 + l..], input[8..4 + l], FromLittleEndian(input[4..8]), keepUnverified)
  {
    var l := ChunkLength(input);
    var blk := input[4..4 + l];
    assert blk[..4] == input[4..8] && blk[4..] == input[8..4 + l];
  }

  /** In strict mode a chunk over the limit is refused once only its header
      is consumed, so the next pull parses the refused chunk's payload as a
      chunk of its own: here a compressed chunk of length 131071 whose first
      payload bytes 80 00 00 00 then read as an empty skippable chunk. */
  lemma StrictLimitResumesInPayload(keepUnverified: bool)
    ensures var input: seq<byte> := [0x00, 0xff, 0xff, 0x01, 0x80, 0x00, 0x00, 0x00];
      var first := ReadChunk(input, true, keepUnverified);
      first == Chunked(input[4..], [], Some(StrictMemLimitExceeded))
      && ReadChunk(first.rest, true, keepUnverified) == Chunked([], [], None)
  {
    var input: seq<byte> := [0x00, 0xff, 0xff, 0x01, 0x80, 0x00, 0x00, 0x00];
    assert ChunkLength(input) == 0x1_ffff;
    assert ChunkLength(input[4..]) == 0;
  }

  /** The outcome of one call of Read: the reader after it, the bytes
      copied into p, and the error returned, if any. */
  datatype ReadResult = ReadResult(r: Reader, data: seq<byte>, err: Option<Error>)

  /** Read with a buffer p of k bytes: while no error has occurred and p
      is not full, hand out bytes of r.dec, or once it is used up read the
      next chunk (ReadNext). A Read stops at the first error, returning the
      bytes it had copied before it. keepUnverified says whether a chunk
      that fails its checksum stays in r.dec (see CheckCrc). */
  function Read(r: Reader, k: nat, keepUnverified: bool): (res: ReadResult)
    ensures |res.data| <= k && (res.err.None? ==> |res.data| == k)
    ensures res.r.strict == r.strict && |res.r.input| <= |r.input|
    ensures res.err.None? && k > 0 ==> |res.r.input| < |r.input| || |res.r.dec| < |r.dec|
    decreases |r.input|, |r.dec|, 1
  {
    if k == 0 then ReadResult(r, [], None)
    else if |r.dec| > 0 then
      var copied := Min(k, |r.dec|);
      var res := Read(Reader(r.input, r.dec[copied..], r.strict), k - copied, keepUnverified);
      ReadResult(res.r, r.dec[..copied] + res.data, res.err)
    else ReadNext(r, k, keepUnverified)
  }

  /** The rest of Read once r.dec is used up: read a chunk, stop on its
      error, else go on reading. */
  function ReadNext(r: Reader, k: nat, keepUnverified: bool): (res: ReadResult)
    requires k > 0 && r.dec == []
    ensures |res.data| <= k && (res.err.None? ==> |res.data| == k)
    ensures res.r.strict == r.strict && |res.r.input| <= |r.input|
    ensures res.err.None? ==> |res.r.input| < |r.input|
    decreases |r.input|, |r.dec|, 0
  {
    var ch := ReadChunk(r.input, r.strict, keepUnverified);
    var r' := Reader(ch.rest, ch.dec, r.strict);
    if ch.err.Some? then ReadResult(r', [], ch.err) else Read(r', k, keepUnverified)
  }

  /** What a consumer that calls Read with a k-byte buffer until it
      returns an error receives: every byte, and that error. */
  datatype Drained = Drained(data: seq<byte>, err: Error)

  function ReadAll(r: Reader, k: nat, keepUnverified: bool): Drained
    requires k > 0
    decreases |r.input|, |r.dec|
  {
    var res := Read(r, k, keepUnverified);
    match res.err
    case Some(e) => Drained(res.data, e)
    case None =>
      var more := ReadAll(res.r, k, keepUnverified);
      Drained(res.data + more.data, more.err)
  }

  /** A well-formed data chunk carrying block: type 0x00 or 0x01, a length
      field that counts the rest of the chunk and stays within the strict
      limit, the masked CRC-32C of the block, and a payload that is the
      block itself (0x01) or an encoding declaring the block's length and
      decoding to it (0x00). */
  predicate DataChunk(ch: seq<byte>, block: seq<byte>)
  {
    |ch| >= 8 && |block| <= BlockSize && |ch| - 4 <= StrictBlockLimit
    && (ch[0] == ChunkTypeCompressed || ch[0] == ChunkTypeUncompressed)
    && FromLittleEndian(ch[1..4]) == |ch| - 4
    && FromLittleEndian(ch[4..8]) == MaskedChecksum(block)
    && (ch[0] == ChunkTypeUncompressed ==> ch[8..] == block)
    && (ch[0] == ChunkTypeCompressed ==> DecodedLength(ch[8..]) == Some(|block|) && DecodeBlock(ch[8..]) == Some(block))
  }

  /** The chunks Flush writes are well-formed data chunks. */
  lemma ChunkIsDataChunk(block: seq<byte>)
    requires |block| <= BlockSize
    ensures DataChunk(Chunk(block), block)
  {
    ChunkLayout(block);
    EncodeBlockCorrect(block);
  }

  /** The reader takes back every well-formed data chunk: the block is
      handed over unchanged, in strict mode too, and reading resumes right
      after the chunk. */
  lemma ReadDataChunk(ch: seq<byte>, block: seq<byte>, rest: seq<byte>, strict: bool, keepUnverified: bool)
    requires DataChunk(ch, block)
    ensures ReadChunk(ch + rest, strict, keepUnverified) == Chunked(rest, block, None)
  {
    var input := ch + rest;
    var l := |ch| - 4;
    assert input[..|ch|] == ch && input[|ch|..] == rest;
    assert input[1..4] == ch[1..4] && input[4..8] == ch[4..8];
    assert ChunkLength(input) == l;
    var blk := input[4..4 + l];
    assert blk[..4] == ch[4..8] && blk[4..] == ch[8..];
  }

  /** A sequence of well-formed data chunks, one per block. */
  predicate Framed(chunks: seq<seq<byte>>, blocks: seq<seq<byte>>)
  {
    |chunks| == |blocks| && forall i :: 0 <= i < |chunks| ==> DataChunk(chunks[i], blocks[i])
  }

  /** The stream body the writer produces is framed. */
  lemma {:induction false} ChunksFramed(blocks: seq<seq<byte>>) returns (chunks: seq<seq<byte>>)
    requires Blocks(blocks)
    ensures Framed(chunks, blocks) && Chunks(blocks) == Concat(chunks)
    decreases |blocks|
  {
    if |blocks| == 0 {
      chunks := [];
    } else {
      var more := ChunksFramed(blocks[1..]);
      ChunkIsDataChunk(blocks[0]);
      chunks := [Chunk(blocks[0])] + more;
      assert chunks[0] == Chunk(blocks[0]) && chunks[1..] == more;
      assert Framed(chunks, blocks) by {
        forall i | 0 <= i < |chunks|
          ensures DataChunk(chunks[i], blocks[i])
        {
          if i > 0 {
            assert chunks[i] == more[i - 1] && blocks[i] == blocks[1..][i - 1];
          }
        }
      }
    }
  }

  /** What a Read for k bytes does to a reader on input with dec unread,
      when all is every byte the reader has to give: it returns the next k
      of them, or all of them together with io.EOF, and leaves the reader
      on input' with dec' unread, which with the bytes still to come (more')
      hold the rest. */
  predicate ReadsNext(input: seq<byte>, dec: seq<byte>, all: seq<byte>, strict: bool, k: nat, keepUnverified: bool,
                      input': seq<byte>, dec': seq<byte>, more': seq<byte>)
  {
    var res := Read(Reader(input, dec, strict), k, keepUnverified);
    res.data == all[..Min(k, |all|)]
    && res.err == (if k <= |all| then None else Some(EOF))
    && res.r == Reader(input', dec', strict)
    && dec' + more' == all[Min(k, |all|)..]
  }

  /** Reading from a reader whose input is framed chunks yields the bytes
      of dec and of the blocks in order, whatever the buffer size, and
      leaves the reader at the remaining chunks. */
  lemma {:induction false} ReadChunks(chunks: seq<seq<byte>>, blocks: seq<seq<byte>>, dec: seq<byte>, strict: bool,
                                      k: nat, keepUnverified: bool)
    returns (j: nat, dec': seq<byte>)
    requires Framed(chunks, blocks)
    ensures j <= |chunks| && Framed(chunks[j..], blocks[j..])
    ensures ReadsNext(Concat(chunks), dec, dec + Concat(blocks), strict, k, keepUnverified,
                      Concat(chunks[j..]), dec', Concat(blocks[j..]))
    decreases |chunks|, |dec|, 1
  {
    if k == 0 {
      j, dec' := 0, dec;
      ReadNothing(Concat(chunks), dec, Concat(blocks), strict, keepUnverified);
    } else if |dec| > 0 {
      j, dec' := ReadDecCase(chunks, blocks, dec, strict, k, keepUnverified);
    } else if |chunks| == 0 {
      j, dec' := 0, [];
    } else {
      j, dec' := ReadChunkCase(chunks, blocks, strict, k, keepUnverified);
    }
  }

  /** A Read into an empty buffer changes nothing. */
  lemma ReadNothing(input: seq<byte>, dec: seq<byte>, more: seq<byte>, strict: bool, keepUnverified: bool)
    ensures ReadsNext(input, dec, dec + more, strict, 0, keepUnverified, input, dec, more)
  {
  }

  /** ReadChunks when r.dec holds bytes: a Read that fits in them takes
      them from r.dec alone; a longer one empties r.dec and reads on. */
  lemma {:induction false} ReadDecCase(chunks: seq<seq<byte>>, blocks: seq<seq<byte>>, dec: seq<byte>, strict: bool,
                                       k: nat, keepUnverified: bool)
    returns (j: nat, dec': seq<byte>)
    requires Framed(chunks, blocks) && k > 0 && |dec| > 0
    ensures j <= |chunks| && Framed(chunks[j..], blocks[j..])
    ensures ReadsNext(Concat(chunks), dec, dec + Concat(blocks), strict, k, keepUnverified,
                      Concat(chunks[j..]), dec', Concat(blocks[j..]))
    decreases |chunks|, |dec|, 0
  {
    if k <= |dec| {
      j, dec' := 0, dec[k..];
      ReadWithinDec(Concat(chunks), dec, Concat(blocks), strict, k, keepUnverified);
    } else {
      j, dec' := ReadChunks(chunks, blocks, [], strict, k - |dec|, keepUnverified);
      ReadPastDec(Concat(chunks), dec, Concat(blocks), strict, k, keepUnverified, Concat(chunks[j..]), dec', Concat(blocks[j..]));
    }
  }

  /** A Read for no more bytes than r.dec holds returns the first of them
      and leaves the input alone. */
  lemma ReadWithinDec(input: seq<byte>, dec: seq<byte>, more: seq<byte>, strict: bool, k: nat, keepUnverified: bool)
    requires 0 < k <= |dec|
    ensures ReadsNext(input, dec, dec + more, strict, k, keepUnverified, input, dec[k..], more)
  {
    var all := dec + more;
    assert all[..k] == dec[..k] + [];
    assert dec[k..] + more == all[k..];
  }

  /** A Read for more bytes than r.dec holds returns all of them, then
      what a Read for the rest of the buffer returns on the emptied reader. */
  lemma ReadPastDec(input: seq<byte>, dec: seq<byte>, more: seq<byte>, strict: bool, k: nat, keepUnverified: bool,
                    input': seq<byte>, dec': seq<byte>, more': seq<byte>)
    requires 0 < |dec| < k
    requires ReadsNext(input, [], [] + more, strict, k - |dec|, keepUnverified, input', dec', more')
    ensures ReadsNext(input, dec, dec + more, strict, k, keepUnverified, input', dec', more')
  {
    assert dec[|dec|..] == [];
    ReadFromDec(dec, more, |dec|, k);
  }

  /** ReadChunks when r.dec is used up: the next chunk hands over its block. */
  lemma {:induction false} ReadChunkCase(chunks: seq<seq<byte>>, blocks: seq<seq<byte>>, strict: bool,
                                         k: nat, keepUnverified: bool)
    returns (j: nat, dec': seq<byte>)
    requires Framed(chunks, blocks) && k > 0 && |chunks| > 0
    ensures j <= |chunks| && Framed(chunks[j..], blocks[j..])
    ensures ReadsNext(Concat(chunks), [], [] + Concat(blocks), strict, k, keepUnverified,
                      Concat(chunks[j..]), dec', Concat(blocks[j..]))
    decreases |chunks|, 0, 0
  {
    FramedTail(chunks, blocks);
    ReadDataChunk(chunks[0], blocks[0], Concat(chunks[1..]), strict, keepUnverified);
    var j1;
    j1, dec' := ReadChunks(chunks[1..], blocks[1..], blocks[0], strict, k, keepUnverified);
    j := j1 + 1;
    assert chunks[1..][j1..] == chunks[j..] && blocks[1..][j1..] == blocks[j..];
    assert [] + Concat(blocks) == blocks[0] + Concat(blocks[1..]);
  }

  /** The chunks after the first of a framed sequence are framed. */
  lemma FramedTail(chunks: seq<seq<byte>>, blocks: seq<seq<byte>>)
    requires Framed(chunks, blocks) && |chunks| > 0
    ensures DataChunk(chunks[0], blocks[0]) && Framed(chunks[1..], blocks[1..])
  {
    forall i | 0 <= i < |chunks| - 1
      ensures DataChunk(chunks[1..][i], blocks[1..][i])
    {
      assert chunks[1..][i] == chunks[i + 1] && blocks[1..][i] == blocks[i + 1];
    }
  }

  /** The arithmetic of copying from r.dec: copied bytes of dec, then
      what a Read for the rest of the buffer returns. */
  lemma ReadFromDec(dec: seq<byte>, more: seq<byte>, copied: nat, k: nat)
    requires 0 < copied <= |dec| && copied <= k && (copied == k || copied == |dec|)
    ensures var all := dec + more;
      var all' := dec[copied..] + more;
      all' == all[copied..]
      && dec[..copied] + all'[..Min(k - copied, |all'|)] == all[..Min(k, |all|)]
      && all'[Min(k - copied, |all'|)..] == all[Min(k, |all|)..]
      && (k - copied <= |all'| <==> k <= |all|)
  {
    var all := dec + more;
    var all' := dec[copied..] + more;
    assert all' == all[copied..];
    if copied == k {
      assert Min(k - copied, |all'|) == 0 && Min(k, |all|) == k;
      assert all[..k] == dec[..k];
      assert all'[..0] == [];
    } else {
      var m := Min(k - copied, |more|);
      assert copied == |dec| && all' == more;
      assert Min(k, |all|) == |dec| + m;
      assert all[..|dec| + m] == dec + more[..m];
      assert dec[..copied] == dec;
    }
  }

  /** Reading framed chunks to the end yields exactly the bytes of dec and
      of the blocks, then io.EOF, whatever the buffer size. */
  lemma {:induction false} ReadAllChunks(chunks: seq<seq<byte>>, blocks: seq<seq<byte>>, dec: seq<byte>, strict: bool,
                                         k: nat, keepUnverified: bool)
    requires Framed(chunks, blocks) && k > 0
    ensures ReadAll(Reader(Concat(chunks), dec, strict), k, keepUnverified) == Drained(dec + Concat(blocks), EOF)
    decreases |Concat(chunks)|, |dec|
  {
    var all := dec + Concat(blocks);
    var j, dec' := ReadChunks(chunks, blocks, dec, strict, k, keepUnverified);
    if k <= |all| {
      ReadAllChunks(chunks[j..], blocks[j..], dec', strict, k, keepUnverified);
      assert all[..k] + all[k..] == all;
    } else {
      assert all[..|all|] == all;
    }
  }

  /** The stream round trip: what a Writer produces from any sequence of
      writes, opened with NewReader or NewReaderStrictMem and read to the
      end with buffers of any size, gives back the written bytes in order,
      followed by io.EOF. */
  lemma StreamRoundTrip(writes: seq<seq<byte>>, inPlace: bool, k: nat, keepUnverified: bool)
    requires k > 0
    ensures Stream(writes, inPlace).Ok?
    ensures NewReader(Stream(writes, inPlace).value).Ok?
    ensures ReadAll(NewReader(Stream(writes, inPlace).value).value, k, keepUnverified)
            == Drained(Concat(writes), EOF)
    ensures NewReaderStrictMem(Stream(writes, inPlace).value).Ok?
    ensures ReadAll(NewReaderStrictMem(Stream(writes, inPlace).value).value, k, keepUnverified)
            == Drained(Concat(writes), EOF)
  {
    var blocks := StreamChunks(writes, inPlace);
    var chunks := ChunksFramed(blocks);
    var s := Signature + Concat(chunks);
    assert s[..10] == Signature && s[10..] == Concat(chunks);
    NewReaderChecks(s);
    ReadAllChunks(chunks, blocks, [], false, k, keepUnverified);
    ReadAllChunks(chunks, blocks, [], true, k, keepUnverified);
  }

  /** A data chunk of type 0x01 carrying d under the wrong checksum m. */
  function MismatchedChunk(d: seq<byte>, m: nat): seq<byte>
    requires |d| <= BlockSize
  {
    [ChunkTypeUncompressed] + LittleEndian(|d| + 4, 3) + LittleEndian(m, 4) + d
  }

  /** Reading a chunk whose checksum does not match reports the mismatch;
      the bytes it carried stay in r.dec as written, and are dropped as
      intended. */
  lemma ReadMismatchedChunk(d: seq<byte>, m: nat, strict: bool, keepUnverified: bool)
    requires |d| <= BlockSize && m < 0x1_0000_0000 && m != MaskedChecksum(d)
    ensures ReadChunk(MismatchedChunk(d, m), strict, keepUnverified)
            == Chunked([], if keepUnverified then d else [], Some(CRCMismatch))
  {
    var input := MismatchedChunk(d, m);
    assert Pow256(3) == 0x100_0000 && Pow256(4) == 0x1_0000_0000;
    FromLittleEndianOfLittleEndian(|d| + 4, 3);
    FromLittleEndianOfLittleEndian(m, 4);
    assert input[1..4] == LittleEndian(|d| + 4, 3);
    assert input[4..8] == LittleEndian(m, 4);
    assert input[8..] == d;
    var blk := input[4..4 + ChunkLength(input)];
    assert blk[..4] == input[4..8] && blk[4..] == d;
  }

  /** As written, a Read that meets a checksum mismatch reports it and
      returns nothing, but the next Read hands out the first bytes of the
      chunk that failed the check. */
  lemma CrcMismatchLeaksBytes(d: seq<byte>, m: nat, strict: bool, k: nat)
    requires 0 < |d| <= BlockSize && m < 0x1_0000_0000 && m != MaskedChecksum(d) && k > 0
    ensures var first := Read(Reader(MismatchedChunk(d, m), [], strict), k, true);
      first.err == Some(CRCMismatch) && first.data == []
      && Read(first.r, k, true).data == d[..Min(k, |d|)] != []
  {
    ReadMismatchedChunk(d, m, strict, true);
    ReadLeftOver(d, strict, k, true);
  }

  /** A Read on a reader at the end of its input with d left in r.dec
      returns the first bytes of d. */
  lemma ReadLeftOver(d: seq<byte>, strict: bool, k: nat, keepUnverified: bool)
    requires 0 < |d| && k > 0
    ensures Read(Reader([], d, strict), k, keepUnverified).data == d[..Min(k, |d|)] != []
  {
    var copied := Min(k, |d|);
    var inner := Read(Reader([], d[copied..], strict), k - copied, keepUnverified);
    assert Read(Reader([], d, strict), k, keepUnverified).data == d[..copied] + inner.data;
    if k > copied {
      assert d[copied..] == [];
      ReadAtEnd(strict, k - copied, keepUnverified);
      assert inner.data == [];
    } else {
      assert inner.data == [];
    }
    assert d[..copied] + [] == d[..copied];
    assert d[..copied][0] == d[0];
  }

  /** A Read on a reader with nothing left reports io.EOF. */
  lemma ReadAtEnd(strict: bool, k: nat, keepUnverified: bool)
    requires k > 0
    ensures Read(Reader([], [], strict), k, keepUnverified) == ReadResult(Reader([], [], strict), [], Some(EOF))
  {
    assert ReadChunk([], strict, keepUnverified) == Chunked([], [], Some(EOF));
  }

  /** As intended, a Read that ends in an error leaves nothing in r.dec, so
      no bytes of a chunk that failed its checksum are ever handed out. */
  lemma {:induction false} ErrorLeavesNothing(r: Reader, k: nat)
    ensures Read(r, k, false).err.Some? ==> Read(r, k, false).r.dec == []
    decreases |r.input|, |r.dec|, 1
  {
    if k > 0 {
      if |r.dec| > 0 {
        var copied := Min(k, |r.dec|);
        ErrorLeavesNothing(Reader(r.input, r.dec[copied..], r.strict), k - copied);
      } else {
        ErrorLeavesNothingNext(r, k);
      }
    }
  }

  /** ErrorLeavesNothing once r.dec is used up. */
  lemma {:induction false} ErrorLeavesNothingNext(r: Reader, k: nat)
    requires k > 0 && r.dec == []
    ensures ReadNext(r, k, false).err.Some? ==> ReadNext(r, k, false).r.dec == []
    decreases |r.input|, |r.dec|, 0
  {
    var ch := ReadChunk(r.input, r.strict, false);
    if ch.err.None? {
      ErrorLeavesNothing(Reader(ch.rest, ch.dec, r.strict), k);
    }
  }

  /** As intended, after a checksum mismatch the next Read returns nothing
      of the chunk that failed. */
  lemma CrcMismatchDropsBytes(d: seq<byte>, m: nat, strict: bool, k: nat)
    requires 0 < |d| <= BlockSize && m < 0x1_0000_0000 && m != MaskedChecksum(d) && k > 0
    ensures var first := Read(Reader(MismatchedChunk(d, m), [], strict), k, false);
      first.err == Some(CRCMismatch) && first.data == []
      && Read(first.r, k, false) == ReadResult(Reader([], [], strict), [], Some(EOF))
  {
    ReadMismatchedChunk(d, m, strict, false);
    ReadAtEnd(strict, k, false);
  }
}
