/** A reference interpreter for the Snappy block format (sections 1 and 2 of
    Google's Snappy format_description.txt), written from the format rather
    than from the encoder. It is the specification the encoder is proved
    against: a block is a varint giving the uncompressed length followed by
    a stream of elements, each either a literal run or a back-reference
    (copy) into the output produced so far. */
module SnappyFormat {
  import opened Bytes

  /** The two low bits of every tag byte select the element kind. */
  const TagLiteral := 0
  const TagCopy1 := 1
  const TagCopy2 := 2
  const TagCopy4 := 3

  /** An element as the decoder sees it: the three copy encodings differ
      only in how many bits they spend on offset and length. */
  datatype Element = Literal(data: seq<byte>) | Copy(offset: nat, length: nat)

  /** Parses the element at the front of s: the element and the number of
      bytes it occupies, or None if s ends inside it. */
  function ParseElement(s: seq<byte>): (r: Option<(Element, nat)>)
    ensures r.Some? ==> 1 <= r.value.1 <= |s|
  {
    if |s| == 0 then None
    else
      var tag: int := s[0];
      var kind := tag % 4;
      if kind == TagLiteral then
        var m := tag / 4;
        if m < 60 then
          // section 2.1: lengths up to 60 live in the upper six bits
          if |s| < 1 + (m + 1) then None
          else Some((Literal(s[1..1 + (m + 1)]), 1 + (m + 1)))
        else
          // section 2.1: 60..63 say that 1..4 little-endian bytes of (length - 1) follow
          var k := m - 59;
          if |s| < 1 + k then None
          else
            var len := FromLittleEndian(s[1..1 + k]) + 1;
            if |s| < 1 + k + len then None
            else Some((Literal(s[1 + k..1 + k + len]), 1 + k + len))
      else if kind == TagCopy1 then
        // section 2.2.1: length-4 in bits 2..4, offset bits 8..10 in bits 5..7
        if |s| < 2 then None
        else Some((Copy((tag / 32) * 256 + s[1], 4 + (tag / 4) % 8), 2))
      else if kind == TagCopy2 then
        // section 2.2.2: length-1 in the upper six bits, 16-bit offset
        if |s| < 3 then None
        else Some((Copy(FromLittleEndian(s[1..3]), tag / 4 + 1), 3))
      else
        // section 2.2.3: length-1 in the upper six bits, 32-bit offset
        if |s| < 5 then None
        else Some((Copy(FromLittleEndian(s[1..5]), tag / 4 + 1), 5))
  }

  /** Appends length bytes, each equal to the byte offset positions back.
      Copying byte by byte is what makes overlapping copies (offset < length)
      repeat the last offset bytes, as the format requires. */
  function CopyFrom(out: seq<byte>, offset: nat, length: nat): (r: seq<byte>)
    requires 1 <= offset <= |out|
    ensures |r| == |out| + length && r[..|out|] == out
    decreases length
  {
    if length == 0 then out else CopyFrom(out + [out[|out| - offset]], offset, length - 1)
  }

  /** Applies one element to the output so far; a copy whose offset is zero
      or reaches before the start of the block is corrupt. */
  function Apply(e: Element, out: seq<byte>): Option<seq<byte>>
  {
    match e
    case Literal(data) => Some(out + data)
    case Copy(offset, length) =>
      if offset == 0 || offset > |out| then None else Some(CopyFrom(out, offset, length))
  }

  /** Runs the element stream s on top of the output so far. */
  function Run(s: seq<byte>, out: seq<byte>): Option<seq<byte>>
    decreases |s|
  {
    if |s| == 0 then Some(out)
    else match ParseElement(s)
      case None => None
      case Some((e, k)) =>
        match Apply(e, out)
        case None => None
        case Some(out') => Run(s[k..], out')
  }

  /** Decodes a whole block: the varint length, then the elements, whose
      output must have exactly that length. */
  function DecodeBlock(block: seq<byte>): Option<seq<byte>>
  {
    match ReadUvarint(block)
    case None => None
    case Some((n, k)) =>
      match Run(block[k..], [])
      case None => None
      case Some(out) => if |out| == n then Some(out) else None
  }

  /** The uncompressed length a block declares in its varint preamble. */
  function DecodedLength(block: seq<byte>): Option<nat>
  {
    match ReadUvarint(block)
    case None => None
    case Some((n, _)) => Some(n)
  }

  /** Running an element stream that begins with an element the parser
      recognises applies that element and continues after it. */
  lemma RunStep(bytes: seq<byte>, rest: seq<byte>, out: seq<byte>, e: Element, out': seq<byte>)
    requires ParseElement(bytes + rest) == Some((e, |bytes|))
    requires Apply(e, out) == Some(out')
    ensures Run(bytes + rest, out) == Run(rest, out')
  {
    assert (bytes + rest)[|bytes|..] == rest;
  }

  /** Two copies with the same offset in a row act as one longer copy:
      this is why a long copy may be split into pieces. */
  lemma {:induction false} CopyFromAdditive(out: seq<byte>, offset: nat, a: nat, b: nat)
    requires 1 <= offset <= |out|
    ensures CopyFrom(CopyFrom(out, offset, a), offset, b) == CopyFrom(out, offset, a + b)
    decreases a
  {
    if a > 0 {
      CopyFromAdditive(out + [out[|out| - offset]], offset, a - 1, b);
    }
  }

  /** The length bytes from position p repeat the bytes offset positions
      earlier, which is what a copy of that offset and length reproduces. */
  predicate Repeats(src: seq<byte>, p: nat, offset: nat, length: nat)
    requires offset <= p && p + length <= |src|
    decreases length
  {
    length == 0 || (src[p] == src[p - offset] && Repeats(src, p + 1, offset, length - 1))
  }

  /** If the bytes after position p repeat the bytes offset positions
      earlier, copying from the prefix before p reproduces them. */
  lemma {:induction false} CopyFromMatch(src: seq<byte>, p: nat, offset: nat, length: nat)
    requires 1 <= offset <= p && p + length <= |src|
    requires Repeats(src, p, offset, length)
    ensures CopyFrom(src[..p], offset, length) == src[..p + length]
    decreases length
  {
    if length > 0 {
      assert src[..p] + [src[..p][p - offset]] == src[..p + 1];
      CopyFromMatch(src, p + 1, offset, length - 1);
    }
  }
}
