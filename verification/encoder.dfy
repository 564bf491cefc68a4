/** The Snappy block encoder of snappy/encode.go: the C functions
    emitLiteral, emitCopy and encode from the cgo preamble, the Go wrapper
    Encode and MaxEncodedLen.

    Pointers into the destination buffer become offsets from the start of
    dst: the write cursor `d` and the buffer length `dstLen` (the offset of
    dEnd). What encode writes between dOrig and d is kept as the list of
    elements it emitted, whose bytes are ElementsBytes; emitLiteral and
    emitCopy return the advanced cursor, or None for NULL. Source pointers
    become indices into `src`; the sentinel `s-1` in the hash table becomes
    -1, and encode's -1 result becomes None. */
module Encoder {
  import opened Bytes
  import opened SnappyFormat

  const TableSize := 0x4000              // 1 << HASH_BITS, HASH_BITS = 14
  /** Shifting right by 32 - HASH_BITS = 18 bits is division by 2^18. */
  const HashDivisor := 0x4_0000
  const HashMultiplier := 0x1e35_a7bd
  const MaxOffset := 0x8000              // MAXOFFSET, 1 << 15
  /** Lengths are C ints inside encode, so sources must stay below 2^31. */
  const MaxSourceLength := 0x8000_0000

  /** The worst-case size of an encoded block of srcLen bytes. */
  function MaxEncodedLen(srcLen: nat): (r: nat)
    ensures 7 * srcLen + 187 <= 6 * r <= 7 * srcLen + 192
  {
    32 + srcLen + srcLen / 6
  }

  /** L32: the four bytes at i read as a little-endian 32-bit word. */
  function Load32(src: seq<byte>, i: nat): uint32
    requires i + 4 <= |src|
  {
    var b0: int, b1: int, b2: int, b3: int := src[i], src[i + 1], src[i + 2], src[i + 3];
    b0 + 0x100 * b1 + 0x1_0000 * b2 + 0x100_0000 * b3
  }

  /** Load32 is the little-endian reading of the four bytes. */
  lemma Load32IsLittleEndian(src: seq<byte>, i: nat)
    requires i + 4 <= |src|
    ensures Load32(src, i) == FromLittleEndian(src[i..i + 4])
  {
    var w := src[i..i + 4];
    assert w[3..][1..] == [];
    assert FromLittleEndian(w[3..]) == w[3];
    assert w[2..][1..] == w[3..];
    assert FromLittleEndian(w[2..]) == w[2] as int + 0x100 * (w[3] as int);
    assert w[1..][1..] == w[2..];
    assert FromLittleEndian(w[1..]) == w[1] as int + 0x100 * (w[2] as int) + 0x1_0000 * (w[3] as int);
  }

  /** The table slot of a 4-byte word: the top HASH_BITS bits of the
      32-bit product with 0x1e35a7bd. */
  function Hash(h: uint32): (r: nat)
    ensures r < TableSize
  {
    (h * HashMultiplier) % 0x1_0000_0000 / HashDivisor
  }

  /* ---------------------------------------------------------------- */
  /* emitLiteral                                                       */
  /* ---------------------------------------------------------------- */

  /** How many little-endian bytes emitLiteral spends on length-1 for a
      long run: one below 2^8, two below 2^16, three below 2^24, else four. */
  function LengthWidth(len: nat): (k: nat)
    ensures 1 <= k && len < Pow256(k)
    ensures len < 0x100 ==> k == 1
    ensures 0x100 <= len < 0x1_0000 ==> k == 2
    ensures 0x1_0000 <= len < 0x100_0000 ==> k == 3
    ensures 0x100_0000 <= len < 0x1_0000_0000 ==> k == 4
  {
    if len < 0x100 then 1 else 1 + LengthWidth(len / 0x100)
  }

  /** The number of bytes emitLiteral writes for a run of n bytes: one tag
      byte below 60, otherwise the tag and LengthWidth(n) length bytes,
      then the run itself. */
  function LiteralSize(n: nat): (r: nat)
    requires 1 <= n < 0x1_0000_0000
    ensures n < 60 ==> r == n + 1
    ensures 60 <= n ==> n + 2 <= r <= n + 5
    ensures r <= n + 5 && (n + 1 < r ==> 60 <= n)
  {
    if n < 60 then n + 1 else n + 1 + LengthWidth(n)
  }

  /** What emitLiteral writes for a run of bytes: a tag carrying length-1
      directly below 60, otherwise tag 59 + k followed by k little-endian
      bytes of length-1 (k as LengthWidth says); then the bytes verbatim. */
  function LiteralBytes(lit: seq<byte>): (r: seq<byte>)
    requires 1 <= |lit| < 0x1_0000_0000
    ensures |r| == LiteralSize(|lit|)
    ensures r[|r| - |lit|..] == lit
  {
    var n := |lit| - 1;
    if |lit| < 60 then [n * 4 + TagLiteral] + lit
    else
      var k := LengthWidth(|lit|);
      [(59 + k) * 4 + TagLiteral] + LittleEndian(n, k) + lit
  }

  /** emitLiteral for a run of len bytes at cursor d: it refuses (NULL)
      exactly when fewer than six bytes of slack beyond the run remain, and
      otherwise advances the cursor past the literal, never beyond dEnd. */
  function EmitLiteral(d: nat, dstLen: int, len: nat): (r: Option<nat>)
    requires 1 <= len < 0x1_0000_0000
    ensures r.Some? <==> d + 6 + len <= dstLen
    ensures r.Some? ==> r.value == d + LiteralSize(len) && r.value <= dstLen
  {
    if d > dstLen - 6 - len then None else Some(d + LiteralSize(len))
  }

  /* ---------------------------------------------------------------- */
  /* emitCopy                                                          */
  /* ---------------------------------------------------------------- */

  /** A two-byte copy (TAG_COPY1): offset bits 8..10 in the top three
      bits, length-4 in the next three, then the low offset byte. */
  function Copy1Bytes(offset: nat, length: nat): seq<byte>
    requires 4 <= length < 12 && offset < 0x800
  {
    [((offset / 256) % 8) * 32 + (length - 4) * 4 + TagCopy1, offset % 256]
  }

  /** A three-byte copy (TAG_COPY2): length-1 in the top six bits, then
      the offset as two little-endian bytes. */
  function Copy2Bytes(offset: nat, length: nat): seq<byte>
    requires 1 <= length <= 64 && offset < 0x1_0000
  {
    [(length - 1) * 4 + TagCopy2] + LittleEndian(offset, 2)
  }

  /** Whether the remaining copy length fits a two-byte copy. */
  predicate FitsCopy1(offset: nat, length: nat)
  {
    0 <= length - 4 < 8 && offset < 0x800
  }

  /** The number of bytes emitCopy writes for a copy: three per piece of
      at most 64 bytes, two for a final piece that fits a two-byte copy. */
  function CopySize(offset: nat, length: nat): nat
    decreases length
  {
    if length == 0 then 0
    else if FitsCopy1(offset, length) then 2
    else
      var l := if length > 64 then 64 else length;
      3 + CopySize(offset, length - l)
  }

  /** What emitCopy writes when there is room: three-byte pieces of at most
      64 bytes while the remainder does not fit a two-byte copy, ending with
      a two-byte copy if the remainder does. */
  function CopyBytes(offset: nat, length: nat): (r: seq<byte>)
    requires offset < 0x1_0000
    ensures |r| == CopySize(offset, length)
    decreases length
  {
    if length == 0 then []
    else if FitsCopy1(offset, length) then Copy1Bytes(offset, length)
    else
      var l := if length > 64 then 64 else length;
      Copy2Bytes(offset, l) + CopyBytes(offset, length - l)
  }

  /** emitCopy for a copy at cursor d: before each piece it refuses (NULL)
      unless three bytes remain, so it never writes past dEnd, and it
      always succeeds when the whole copy fits with a byte to spare. */
  function EmitCopy(d: nat, dstLen: int, offset: nat, length: nat): (r: Option<nat>)
    requires d <= dstLen
    ensures r.Some? ==> r.value == d + CopySize(offset, length) && r.value <= dstLen
    ensures d + CopySize(offset, length) < dstLen ==> r.Some?
    decreases length
  {
    if length == 0 then Some(d)
    else if d > dstLen - 3 then None
    else if FitsCopy1(offset, length) then Some(d + 2)
    else
      var l := if length > 64 then 64 else length;
      EmitCopy(d + 3, dstLen, offset, length - l)
  }

  /** A copy of at least four bytes costs at most one byte less than it
      covers; a piece of at most 64 bytes costs at most three. */
  lemma {:induction false} CopySizeBound(offset: nat, length: nat)
    requires length >= 1
    ensures length >= 4 ==> CopySize(offset, length) <= length - 1
    ensures length <= 64 ==> CopySize(offset, length) <= 3
    decreases length
  {
    if !FitsCopy1(offset, length) && length > 64 {
      CopySizeBound(offset, length - 64);
    }
  }

  /** The decoder reads a literal's bytes back as exactly that literal. */
  lemma ParseLiteralBytes(lit: seq<byte>, rest: seq<byte>)
    requires 1 <= |lit| < 0x1_0000_0000
    ensures ParseElement(LiteralBytes(lit) + rest) == Some((Literal(lit), |LiteralBytes(lit)|))
  {
    if |lit| < 60 {
      ParseShortLiteral(lit, rest);
    } else {
      ParseLongLiteral(lit, rest);
    }
  }

  lemma ParseShortLiteral(lit: seq<byte>, rest: seq<byte>)
    requires 1 <= |lit| < 60
    ensures ParseElement(LiteralBytes(lit) + rest) == Some((Literal(lit), |LiteralBytes(lit)|))
  {
    var s := LiteralBytes(lit) + rest;
    assert s[1..1 + |lit|] == lit;
  }

  lemma ParseLongLiteral(lit: seq<byte>, rest: seq<byte>)
    requires 60 <= |lit| < 0x1_0000_0000
    ensures ParseElement(LiteralBytes(lit) + rest) == Some((Literal(lit), |LiteralBytes(lit)|))
  {
    var n := |lit| - 1;
    var k := LengthWidth(|lit|);
    var le := LittleEndian(n, k);
    var tag: byte := (59 + k) * 4 + TagLiteral;
    var s := LiteralBytes(lit) + rest;
    assert LiteralBytes(lit) == [tag] + le + lit;
    SliceOfConcat3([tag], le, lit, rest);
    FromLittleEndianOfLittleEndian(n, k);
    ParseLongLiteralTag(s, k, |lit|);
  }

  /** The two pieces behind a one-element head of ((a + b) + c) + d. */
  lemma SliceOfConcat3(a: seq<byte>, b: seq<byte>, c: seq<byte>, d: seq<byte>)
    ensures |a + b + c + d| == |a| + |b| + |c| + |d|
    ensures (a + b + c + d)[..|a|] == a
    ensures (a + b + c + d)[|a|..|a| + |b|] == b
    ensures (a + b + c + d)[|a| + |b|..|a| + |b| + |c|] == c
  {
  }

  /** A long literal's tag 59 + k announces k length bytes. */
  lemma ParseLongLiteralTag(s: seq<byte>, k: nat, len: nat)
    requires 1 <= k <= 4 && 1 + k + len <= |s| && s[..1] == [((59 + k) * 4) as byte]
    requires FromLittleEndian(s[1..1 + k]) + 1 == len
    ensures ParseElement(s) == Some((Literal(s[1 + k..1 + k + len]), 1 + k + len))
  {
    assert s[0] == s[..1][0];
    var tag: int := s[0];
    assert tag % 4 == TagLiteral && tag / 4 == 59 + k;
  }

  /** The decoder reads a two-byte copy back as that copy. */
  lemma ParseCopy1Bytes(offset: nat, length: nat, rest: seq<byte>)
    requires 4 <= length < 12 && offset < 0x800
    ensures ParseElement(Copy1Bytes(offset, length) + rest) == Some((Copy(offset, length), 2))
  {
    var b := Copy1Bytes(offset, length) + rest;
    var tag: int := b[0];
    var hi := (offset / 256) % 8;
    assert hi == offset / 256;
    assert tag == hi * 32 + (length - 4) * 4 + 1;
    assert tag % 4 == TagCopy1;
    assert tag / 4 == hi * 8 + (length - 4);
    assert (tag / 4) % 8 == length - 4;
    assert tag / 32 == hi;
    assert hi * 256 + offset % 256 == offset;
  }

  /** The decoder reads a three-byte copy back as that copy. */
  lemma ParseCopy2Bytes(offset: nat, length: nat, rest: seq<byte>)
    requires 1 <= length <= 64 && offset < 0x1_0000
    ensures ParseElement(Copy2Bytes(offset, length) + rest) == Some((Copy(offset, length), 3))
  {
    var b := Copy2Bytes(offset, length) + rest;
    assert Pow256(2) == 0x1_0000;
    FromLittleEndianOfLittleEndian(offset, 2);
    assert b[1..3] == LittleEndian(offset, 2);
  }

  /** Decoding what emitCopy writes performs exactly the requested copy:
      the pieces' lengths add up to the copy's length. */
  lemma {:induction false} RunCopyBytes(offset: nat, length: nat, rest: seq<byte>, out: seq<byte>)
    requires 1 <= offset <= |out| && offset < 0x1_0000
    ensures Run(CopyBytes(offset, length) + rest, out) == Run(rest, CopyFrom(out, offset, length))
    decreases length
  {
    if length == 0 {
      assert CopyBytes(offset, 0) + rest == rest;
    } else if FitsCopy1(offset, length) {
      RunCopy1Bytes(offset, length, rest, out);
    } else {
      var l := if length > 64 then 64 else length;
      RunCopy2Piece(offset, length, l, rest, out);
      RunCopyBytes(offset, length - l, rest, CopyFrom(out, offset, l));
      CopyFromAdditive(out, offset, l, length - l);
    }
  }

  /** A copy that fits a two-byte copy decodes in one step. */
  lemma RunCopy1Bytes(offset: nat, length: nat, rest: seq<byte>, out: seq<byte>)
    requires 1 <= offset <= |out| && offset < 0x1_0000 && length > 0 && FitsCopy1(offset, length)
    ensures Run(CopyBytes(offset, length) + rest, out) == Run(rest, CopyFrom(out, offset, length))
  {
    ParseCopy1Bytes(offset, length, rest);
    RunStep(Copy1Bytes(offset, length), rest, out, Copy(offset, length), CopyFrom(out, offset, length));
  }

  /** A copy that does not fit a two-byte copy decodes its first
      three-byte piece of l bytes, then the rest of the copy. */
  lemma RunCopy2Piece(offset: nat, length: nat, l: nat, rest: seq<byte>, out: seq<byte>)
    requires 1 <= offset <= |out| && offset < 0x1_0000 && length > 0 && !FitsCopy1(offset, length)
    requires l == if length > 64 then 64 else length
    ensures Run(CopyBytes(offset, length) + rest, out)
         == Run(CopyBytes(offset, length - l) + rest, CopyFrom(out, offset, l))
  {
    var piece := Copy2Bytes(offset, l);
    var tail := CopyBytes(offset, length - l) + rest;
    assert CopyBytes(offset, length) + rest == piece + tail;
    ParseCopy2Bytes(offset, l, tail);
    RunStep(piece, tail, out, Copy(offset, l), CopyFrom(out, offset, l));
  }

  /* ---------------------------------------------------------------- */
  /* Elements the encoder produces                                     */
  /* ---------------------------------------------------------------- */

  /** The elements encode can emit: a literal run of 1 <= n < 2^32 bytes,
      or a copy of at least four bytes from at most MAXOFFSET back. */
  predicate Emittable(e: Element)
  {
    match e
    case Literal(data) => 1 <= |data| < 0x1_0000_0000
    case Copy(offset, length) => 1 <= offset <= MaxOffset && length >= 4
  }

  /** An element encode can emit. */
  type Production = e: Element | Emittable(e) witness Literal([0])

  /** The number of bytes encode writes for an element. */
  function ElementSize(e: Production): nat
  {
    match e
    case Literal(data) => LiteralSize(|data|)
    case Copy(offset, length) => CopySize(offset, length)
  }

  /** The number of bytes encode writes for a sequence of elements. */
  function ElementsSize(es: seq<Production>): nat
    decreases |es|
  {
    if |es| == 0 then 0 else ElementSize(es[0]) + ElementsSize(es[1..])
  }

  /** The bytes encode writes for an element. */
  function ElementBytes(e: Production): (r: seq<byte>)
    ensures |r| == ElementSize(e)
  {
    match e
    case Literal(data) => LiteralBytes(data)
    case Copy(offset, length) => CopyBytes(offset, length)
  }

  /** The bytes of a sequence of productions, in order. */
  function ElementsBytes(es: seq<Production>): (r: seq<byte>)
    ensures |r| == ElementsSize(es)
    decreases |es|
  {
    if |es| == 0 then [] else ElementBytes(es[0]) + ElementsBytes(es[1..])
  }

  /** The output of a sequence of elements applied in order. */
  function Exec(es: seq<Element>, out: seq<byte>): Option<seq<byte>>
    decreases |es|
  {
    if |es| == 0 then Some(out)
    else match Apply(es[0], out)
      case None => None
      case Some(out') => Exec(es[1..], out')
  }

  lemma {:induction false} ElementsBytesAppend(es: seq<Production>, e: Production)
    ensures ElementsBytes(es + [e]) == ElementsBytes(es) + ElementBytes(e)
    decreases |es|
  {
    if |es| > 0 {
      assert (es + [e])[1..] == es[1..] + [e];
      ElementsBytesAppend(es[1..], e);
    }
  }

  lemma {:induction false} ElementsSizeAppend(es: seq<Production>, e: Production)
    ensures ElementsSize(es + [e]) == ElementsSize(es) + ElementSize(e)
    decreases |es|
  {
    if |es| > 0 {
      assert (es + [e])[1..] == es[1..] + [e];
      ElementsSizeAppend(es[1..], e);
    }
  }

  lemma {:induction false} ExecAppend(es: seq<Element>, e: Element, out: seq<byte>)
    ensures Exec(es + [e], out) == (match Exec(es, out) case None => None case Some(o) => Apply(e, o))
    decreases |es|
  {
    if |es| == 0 {
      assert es + [e] == [e];
    } else {
      assert (es + [e])[1..] == es[1..] + [e];
      match Apply(es[0], out) {
        case None =>
        case Some(o) => ExecAppend(es[1..], e, o);
      }
    }
  }

  /** The reference decoder reads the bytes of emittable elements back as
      those elements: running them reproduces their output. */
  lemma {:induction false} RunElementsBytes(es: seq<Production>, out: seq<byte>)
    requires Exec(es, out).Some?
    ensures Run(ElementsBytes(es), out) == Exec(es, out)
    decreases |es|
  {
    if |es| == 0 {
    } else {
      var e := es[0];
      var rest := ElementsBytes(es[1..]);
      var out' := Apply(e, out).value;
      match e {
        case Literal(data) =>
          ParseLiteralBytes(data, rest);
          RunStep(LiteralBytes(data), rest, out, e, out');
        case Copy(offset, length) =>
          RunCopyBytes(offset, length, rest, out);
      }
      RunElementsBytes(es[1..], out');
    }
  }

  /* ---------------------------------------------------------------- */
  /* encode                                                            */
  /* ---------------------------------------------------------------- */

  /** A slot value is the sentinel -1 or a position before s. */
  predicate Earlier(v: int, s: nat)
  {
    -1 <= v < s
  }

  /** Every slot holds the sentinel or a position already passed. */
  predicate TableOk(tbl: seq<int>, s: nat)
  {
    |tbl| == TableSize && forall i {:trigger Earlier(tbl[i], s)} :: 0 <= i < |tbl| ==> Earlier(tbl[i], s)
  }

  /** A slot read from a well-formed table lies before s. */
  lemma TableLookup(tbl: seq<int>, s: nat, p: nat)
    requires TableOk(tbl, s) && p < TableSize
    ensures -1 <= tbl[p] < s
  {
    assert Earlier(tbl[p], s);
  }

  /** Recording position s keeps the table well formed for any later position. */
  lemma TableStore(tbl: seq<int>, s: nat, p: nat, s': nat)
    requires TableOk(tbl, s) && p < TableSize && s < s'
    ensures TableOk(tbl[p := s], s')
  {
    var tbl' := tbl[p := s];
    forall i | 0 <= i < |tbl'|
      ensures Earlier(tbl'[i], s')
    {
      assert Earlier(tbl[i], s);
    }
  }

  /** The table as encode fills it on entry: every slot holds the
      sentinel, which lies before the source. */
  function InitialTable(): (tbl: seq<int>)
    ensures |tbl| == TableSize && forall i :: 0 <= i < |tbl| ==> tbl[i] == -1
  {
    seq(TableSize, _ => -1)
  }

  lemma InitialTableOk()
    ensures TableOk(InitialTable(), 0)
  {
    var tbl := InitialTable();
    forall i | 0 <= i < |tbl|
      ensures Earlier(tbl[i], 0)
    {
    }
  }

  /** The inner loop of encode that extends a match: the first position at
      or after s where the bytes stop repeating those (s - t) earlier. */
  function MatchEnd(src: seq<byte>, s: nat, t: nat): (e: nat)
    requires t < s <= |src|
    ensures s <= e <= |src|
    ensures e == |src| || src[e] != src[e - (s - t)]
    decreases |src| - s
  {
    if s < |src| && src[s] == src[t] then MatchEnd(src, s + 1, t + 1) else s
  }

  /** Everything MatchEnd passes over repeats the bytes (s - t) positions
      earlier. With MatchEnd's own stop condition this says e is the end
      of the longest such run. */
  lemma {:induction false} MatchEndRepeats(src: seq<byte>, s: nat, t: nat)
    requires t < s <= |src|
    ensures Repeats(src, s, s - t, MatchEnd(src, s, t) - s)
    decreases |src| - s
  {
    if s < |src| && src[s] == src[t] {
      MatchEndRepeats(src, s + 1, t + 1);
    }
  }

  /** The cursor after the literal encode emits before a match: the
      pending bytes src[lit..s], if any, go out first. */
  function PendingLiteral(dstLen: int, s: nat, lit: nat, d: nat): (r: Option<nat>)
    requires lit <= s < MaxSourceLength && d <= dstLen
    ensures r.Some? ==> d <= r.value <= dstLen
  {
    if lit != s then EmitLiteral(d, dstLen, s - lit) else Some(d)
  }

  /** The elements emitted so far, followed by the pending literal
      src[lit..s] if it is not empty. */
  function WithPending(src: seq<byte>, s: nat, lit: nat, es: seq<Production>): (r: seq<Production>)
    requires lit <= s <= |src| < MaxSourceLength
    ensures es <= r && |r| <= |es| + 1
  {
    if lit != s then es + [Literal(src[lit..s])] else es
  }

  /** The state after one pass of encode's while loop: the table, the scan
      position, the start of the pending literal, the write cursor and the
      elements written so far; or OutOfRoom when emitLiteral or emitCopy
      returned NULL. */
  datatype Iterated = Next(tbl: seq<int>, s: nat, lit: nat, d: nat, es: seq<Production>) | OutOfRoom

  /** One pass of encode's while loop at s (entered while s + 3 < |src|):
      hash the word at s, swap s into its table slot, and either move on
      by one byte or emit the pending literal and the copy for the match
      found, resuming after it. The scan always advances, and the table
      keeps holding earlier positions only. */
  function Iteration(src: seq<byte>, dstLen: int, tbl: seq<int>, s: nat, lit: nat, d: nat, es: seq<Production>)
    : (r: Iterated)
    requires lit <= s && s + 3 < |src| < MaxSourceLength
    requires TableOk(tbl, s) && d <= dstLen
    ensures r.Next? ==> s < r.s <= |src| && r.lit <= r.s && TableOk(r.tbl, r.s) && r.d <= dstLen
  {
    var h := Load32(src, s);
    var p := Hash(h);
    TableLookup(tbl, s, p);
    var t := tbl[p];
    if t < 0 || s - t > MaxOffset || h != Load32(src, t) then
      TableStore(tbl, s, p, s + 1);
      Next(tbl[p := s], s + 1, lit, d, es)
    else
      var e := MatchEnd(src, s + 4, t + 4);
      TableStore(tbl, s, p, e);
      EmitMatch(src, dstLen, tbl[p := s], s, lit, d, es, t, e)
  }

  /** The second half of a pass that found src[s..e] repeating the bytes
      at t: emit the pending literal, then the copy, and resume at e with
      the updated table tbl'. */
  function EmitMatch(src: seq<byte>, dstLen: int, tbl': seq<int>, s: nat, lit: nat, d: nat, es: seq<Production>,
                     t: nat, e: nat)
    : (r: Iterated)
    requires lit <= s < e <= |src| < MaxSourceLength && s + 4 <= e
    requires t < s && s - t <= MaxOffset && d <= dstLen
    ensures r.Next? ==> r.tbl == tbl' && r.s == e && r.lit == e && r.d <= dstLen
  {
    match PendingLiteral(dstLen, s, lit, d)
    case None => OutOfRoom
    case Some(d1) =>
      match EmitCopy(d1, dstLen, s - t, e - s)
      case None => OutOfRoom
      case Some(d2) => Next(tbl', e, e, d2, WithPending(src, s, lit, es) + [Copy(s - t, e - s)])
  }

  /** The main loop of encode, from source position s with pending literal
      bytes starting at lit, the cursor at d and elements es written; after
      the loop the remaining bytes go out as one last literal. The result
      is every element written, or None when encode returns -1. */
  function EncodeLoop(src: seq<byte>, dstLen: int, tbl: seq<int>, s: nat, lit: nat, d: nat, es: seq<Production>)
    : (r: Option<seq<Production>>)
    requires lit <= s <= |src| < MaxSourceLength
    requires TableOk(tbl, s) && d <= dstLen
    ensures r.Some? ==> es <= r.value
    decreases |src| - s
  {
    if s + 3 >= |src| then
      if lit == |src| then Some(es)
      else
        match EmitLiteral(d, dstLen, |src| - lit)
        case None => None
        case Some(_) => Some(es + [Literal(src[lit..])])
    else
      match Iteration(src, dstLen, tbl, s, lit, d, es)
      case OutOfRoom => None
      case Next(tbl', s', lit', d', es') =>
        IterationExtends(src, dstLen, tbl, s, lit, d, es);
        EncodeLoop(src, dstLen, tbl', s', lit', d', es')
  }

  /** A pass of the loop only adds elements after those already written. */
  lemma IterationExtends(src: seq<byte>, dstLen: int, tbl: seq<int>, s: nat, lit: nat, d: nat, es: seq<Production>)
    requires lit <= s && s + 3 < |src| < MaxSourceLength
    requires TableOk(tbl, s) && d <= dstLen
    ensures var r := Iteration(src, dstLen, tbl, s, lit, d, es); r.Next? ==> es <= r.es
  {
  }

  /** The result of the Go wrapper Encode: the block, or the panic
      "destination buffer too small" when encode returns -1. */
  datatype Encoded = Block(bytes: seq<byte>) | BufferTooSmallPanic

  /** Encode: grow dst to MaxEncodedLen if it is shorter, write the varint
      length, and unless src is empty run encode behind it. */
  function Encode(dstLen: nat, src: seq<byte>): (r: Encoded)
    requires |src| < MaxSourceLength
    ensures r.Block? ==> PutUvarint(|src|) <= r.bytes
    ensures r.BufferTooSmallPanic? ==> |src| > 0
  {
    var capacity := if dstLen < MaxEncodedLen(|src|) then MaxEncodedLen(|src|) else dstLen;
    var preamble := PutUvarint(|src|);
    if |src| == 0 then Block(preamble)
    else
      PutUvarintLengthBound(|src|, 5);
      InitialTableOk();
      match EncodeLoop(src, capacity, InitialTable(), 0, 0, |preamble|, [])
      case None => BufferTooSmallPanic
      case Some(es) => Block(preamble + ElementsBytes(es))
  }

  lemma PrefixConcat(src: seq<byte>, a: nat, b: nat)
    requires a <= b <= |src|
    ensures src[..a] + src[a..b] == src[..b]
  {
  }

  /** Emitting the pending literal src[lit..s] extends the reproduced
      prefix from lit to s. */
  lemma LiteralStep(src: seq<byte>, lit: nat, s: nat, es: seq<Production>)
    requires lit < s <= |src| < MaxSourceLength
    requires Exec(es, []) == Some(src[..lit])
    ensures Exec(es + [Literal(src[lit..s])], []) == Some(src[..s])
  {
    PrefixConcat(src, lit, s);
    ExecAppend(es, Literal(src[lit..s]), []);
  }

  /** Applying the copy for a match at s with offset s - t that repeats
      e - s bytes extends the reproduced prefix from s to e. */
  lemma CopyExec(src: seq<byte>, s: nat, t: nat, e: nat, es: seq<Element>)
    requires t < s <= e <= |src|
    requires Repeats(src, s, s - t, e - s)
    requires Exec(es, []) == Some(src[..s])
    ensures Exec(es + [Copy(s - t, e - s)], []) == Some(src[..e])
  {
    CopyFromMatch(src, s, s - t, e - s);
    ExecAppend(es, Copy(s - t, e - s), []);
  }

  /** Equal 32-bit words at s and t mean equal bytes. */
  lemma WordsAgree(src: seq<byte>, s: nat, t: nat)
    requires s + 4 <= |src| && t + 4 <= |src| && Load32(src, s) == Load32(src, t)
    ensures src[s] == src[t] && src[s + 1] == src[t + 1] && src[s + 2] == src[t + 2] && src[s + 3] == src[t + 3]
  {
    Load32IsLittleEndian(src, s);
    Load32IsLittleEndian(src, t);
    FromLittleEndianInjective(src[s..s + 4], src[t..t + 4]);
    assert src[s..s + 4][1] == src[t..t + 4][1];
    assert src[s..s + 4][2] == src[t..t + 4][2];
    assert src[s..s + 4][3] == src[t..t + 4][3];
  }

  /** A match found by encode: the hash check compares whole 32-bit words,
      so the first four bytes agree, and MatchEnd extends the agreement. */
  lemma MatchFound(src: seq<byte>, s: nat, t: nat, e: nat)
    requires t < s && s + 4 <= |src| && Load32(src, s) == Load32(src, t)
    requires e == MatchEnd(src, s + 4, t + 4)
    ensures s + 4 <= e <= |src| && Repeats(src, s, s - t, e - s)
  {
    WordsAgree(src, s, t);
    MatchEndRepeats(src, s + 4, t + 4);
    assert Repeats(src, s + 3, s - t, e - (s + 3));
    assert Repeats(src, s + 2, s - t, e - (s + 2));
    assert Repeats(src, s + 1, s - t, e - (s + 1));
  }

  /** MaxEncodedLen leaves 7/6 of the source plus 31 bytes of room. */
  lemma MaxEncodedLenScaled(n: nat)
    ensures 6 * MaxEncodedLen(n) >= 7 * n + 187
  {
  }

  /** What encode has established when it stands at a fresh literal start
      lit: the cursor lies ElementsSize(es) past the base-byte preamble,
      and the elements es are emittable and reproduce src up to lit, in at
      most 7/6 of lit bytes. */
  predicate Invariant(src: seq<byte>, dstLen: int, lit: nat, d: nat, base: nat, es: seq<Production>)
  {
    lit <= |src| < MaxSourceLength && base <= 5 && MaxEncodedLen(|src|) <= dstLen
    && d == base + ElementsSize(es) && d <= dstLen
    && Exec(es, []) == Some(src[..lit])
    && 6 * (d - base) <= 7 * lit
  }

  /** A pass that finds a match at s against t: the pending literal and
      the copy are emitted and the scan resumes at the end of the match. */
  lemma IterationMatch(src: seq<byte>, dstLen: int, tbl: seq<int>, s: nat, lit: nat, d: nat, es: seq<Production>,
                       t: int, e: nat, d1: nat, d2: nat)
    requires lit <= s && s + 3 < |src| < MaxSourceLength
    requires TableOk(tbl, s) && d <= dstLen
    requires t == tbl[Hash(Load32(src, s))] && 0 <= t < s && s - t <= MaxOffset && Load32(src, s) == Load32(src, t)
    requires e == MatchEnd(src, s + 4, t + 4)
    requires PendingLiteral(dstLen, s, lit, d) == Some(d1)
    requires EmitCopy(d1, dstLen, s - t, e - s) == Some(d2)
    ensures Iteration(src, dstLen, tbl, s, lit, d, es)
         == Next(tbl[Hash(Load32(src, s)) := s], e, e, d2, WithPending(src, s, lit, es) + [Copy(s - t, e - s)])
  {
    IterationFindsMatch(src, dstLen, tbl, s, lit, d, es, t, e);
  }

  /** A pass that finds no usable match: the position is recorded in the
      table and the scan moves on by one byte, output untouched. */
  lemma IterationMiss(src: seq<byte>, dstLen: int, tbl: seq<int>, s: nat, lit: nat, d: nat, es: seq<Production>, t: int)
    requires lit <= s && s + 3 < |src| < MaxSourceLength
    requires TableOk(tbl, s) && d <= dstLen
    requires t == tbl[Hash(Load32(src, s))] && -1 <= t < s
    requires t < 0 || s - t > MaxOffset || Load32(src, s) != Load32(src, t)
    ensures Iteration(src, dstLen, tbl, s, lit, d, es) == Next(tbl[Hash(Load32(src, s)) := s], s + 1, lit, d, es)
  {
  }

  /** The loop goes on from wherever one pass leaves it. */
  lemma UnfoldIteration(src: seq<byte>, dstLen: int, tbl: seq<int>, s: nat, lit: nat, d: nat, es: seq<Production>,
                        tbl': seq<int>, s': nat, lit': nat, d': nat, es': seq<Production>, r: Option<seq<Production>>)
    requires lit <= s && s + 3 < |src| < MaxSourceLength
    requires TableOk(tbl, s) && d <= dstLen
    requires Iteration(src, dstLen, tbl, s, lit, d, es) == Next(tbl', s', lit', d', es')
    requires EncodeLoop(src, dstLen, tbl', s', lit', d', es') == r
    ensures EncodeLoop(src, dstLen, tbl, s, lit, d, es) == r
  {
  }

  /** The end of encode: once fewer than four bytes remain unscanned, the
      pending literal (if any) is emitted, and it always finds room. */
  lemma FinishStep(src: seq<byte>, dstLen: int, tbl: seq<int>, s: nat, lit: nat, d: nat,
                   base: nat, es: seq<Production>)
    returns (es': seq<Production>)
    requires lit <= s <= |src| && s + 3 >= |src| && TableOk(tbl, s)
    requires Invariant(src, dstLen, lit, d, base, es)
    ensures EncodeLoop(src, dstLen, tbl, s, lit, d, es) == Some(es')
    ensures Exec(es', []) == Some(src)
    ensures base + ElementsSize(es') <= MaxEncodedLen(|src|)
  {
    var n := |src|;
    MaxEncodedLenScaled(n);
    if lit != n {
      LiteralStep(src, lit, n, es);
      var lt: Production := Literal(src[lit..n]);
      assert src[lit..n] == src[lit..] && src[..n] == src;
      es' := es + [lt];
      ElementsSizeAppend(es, lt);
    } else {
      es' := es;
      assert src[..lit] == src;
    }
  }

  /** The pending literal before a match at s always finds room, and it
      keeps the output within 7/6 of s plus five bytes. */
  lemma PendingStep(src: seq<byte>, dstLen: int, s: nat, lit: nat, d: nat, base: nat, es: seq<Production>)
    returns (d1: nat)
    requires lit <= s <= |src| && Invariant(src, dstLen, lit, d, base, es)
    ensures PendingLiteral(dstLen, s, lit, d) == Some(d1)
    ensures d1 == base + ElementsSize(WithPending(src, s, lit, es)) && d1 <= dstLen
    ensures Exec(WithPending(src, s, lit, es), []) == Some(src[..s])
    ensures 6 * (d1 - base) <= 7 * s + 5
  {
    MaxEncodedLenScaled(|src|);
    if lit != s {
      LiteralStep(src, lit, s, es);
      var lt: Production := Literal(src[lit..s]);
      ElementsSizeAppend(es, lt);
      d1 := d + LiteralSize(s - lit);
    } else {
      d1 := d;
    }
  }

  /** The copy for a match at s against t always finds room after the
      pending literal, and restores the invariant at the match's end. */
  lemma CopyPart(src: seq<byte>, dstLen: int, s: nat, t: nat, e: nat, d1: nat, base: nat, es1: seq<Production>)
    returns (d2: nat)
    requires s + 4 <= e <= |src| < MaxSourceLength && t < s && s - t <= MaxOffset
    requires Repeats(src, s, s - t, e - s)
    requires base <= 5 && MaxEncodedLen(|src|) <= dstLen
    requires d1 == base + ElementsSize(es1) && d1 <= dstLen && Exec(es1, []) == Some(src[..s])
    requires 6 * (d1 - base) <= 7 * s + 5
    ensures EmitCopy(d1, dstLen, s - t, e - s) == Some(d2)
    ensures Invariant(src, dstLen, e, d2, base, es1 + [Copy(s - t, e - s)])
  {
    CopyExec(src, s, t, e, es1);
    CopySizeBound(s - t, e - s);
    CopyBudget(|src|, dstLen, s, e, d1, base, CopySize(s - t, e - s));
    var cp: Production := Copy(s - t, e - s);
    ElementsSizeAppend(es1, cp);
    d2 := d1 + CopySize(s - t, e - s);
  }

  /** The room a copy needs: a copy of e - s >= 4 bytes costs at most
      e - s - 1, so the cursor stays strictly inside the destination and
      within 7/6 of the bytes covered. */
  lemma CopyBudget(n: nat, dstLen: int, s: nat, e: nat, d1: nat, base: nat, size: nat)
    requires s + 4 <= e <= n && base <= 5 && base <= d1 && MaxEncodedLen(n) <= dstLen
    requires 6 * (d1 - base) <= 7 * s + 5 && size <= e - s - 1
    ensures d1 + size < dstLen && 6 * (d1 + size - base) <= 7 * e
  {
    MaxEncodedLenScaled(n);
  }

  /** A pass that finds a match at s against t: the pending literal and
      the copy both find room, and the invariant holds again at the end e
      of the match with the literal and the copy appended. */
  lemma MatchStep(src: seq<byte>, dstLen: int, tbl: seq<int>, s: nat, lit: nat, d: nat, base: nat,
                  es: seq<Production>, t: int, e: nat)
    returns (d2: nat)
    requires lit <= s && s + 3 < |src| && TableOk(tbl, s)
    requires Invariant(src, dstLen, lit, d, base, es)
    requires t == tbl[Hash(Load32(src, s))] && 0 <= t < s && s - t <= MaxOffset && Load32(src, s) == Load32(src, t)
    requires e == MatchEnd(src, s + 4, t + 4)
    ensures s < e
    ensures Iteration(src, dstLen, tbl, s, lit, d, es)
         == Next(tbl[Hash(Load32(src, s)) := s], e, e, d2, WithPending(src, s, lit, es) + [Copy(s - t, e - s)])
    ensures Invariant(src, dstLen, e, d2, base, WithPending(src, s, lit, es) + [Copy(s - t, e - s)])
  {
    var d1 := PendingStep(src, dstLen, s, lit, d, base, es);
    MatchFound(src, s, t, e);
    d2 := CopyPart(src, dstLen, s, t, e, d1, base, WithPending(src, s, lit, es));
    IterationMatch(src, dstLen, tbl, s, lit, d, es, t, e, d1, d2);
  }

  /** The loop invariant of encode, as an induction over its iterations:
      from any state satisfying Invariant with a table of earlier
      positions, every emitLiteral and emitCopy finds room, the loop ends
      with Some, and the elements written reproduce src within
      MaxEncodedLen bytes. */
  lemma {:induction false} EncodeLoopCorrect(src: seq<byte>, dstLen: int, tbl: seq<int>, s: nat, lit: nat,
                                              d: nat, base: nat, es: seq<Production>)
    returns (es': seq<Production>)
    requires lit <= s <= |src| && TableOk(tbl, s)
    requires Invariant(src, dstLen, lit, d, base, es)
    ensures EncodeLoop(src, dstLen, tbl, s, lit, d, es) == Some(es')
    ensures Exec(es', []) == Some(src)
    ensures base + ElementsSize(es') <= MaxEncodedLen(|src|)
    decreases |src| - s, 1
  {
    if s + 3 >= |src| {
      es' := FinishStep(src, dstLen, tbl, s, lit, d, base, es);
    } else {
      var p := Hash(Load32(src, s));
      TableLookup(tbl, s, p);
      var t := tbl[p];
      if t < 0 || s - t > MaxOffset || Load32(src, s) != Load32(src, t) {
        es' := MissCase(src, dstLen, tbl, s, lit, d, base, es, t);
      } else {
        es' := MatchCase(src, dstLen, tbl, s, lit, d, base, es, t);
      }
    }
  }

  /** The induction step of EncodeLoopCorrect for an iteration without a
      match: position s is stored in the table and the scan resumes at
      s + 1 with the same pending literal and output. */
  lemma {:induction false} MissCase(src: seq<byte>, dstLen: int, tbl: seq<int>, s: nat, lit: nat,
                                     d: nat, base: nat, es: seq<Production>, t: int)
    returns (es': seq<Production>)
    requires lit <= s && s + 3 < |src| && TableOk(tbl, s)
    requires Invariant(src, dstLen, lit, d, base, es)
    requires t == tbl[Hash(Load32(src, s))] && -1 <= t < s
    requires t < 0 || s - t > MaxOffset || Load32(src, s) != Load32(src, t)
    ensures EncodeLoop(src, dstLen, tbl, s, lit, d, es) == Some(es')
    ensures Exec(es', []) == Some(src)
    ensures base + ElementsSize(es') <= MaxEncodedLen(|src|)
    decreases |src| - s, 0
  {
    var p := Hash(Load32(src, s));
    TableStore(tbl, s, p, s + 1);
    es' := EncodeLoopCorrect(src, dstLen, tbl[p := s], s + 1, lit, d, base, es);
    IterationMiss(src, dstLen, tbl, s, lit, d, es, t);
    UnfoldIteration(src, dstLen, tbl, s, lit, d, es, tbl[p := s], s + 1, lit, d, es, Some(es'));
  }

  /** The induction step of EncodeLoopCorrect for an iteration with a
      match at s against t: the scan resumes at the end of the match with
      nothing pending. */
  lemma {:induction false} MatchCase(src: seq<byte>, dstLen: int, tbl: seq<int>, s: nat, lit: nat,
                                      d: nat, base: nat, es: seq<Production>, t: int)
    returns (es': seq<Production>)
    requires lit <= s && s + 3 < |src| && TableOk(tbl, s)
    requires Invariant(src, dstLen, lit, d, base, es)
    requires t == tbl[Hash(Load32(src, s))] && 0 <= t < s && s - t <= MaxOffset && Load32(src, s) == Load32(src, t)
    ensures EncodeLoop(src, dstLen, tbl, s, lit, d, es) == Some(es')
    ensures Exec(es', []) == Some(src)
    ensures base + ElementsSize(es') <= MaxEncodedLen(|src|)
    decreases |src| - s, 0
  {
    var p := Hash(Load32(src, s));
    var e := MatchEnd(src, s + 4, t + 4);
    var cp: Production := Copy(s - t, e - s);
    var es2 := WithPending(src, s, lit, es) + [cp];
    var d2 := MatchStep(src, dstLen, tbl, s, lit, d, base, es, t, e);
    TableStore(tbl, s, p, e);
    es' := EncodeLoopCorrect(src, dstLen, tbl[p := s], e, e, d2, base, es2);
    UnfoldIteration(src, dstLen, tbl, s, lit, d, es, tbl[p := s], e, e, d2, es2, Some(es'));
  }

  /** Encode never reaches its panic: encode always finds room in a buffer
      of MaxEncodedLen bytes, and the block it writes is the varint length
      followed by the bytes of emittable elements reproducing src, within
      MaxEncodedLen bytes in all. */
  lemma EncodeCorrect(dstLen: nat, src: seq<byte>) returns (es: seq<Production>)
    requires |src| < MaxSourceLength
    ensures Encode(dstLen, src).Block?
    ensures Encode(dstLen, src).bytes == PutUvarint(|src|) + ElementsBytes(es)
    ensures Exec(es, []) == Some(src)
    ensures |Encode(dstLen, src).bytes| <= MaxEncodedLen(|src|)
  {
    var pre := PutUvarint(|src|);
    if |src| == 0 {
      es := [];
      assert pre + ElementsBytes(es) == pre;
      assert src == src[..0];
    } else {
      var capacity := if dstLen < MaxEncodedLen(|src|) then MaxEncodedLen(|src|) else dstLen;
      assert Pow128(5) == 0x8_0000_0000;
      PutUvarintLengthBound(|src|, 5);
      assert src[..0] == [];
      InitialTableOk();
      es := EncodeLoopCorrect(src, capacity, InitialTable(), 0, 0, |pre|, |pre|, []);
    }
  }

  /** The block Encode writes decodes to src under the reference decoder,
      and its preamble declares src's length. */
  lemma EncodeRoundTrip(dstLen: nat, src: seq<byte>)
    requires |src| < MaxSourceLength
    ensures Encode(dstLen, src).Block?
    ensures DecodeBlock(Encode(dstLen, src).bytes) == Some(src)
    ensures DecodedLength(Encode(dstLen, src).bytes) == Some(|src|)
  {
    var es := EncodeCorrect(dstLen, src);
    var block := Encode(dstLen, src).bytes;
    var body := ElementsBytes(es);
    ReadPutUvarint(|src|, body);
    assert block[|PutUvarint(|src|)|..] == body;
    RunElementsBytes(es, []);
  }

  /** The empty source encodes to its one-byte preamble. */
  lemma EncodeEmpty(dstLen: nat)
    ensures Encode(dstLen, []) == Block([0])
  {
  }

  /** "aaaa" is too short for any match: a preamble of 4, then one
      literal of four bytes (tag 0x0c). */
  lemma EncodeFourBytes()
    ensures Encode(0, [0x61, 0x61, 0x61, 0x61]) == Block([0x04, 0x0c, 0x61, 0x61, 0x61, 0x61])
  {
    var src: seq<byte> := [0x61, 0x61, 0x61, 0x61];
    var tbl := InitialTable();
    var p := Hash(Load32(src, 0));
    assert tbl[p] == -1;
    var tbl' := tbl[p := 0];
    InitialTableOk();
    TableStore(tbl, 0, p, 1);
    var lt: Production := Literal(src[0..]);
    assert EmitLiteral(1, 36, 4) == Some(6);
    assert [] + [lt] == [lt];
    assert EncodeLoop(src, 36, tbl', 1, 0, 1, []) == Some([lt]);
    IterationMiss(src, 36, tbl, 0, 0, 1, [], -1);
    UnfoldIteration(src, 36, tbl, 0, 0, 1, [], tbl', 1, 0, 1, [], Some([lt]));
    assert ElementsBytes([lt]) == LiteralBytes(src) == [0x0c, 0x61, 0x61, 0x61, 0x61];
  }

  /** "aaaaaaaa": the word at 1 matches the word at 0, so one literal byte
      is followed by a two-byte copy of seven bytes at offset 1. */
  lemma EncodeEightBytes()
    ensures Encode(0, [0x61, 0x61, 0x61, 0x61, 0x61, 0x61, 0x61, 0x61]) == Block([0x08, 0x00, 0x61, 0x0d, 0x01])
  {
    var src: seq<byte> := [0x61, 0x61, 0x61, 0x61, 0x61, 0x61, 0x61, 0x61];
    var tbl := InitialTable();
    var p := Hash(Load32(src, 0));
    assert Load32(src, 1) == Load32(src, 0) by {
      assert src[1..5] == src[0..4];
    }
    assert tbl[p] == -1;
    var tbl1 := tbl[p := 0];
    var tbl2 := tbl1[p := 1];
    InitialTableOk();
    TableStore(tbl, 0, p, 1);
    TableStore(tbl1, 1, p, 8);
    var e := MatchEnd(src, 5, 4);
    assert e == 8 by {
      assert MatchEnd(src, 8, 7) == 8;
      assert MatchEnd(src, 7, 6) == 8;
      assert MatchEnd(src, 6, 5) == 8;
    }
    assert PendingLiteral(41, 1, 0, 1) == Some(3);
    assert FitsCopy1(1, 7);
    assert EmitCopy(3, 41, 1, 7) == Some(5);
    var lt: Production := Literal(src[0..1]);
    var cp: Production := Copy(1, 7);
    var es := [lt, cp];
    assert WithPending(src, 1, 0, []) + [cp] == es;
    assert EncodeLoop(src, 41, tbl2, 8, 8, 5, es) == Some(es);
    IterationMatch(src, 41, tbl1, 1, 0, 1, [], 0, 8, 3, 5);
    UnfoldIteration(src, 41, tbl1, 1, 0, 1, [], tbl2, 8, 8, 5, es, Some(es));
    IterationMiss(src, 41, tbl, 0, 0, 1, [], -1);
    UnfoldIteration(src, 41, tbl, 0, 0, 1, [], tbl1, 1, 0, 1, [], Some(es));
    assert LiteralBytes(src[0..1]) == [0x00, 0x61];
    assert Copy1Bytes(1, 7) == [0x0d, 0x01];
    assert ElementsBytes(es[1..]) == [0x0d, 0x01];
    assert ElementsBytes(es) == [0x00, 0x61, 0x0d, 0x01];
  }

  /* ---------------------------------------------------------------- */
  /* encode as a loop over a mutable table                             */
  /* ---------------------------------------------------------------- */

  /** The inner while loop of encode: advance s and t together while the
      bytes agree. It stops where MatchEnd says, and the bytes it passes
      over repeat those s - t positions earlier. */
  method ExtendMatch(src: seq<byte>, s: nat, t: nat) returns (e: nat)
    requires t < s <= |src|
    ensures e == MatchEnd(src, s, t)
    ensures s <= e <= |src| && Repeats(src, s, s - t, e - s)
  {
    var i, j := s, t;
    while i < |src| && src[i] == src[j]
      invariant s <= i <= |src| && j < i && i - j == s - t
      invariant MatchEnd(src, i, j) == MatchEnd(src, s, t)
      decreases |src| - i
    {
      i, j := i + 1, j + 1;
    }
    e := i;
    MatchEndRepeats(src, s, t);
  }

  /** A pass that finds a match at s against t continues as EmitMatch. */
  lemma IterationFindsMatch(src: seq<byte>, dstLen: int, tbl: seq<int>, s: nat, lit: nat, d: nat,
                            es: seq<Production>, t: int, e: nat)
    requires lit <= s && s + 3 < |src| < MaxSourceLength
    requires TableOk(tbl, s) && d <= dstLen
    requires t == tbl[Hash(Load32(src, s))] && 0 <= t < s && s - t <= MaxOffset && Load32(src, s) == Load32(src, t)
    requires e == MatchEnd(src, s + 4, t + 4)
    ensures Iteration(src, dstLen, tbl, s, lit, d, es)
         == EmitMatch(src, dstLen, tbl[Hash(Load32(src, s)) := s], s, lit, d, es, t, e)
  {
  }

  /** A pass that runs out of room ends the loop with -1. */
  lemma UnfoldOutOfRoom(src: seq<byte>, dstLen: int, tbl: seq<int>, s: nat, lit: nat, d: nat, es: seq<Production>)
    requires lit <= s && s + 3 < |src| < MaxSourceLength
    requires TableOk(tbl, s) && d <= dstLen
    requires Iteration(src, dstLen, tbl, s, lit, d, es) == OutOfRoom
    ensures EncodeLoop(src, dstLen, tbl, s, lit, d, es) == None
  {
  }

  /** The second half of a pass with a match, as encode runs it: emit the
      pending literal if there is one, give up if it does not fit, then
      emit the copy and give up if that does not fit. */
  method EmitMatchPass(src: seq<byte>, dstLen: int, tbl': seq<int>, s: nat, lit: nat, d: nat, es: seq<Production>,
                       t: nat, e: nat)
    returns (r: Iterated)
    requires lit <= s < e <= |src| < MaxSourceLength && s + 4 <= e
    requires t < s && s - t <= MaxOffset && d <= dstLen
    ensures r == EmitMatch(src, dstLen, tbl', s, lit, d, es, t, e)
  {
    var d1, es1 := d, es;
    if lit != s {
      var o := EmitLiteral(d, dstLen, s - lit);
      if o.None? {
        return OutOfRoom;
      }
      d1, es1 := o.value, es + [Literal(src[lit..s])];
    }
    var c := EmitCopy(d1, dstLen, s - t, e - s);
    if c.None? {
      return OutOfRoom;
    }
    r := Next(tbl', e, e, c.value, es1 + [Copy(s - t, e - s)]);
  }

  /** One pass of encode's while loop as the C code runs it on the table
      tbl: look up the slot of the word at s and record s there; without a
      usable match move on by one byte, otherwise extend the match and emit. */
  method ScanPass(src: seq<byte>, dstLen: int, tbl: array<int>, s: nat, lit: nat, d: nat, es: seq<Production>)
    returns (r: Iterated)
    requires lit <= s && s + 3 < |src| < MaxSourceLength
    requires TableOk(tbl[..], s) && d <= dstLen
    modifies tbl
    ensures r == Iteration(src, dstLen, old(tbl[..]), s, lit, d, es)
    ensures r.Next? ==> tbl[..] == r.tbl
  {
    ghost var before := tbl[..];
    var h := Load32(src, s);
    var p := Hash(h);
    TableLookup(before, s, p);
    var t := tbl[p];
    tbl[p] := s;
    assert tbl[..] == before[p := s];
    if t < 0 || s - t > MaxOffset || h != Load32(src, t) {
      IterationMiss(src, dstLen, before, s, lit, d, es, t);
      r := Next(tbl[..], s + 1, lit, d, es);
    } else {
      var e := ExtendMatch(src, s + 4, t + 4);
      IterationFindsMatch(src, dstLen, before, s, lit, d, es, t, e);
      r := EmitMatchPass(src, dstLen, tbl[..], s, lit, d, es, t, e);
    }
  }

  /** encode as the C code runs it: fill a table of 2^14 slots with the
      sentinel, then scan, recording each position in its slot and
      emitting the pending literal and a copy at every match; finally emit
      the remaining bytes as one literal. It computes exactly what
      EncodeLoop describes, and with a destination of MaxEncodedLen bytes
      behind a preamble of at most five it never returns -1 and its
      elements reproduce src. */
  method EncodeScan(src: seq<byte>, dstLen: int, d0: nat) returns (r: Option<seq<Production>>)
    requires |src| < MaxSourceLength && d0 <= dstLen
    ensures r == EncodeLoop(src, dstLen, InitialTable(), 0, 0, d0, [])
    ensures d0 <= 5 && MaxEncodedLen(|src|) <= dstLen ==> r.Some? && Exec(r.value, []) == Some(src)
  {
    var tbl := new int[TableSize];
    var i := 0;
    while i < TableSize
      invariant 0 <= i <= TableSize
      invariant forall j :: 0 <= j < i ==> tbl[j] == -1
    {
      tbl[i] := -1;
      i := i + 1;
    }
    assert tbl[..] == InitialTable();
    InitialTableOk();
    ghost var target := EncodeLoop(src, dstLen, tbl[..], 0, 0, d0, []);
    if d0 <= 5 && MaxEncodedLen(|src|) <= dstLen {
      assert src[..0] == [];
      var _ := EncodeLoopCorrect(src, dstLen, tbl[..], 0, 0, d0, d0, []);
    }
    var s: nat, lit: nat, d: nat, es: seq<Production> := 0, 0, d0, [];
    while s + 3 < |src|
      invariant lit <= s <= |src| && d <= dstLen && TableOk(tbl[..], s)
      invariant EncodeLoop(src, dstLen, tbl[..], s, lit, d, es) == target
      decreases |src| - s
    {
      ghost var before := tbl[..];
      var it := ScanPass(src, dstLen, tbl, s, lit, d, es);
      if it.OutOfRoom? {
        UnfoldOutOfRoom(src, dstLen, before, s, lit, d, es);
        return None;
      }
      UnfoldIteration(src, dstLen, before, s, lit, d, es, it.tbl, it.s, it.lit, it.d, it.es,
                      EncodeLoop(src, dstLen, it.tbl, it.s, it.lit, it.d, it.es));
      s, lit, d, es := it.s, it.lit, it.d, it.es;
    }
    if lit == |src| {
      r := Some(es);
    } else {
      var o := EmitLiteral(d, dstLen, |src| - lit);
      r := if o.None? then None else Some(es + [Literal(src[lit..])]);
    }
  }
}
