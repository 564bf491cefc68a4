/** Byte-level vocabulary shared by the block encoder and the framing layer:
    bytes and 32-bit words, an option type, fixed-width little-endian
    integers and the unsigned varint that prefixes every Snappy block. */
module Bytes {

  type byte = x: int | 0 <= x < 0x100
  type uint32 = x: int | 0 <= x < 0x1_0000_0000

  /** A value that may be absent; used for the results the C code signals with NULL or -1. */
  datatype Option<+T> = None | Some(value: T)

  function Pow256(k: nat): (r: nat)
    ensures r >= 1
  {
    if k == 0 then 1 else 256 * Pow256(k - 1)
  }

  /** The k low-order bytes of x, least significant first. Higher bytes are
      dropped, which is what a chain of stores `byte(x)`, `byte(x >> 8)`, ...
      into a byte array does. */
  function LittleEndian(x: nat, k: nat): (r: seq<byte>)
    ensures |r| == k
  {
    if k == 0 then [] else [x % 256] + LittleEndian(x / 256, k - 1)
  }

  /** Adding a multiple of 256 leaves the low byte alone and raises the
      higher bytes by the multiple. */
  lemma AddMultiple256(x: nat, k: nat)
    ensures (x + 0x100 * k) % 0x100 == x % 0x100 && (x + 0x100 * k) / 0x100 == x / 0x100 + k
  {
  }

  /** The unsigned integer whose little-endian bytes are s. */
  function FromLittleEndian(s: seq<byte>): (r: nat)
    ensures r < Pow256(|s|)
  {
    if |s| == 0 then 0 else s[0] + 256 * FromLittleEndian(s[1..])
  }

  /** Writing k bytes of a value that fits in them and reading them back
      yields the value. */
  lemma {:induction false} FromLittleEndianOfLittleEndian(x: nat, k: nat)
    requires x < Pow256(k)
    ensures FromLittleEndian(LittleEndian(x, k)) == x
  {
    if k > 0 {
      var s := LittleEndian(x, k);
      assert s[1..] == LittleEndian(x / 256, k - 1);
      FromLittleEndianOfLittleEndian(x / 256, k - 1);
    }
  }

  /** Reading k bytes and writing the value back reproduces them. */
  lemma {:induction false} LittleEndianOfFromLittleEndian(s: seq<byte>)
    ensures LittleEndian(FromLittleEndian(s), |s|) == s
  {
    if |s| > 0 {
      var v := FromLittleEndian(s);
      var rest := FromLittleEndian(s[1..]);
      assert v % 256 == s[0] && v / 256 == rest;
      LittleEndianOfFromLittleEndian(s[1..]);
      assert LittleEndian(v, |s|) == [s[0]] + s[1..];
    }
  }

  /** Two byte strings of the same width denote the same integer only if they are equal. */
  lemma FromLittleEndianInjective(a: seq<byte>, b: seq<byte>)
    requires |a| == |b| && FromLittleEndian(a) == FromLittleEndian(b)
    ensures a == b
  {
    LittleEndianOfFromLittleEndian(a);
    LittleEndianOfFromLittleEndian(b);
  }

  /** Go's binary.PutUvarint: seven bits per byte, low group first, the
      high bit set on every byte but the last. */
  function PutUvarint(x: nat): (r: seq<byte>)
    ensures 1 <= |r| && r[|r| - 1] < 0x80
    ensures forall i :: 0 <= i < |r| - 1 ==> r[i] >= 0x80
  {
    if x < 0x80 then [x] else [x % 0x80 + 0x80] + PutUvarint(x / 0x80)
  }

  /** Reads an unsigned varint from the front of s: the value and the
      number of bytes it occupies, or None if s ends inside the varint. */
  function ReadUvarint(s: seq<byte>): (r: Option<(nat, nat)>)
    ensures r.Some? ==> 1 <= r.value.1 <= |s|
  {
    if |s| == 0 then None
    else if s[0] < 0x80 then Some((s[0], 1))
    else match ReadUvarint(s[1..])
      case None => None
      case Some((v, k)) => Some((s[0] - 0x80 + 0x80 * v, k + 1))
  }

  /** Decoding a written varint recovers the value and its exact width,
      whatever follows it. */
  lemma {:induction false} ReadPutUvarint(x: nat, rest: seq<byte>)
    ensures ReadUvarint(PutUvarint(x) + rest) == Some((x, |PutUvarint(x)|))
  {
    var s := PutUvarint(x) + rest;
    if x >= 0x80 {
      assert s[1..] == PutUvarint(x / 0x80) + rest;
      ReadPutUvarint(x / 0x80, rest);
    }
  }

  function Pow128(k: nat): (r: nat)
    ensures r >= 1
  {
    if k == 0 then 1 else 128 * Pow128(k - 1)
  }

  /** A value below 128^k needs at most k varint bytes; a length below
      2^35 = 128^5 therefore needs at most five. */
  lemma {:induction false} PutUvarintLengthBound(x: nat, k: nat)
    requires 1 <= k && x < Pow128(k)
    ensures |PutUvarint(x)| <= k
  {
    if x >= 0x80 {
      PutUvarintLengthBound(x / 0x80, k - 1);
    }
  }
}
