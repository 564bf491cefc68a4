/** The checksum of the Snappy framing format: CRC-32C (Castagnoli
    polynomial, bit-reflected, initial value and final xor all ones) of the
    uncompressed bytes of a block, then masked by a rotation and an
    additive constant so that checksums of data containing checksums do not
    degenerate. */
module Crc32c {
  import opened Bytes

  /** The Castagnoli polynomial 0x1EDC6F41 in reflected bit order. */
  const Castagnoli: bv32 := 0x82F6_3B78
  const MaskDelta: bv32 := 0xa282_ead8

  /** One step of the bitwise reflected CRC shift register. */
  function Step(c: bv32): bv32
  {
    if c & 1 == 1 then (c >> 1) ^ Castagnoli else c >> 1
  }

  /** Feeds data into the register one byte at a time: each byte is xored
      into the low bits and followed by eight steps; `pending` counts the
      steps still owed to the byte fed last. */
  function Feed(c: bv32, data: seq<byte>, pending: nat): bv32
    requires pending <= 8
    decreases |data|, pending
  {
    if pending > 0 then Feed(Step(c), data, pending - 1)
    else if |data| == 0 then c
    else Feed(c ^ (data[0] as bv32), data[1..], 8)
  }

  function Update(c: bv32, data: seq<byte>): bv32
  {
    Feed(c, data, 0)
  }

  /** CRC-32C of data, as `crc32.New(crc32.MakeTable(crc32.Castagnoli))`
      returns it from Sum32 after a Reset and one Write. */
  function Checksum(data: seq<byte>): bv32
  {
    Update(0xFFFF_FFFF, data) ^ 0xFFFF_FFFF
  }

  /** The mask on 32-bit words: rotate right by 15 bits, then add
      0xa282ead8 with wrap-around. */
  function Mask(c: bv32): bv32
  {
    ((c >> 15) | (c << 17)) + MaskDelta
  }

  /** The masked checksum that precedes every data chunk's payload, as the
      integer its four little-endian bytes denote. */
  function MaskedChecksum(data: seq<byte>): uint32
  {
    Mask(Checksum(data)) as int
  }

  /** Undoes the mask: subtract the constant, rotate left by 15 bits. */
  function Unmask(m: bv32): bv32
  {
    var r := m - MaskDelta;
    (r << 15) | (r >> 17)
  }

  /** Masking loses nothing: Unmask inverts it, so two different checksums
      never mask to the same value. */
  lemma UnmaskMask(c: bv32)
    ensures Unmask(Mask(c)) == c
  {
  }

  /** Mask inverts Unmask too, so every 32-bit word is the mask of some
      checksum; with UnmaskMask the mask is a bijection on 32-bit words. */
  lemma MaskUnmask(m: bv32)
    ensures Mask(Unmask(m)) == m
  {
  }

  /** Reading a stored checksum back: unmasking the masked form of data's
      checksum gives the CRC-32C of data. */
  lemma MaskedChecksumUnmasks(data: seq<byte>)
    ensures Unmask(MaskedChecksum(data) as bv32) == Checksum(data)
  {
    UnmaskMask(Checksum(data));
  }

  /** CRC-32C of the empty string is 0, so its masked form is the constant itself. */
  lemma MaskedChecksumOfEmpty()
    ensures MaskedChecksum([]) == 0xa282_ead8
  {
    assert Feed(0xFFFF_FFFF, [], 0) == 0xFFFF_FFFF;
  }
}
