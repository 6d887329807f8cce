/** The non-standard 16-bit checksum of the roaster's frame protocol.

    The source keeps the accumulator in an unbounded integer; here it is a
    `bv32`, wide enough for every value the loop can produce from any initial
    value below 2^32 (the only initial value the client uses is 0xFFFF).
    Every mask the source writes is written out, so that the accumulator
    staying below 0x10000 is something proved rather than something the type
    forces. */
module Crc {

  type byte = bv8

  /** '0xFFFF', the initial value both the encoder and the decoder pass. */
  const CRC_INIT: bv32 := 0xFFFF

  /** One iteration of the loop body: fold byte `b` into accumulator `crc`. */
  function CrcStep(crc: bv32, b: byte): (r: bv32)
    ensures r < 0x1_0000
  {
    var x := (b as bv32 & 0xFF) ^ (crc & 0xFF);
    var y := x ^ ((x << 4) & 0xFF);
    ((((crc >> 8) & 0xFF) | ((y << 8) & 0xFFFF)) ^ (y >> 4)) ^ ((y << 3) & 0xFFFF)
  }

  /** The step reads only the low 16 bits of the accumulator. */
  lemma CrcStepLow16(crc: bv32, b: byte)
    ensures CrcStep(crc, b) == CrcStep(crc & 0xFFFF, b)
  {
  }

  /** The accumulator after folding all of `data`, left to right, from `acc`;
      after at least one byte it is below 0x10000, so the final mask of the
      source only matters for an empty input. */
  function CrcFold(data: seq<byte>, acc: bv32): (r: bv32)
    ensures data != [] ==> r < 0x1_0000
    decreases |data|
  {
    if data == [] then acc else CrcFold(data[1..], CrcStep(acc, data[0]))
  }

  /** The 16 low bits of `v` as two bytes, most significant first. */
  function ToBigEndian(v: bv32): (r: seq<byte>)
    ensures |r| == 2
    ensures FromBigEndian(r) == v & 0xFFFF
  {
    [((v >> 8) & 0xFF) as byte, (v & 0xFF) as byte]
  }

  /** The value of a two-byte big-endian sequence. */
  function FromBigEndian(s: seq<byte>): bv32
    requires |s| == 2
  {
    ((s[0] as bv32) << 8) | (s[1] as bv32)
  }

  /** The checksum of `data` from initial value `init`, as the two bytes the
      source returns. */
  function CrcOf(data: seq<byte>, init: bv32): (r: seq<byte>)
    ensures |r| == 2
    ensures FromBigEndian(r) == CrcFold(data, init) & 0xFFFF
  {
    var acc := CrcFold(data, init);
    ToBigEndian(acc)
  }

  /** The source's loop: one accumulator, updated once per byte. */
  method Crc16(data: seq<byte>, init: bv32) returns (r: seq<byte>)
    ensures r == CrcOf(data, init)
  {
    var crc := init;
    var i := 0;
    while i < |data|
      invariant 0 <= i <= |data|
      invariant CrcFold(data[i..], crc) == CrcFold(data, init)
    {
      assert data[i..][1..] == data[i + 1..];
      crc := CrcStep(crc, data[i]);
      i := i + 1;
    }
    r := ToBigEndian(crc);
  }

  /** Folding a concatenation folds the second part from where the first ended. */
  lemma {:induction false} CrcFoldAppend(a: seq<byte>, b: seq<byte>, acc: bv32)
    ensures CrcFold(a + b, acc) == CrcFold(b, CrcFold(a, acc))
    decreases |a|
  {
    if a == [] {
      assert a + b == b;
    } else {
      var next := CrcStep(acc, a[0]);
      assert (a + b)[0] == a[0] && (a + b)[1..] == a[1..] + b;
      assert CrcFold(a + b, acc) == CrcFold(a[1..] + b, next);
      assert CrcFold(a, acc) == CrcFold(a[1..], next);
      CrcFoldAppend(a[1..], b, next);
    }
  }

  /** Once a byte has been folded in, only the low 16 bits of the starting
      accumulator matter. */
  lemma {:induction false} CrcFoldLow16(data: seq<byte>, acc: bv32)
    requires data != []
    ensures CrcFold(data, acc) == CrcFold(data, acc & 0xFFFF)
  {
    CrcStepLow16(acc, data[0]);
  }

  /** Folding `a + b` is folding `b` from the low 16 bits of the
      accumulator reached after `a`, once `b` holds a byte. */
  lemma {:induction false} CrcFoldResume(a: seq<byte>, b: seq<byte>, init: bv32)
    requires b != []
    ensures CrcFold(a + b, init) == CrcFold(b, CrcFold(a, init) & 0xFFFF)
  {
    CrcFoldAppend(a, b, init);
    CrcFoldLow16(b, CrcFold(a, init));
  }

  /** The checksum of `a + b` is the checksum of `b` started from the
      checksum of `a`, read back as a big-endian number. */
  lemma {:induction false} CrcOfAppend(a: seq<byte>, b: seq<byte>, init: bv32)
    ensures CrcOf(a + b, init) == CrcOf(b, FromBigEndian(CrcOf(a, init)))
  {
    if b == [] {
      assert a + b == a;
      CrcOfResumeNothing(a, init);
    } else {
      CrcFoldResume(a, b, init);
    }
  }

  /** Resuming from a checksum with no further bytes gives it back. */
  lemma CrcOfResumeNothing(a: seq<byte>, init: bv32)
    ensures CrcOf(a, init) == CrcOf([], FromBigEndian(CrcOf(a, init)))
  {
    ToBigEndianLow16(CrcFold(a, init));
  }

  /** Only the low 16 bits of a value reach its two bytes. */
  lemma ToBigEndianLow16(v: bv32)
    ensures ToBigEndian(v) == ToBigEndian(v & 0xFFFF)
  {
  }

  /** No bytes: the initial value itself, 'FF FF'. */
  lemma CrcOfEmpty()
    ensures CrcOf([], CRC_INIT) == [0xFF, 0xFF]
  {
  }

  /** A single zero byte gives '0F 87'. */
  lemma CrcOfZeroByte()
    ensures CrcOf([0x00], CRC_INIT) == [0x0F, 0x87]
  {
  }

  /** The payload '01 02' gives 'CA 72'. */
  lemma CrcOfOneTwo()
    ensures CrcOf([0x01, 0x02], CRC_INIT) == [0xCA, 0x72]
  {
  }
}
