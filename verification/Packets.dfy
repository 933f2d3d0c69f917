/** The wire format: a 16-byte header, its checksum, and a payload of at most 1036 bytes. */
module Packets {
  import opened Bytes
  import opened Codec
  import opened Crc

  const MAGIC_0: byte := 0x49
  const MAGIC_1: byte := 0x52
  const VERSION: byte := 1
  const RESPONSE: byte := 1
  const HEADER_SIZE: nat := 16
  const MAX_PACKET: nat := 1052

  const READ: byte := 1
  const WRITE: byte := 2
  const PING: byte := 3

  /** At least a whole header. */
  type Framed = s: seq<byte> | HEADER_SIZE <= |s| witness seq(HEADER_SIZE, _ => 0)

  function PayloadOf(p: Framed): seq<byte>
  {
    p[HEADER_SIZE..]
  }

  /** The bytes the checksum covers: the header up to the checksum field, then the payload. */
  function Covered(p: Framed): seq<byte>
  {
    p[..12] + p[HEADER_SIZE..]
  }

  predicate IsResponse(p: Framed)
  {
    p[4] % 2 == 1
  }

  /** A complete packet with a plausible length and the right checksum, whatever its other fields say. */
  predicate WellFormed(p: seq<byte>) {
    && HEADER_SIZE <= |p| <= MAX_PACKET
    && p[0] == MAGIC_0 && p[1] == MAGIC_1
    && U32(p, 8) == |p| - HEADER_SIZE
    && U32(p, 12) == Crc32(Covered(p))
  }

  function HeaderFields(command: byte, flags: byte, status: byte, sequence: u16, len: u32): (h: seq<byte>)
    ensures |h| == 12
  {
    [MAGIC_0, MAGIC_1, VERSION, command, flags, status] + Le16(sequence) + Le32(len)
  }

  /** The packet every writer of the protocol builds from these fields. */
  function Packet(command: byte, flags: byte, status: byte, sequence: u16, payload: seq<byte>): (p: Framed)
    requires |payload| <= MAX_PAYLOAD
    ensures |p| == HEADER_SIZE + |payload|
  {
    var h := HeaderFields(command, flags, status, sequence, |payload|);
    h + Le32(Crc32(h + payload)) + payload
  }

  /** Built packets are well formed, and every field reads back as it was written. */
  lemma PacketFields(command: byte, flags: byte, status: byte, sequence: u16, payload: seq<byte>)
    requires |payload| <= MAX_PAYLOAD
    ensures var p := Packet(command, flags, status, sequence, payload);
            && WellFormed(p)
            && p[2] == VERSION && p[3] == command && p[4] == flags && p[5] == status
            && U16(p, 6) == sequence && PayloadOf(p) == payload
  {
    hide Crc32;
    var h := HeaderFields(command, flags, status, sequence, |payload|);
    var crc := Crc32(h + payload);
    var p := Packet(command, flags, status, sequence, payload);
    assert p[6] == Le16(sequence)[0] && p[7] == Le16(sequence)[1];
    U32OfLe32(|payload|);
    U32Local(p, 8, Le32(|payload|), 0);
    U32OfLe32(crc);
    U32Local(p, 12, Le32(crc), 0);
    assert Covered(p) == h + payload;
  }

  /** A well-formed version 1 packet is the one its fields build. */
  lemma WellFormedIsBuilt(p: seq<byte>)
    requires WellFormed(p) && p[2] == VERSION
    ensures p == Packet(p[3], p[4], p[5], U16(p, 6), PayloadOf(p))
  {
    hide Crc32;
    var h := HeaderFields(p[3], p[4], p[5], U16(p, 6), |PayloadOf(p)|);
    Le16OfU16(p, 6);
    Le32OfU32(p, 8);
    Le32OfU32(p, 12);
    assert h == p[..12] by {
      assert p[..12] == p[..6] + p[6..8] + p[8..12];
      assert p[..6] == [MAGIC_0, MAGIC_1, VERSION, p[3], p[4], p[5]];
    }
    assert p == p[..12] + p[12..16] + p[16..];
  }
}
