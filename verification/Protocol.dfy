/** The Python helpers: building packets and checking them. */
module Protocol {
  import opened Bytes
  import opened Codec
  import opened Crc
  import opened Packets

  /** build_packet; None stands for ValueError. */
  function BuildPacket(command: byte, sequence: int, payload: seq<byte>, flags: byte, status: byte): Option<seq<byte>> {
    if |payload| > MAX_PAYLOAD then None
    else
      var header := [MAGIC_0, MAGIC_1, VERSION, command, flags, status] + Le16(sequence % 0x1_0000) + Le32(|payload|);
      Some(header + Le32(Crc32(header + payload)) + payload)
  }

  datatype Fields = Fields(magic: seq<byte>, version: byte, command: byte, flags: byte, status: byte,
                           sequence: u16, length: u32, crc: u32)

  /** parse_header, on a slice of the right size. */
  function ParseHeader(header: seq<byte>): Fields
    requires |header| == HEADER_SIZE
  {
    Fields(header[..2], header[2], header[3], header[4], header[5], U16(header, 6), U32(header, 8), U32(header, 12))
  }

  /** validate_packet: the checks in their order, false standing for ValueError. */
  predicate ValidatePacket(packet: seq<byte>, command: byte, sequence: u16, response: bool) {
    if |packet| < HEADER_SIZE then false
    else
      var f := ParseHeader(packet[..HEADER_SIZE]);
      if f.magic != [MAGIC_0, MAGIC_1] || f.version != VERSION || f.command != command then false
      else if (f.flags % 2 == 1) != response then false
      else if response && f.status != OK.Wire() && f.status != NO_DATA.Wire() then false
      else if f.sequence != sequence || f.length > MAX_PAYLOAD then false
      else if |packet| != HEADER_SIZE + f.length then false
      else f.crc == Crc32(packet[..12] + packet[16..])
  }

  /** The Python builder produces the packets the firmware and the HAL mean, and refuses only what cannot be sent. */
  lemma BuilderAgrees(command: byte, sequence: int, payload: seq<byte>, flags: byte, status: byte)
    ensures var built := BuildPacket(command, sequence, payload, flags, status);
            && (built.Some? <==> |payload| <= MAX_PAYLOAD)
            && (built.Some? ==> built.value == Packet(command, flags, status, sequence % 0x1_0000, payload))
  {
  }

  /** The validator accepts exactly the well-formed packets with the wanted fields. */
  lemma ValidatorExact(packet: seq<byte>, command: byte, sequence: u16, response: bool)
    ensures ValidatePacket(packet, command, sequence, response) <==>
            && WellFormed(packet) && packet[2] == VERSION && packet[3] == command && U16(packet, 6) == sequence
            && IsResponse(packet) == response
            && (response ==> packet[5] in {OK.Wire(), NO_DATA.Wire()})
  {
    if |packet| >= HEADER_SIZE {
      var h := packet[..HEADER_SIZE];
      U32Local(h, 8, packet, 8);
      U32Local(h, 12, packet, 12);
      assert h[..2] == [h[0], h[1]];
      assert h[6] == packet[6] && h[7] == packet[7];
    }
  }
}
