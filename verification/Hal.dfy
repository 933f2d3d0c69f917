/** The Android HAL: packets written by index, and patterns turned into WRITE payloads. */
module Hal {
  import opened Bytes
  import opened Codes
  import opened Codec
  import opened Crc
  import opened Packets
  import opened Normalizing

  /** exchangePacket's request, assembled in a zeroed vector. */
  method BuildRequest(command: byte, sequence: u16, payload: array<byte>) returns (tx: array<byte>)
    requires payload.Length <= MAX_PAYLOAD
    ensures fresh(tx) && tx[..] == Packet(command, 0, 0, sequence, payload[..])
  {
    hide Crc32, HeaderFields;
    var size := payload.Length;
    tx := new byte[HEADER_SIZE + size](_ => 0);
    WriteRequestFields(tx, command, sequence, size);
    ghost var h := tx[..12];
    forall i | 0 <= i < size {
      tx[HEADER_SIZE + i] := payload[i];
    }
    assert tx[..12] == h && tx[HEADER_SIZE..] == payload[..];
    var crc := VectorCrc(tx, payload);
    WriteU32(tx, 12, crc);
    assert tx[..] == h + Le32(crc) + payload[..];
  }

  method WriteRequestFields(tx: array<byte>, command: byte, sequence: u16, len: u32)
    requires HEADER_SIZE <= tx.Length
    modifies tx
    ensures tx[..12] == HeaderFields(command, 0, 0, sequence, len)
  {
    tx[0], tx[1], tx[2], tx[3] := MAGIC_0, MAGIC_1, VERSION, command;
    tx[4], tx[5] := 0, 0;
    ghost var six := tx[..6];
    assert six == [MAGIC_0, MAGIC_1, VERSION, command, 0, 0];
    WriteU16(tx, 6, sequence);
    WriteU32(tx, 8, len);
    assert tx[..12] == six + Le16(sequence) + Le32(len);
  }

  /** packetCrc32: the header's first twelve bytes, then the payload if there is any. */
  method VectorCrc(header: array<byte>, payload: array<byte>) returns (r: u32)
    requires HEADER_SIZE <= header.Length
    ensures r == Crc32(header[..12] + payload[..])
  {
    var crc := CrcUpdate(ALL_ONES, header, 0, 12);
    assert payload.Length == 0 ==> payload[..] == [];
    if payload.Length > 0 {
      crc := CrcUpdate(crc, payload, 0, payload.Length);
      assert payload[0..0 + payload.Length] == payload[..];
    }
    UpdateAppend(ALL_ONES, header[..12], payload[..]);
    assert header[0..0 + 12] == header[..12];
    r := XorWord(crc, ALL_ONES);
  }

  /** A pattern entry as a 15-bit duration: clamped from above, then cast to 16 bits and masked. */
  function Duration(entry: int): (d: u15)
    ensures 0 <= entry <= 32767 ==> d == entry
    ensures entry > 32767 ==> d == 32767
  {
    (if entry > 32767 then 32767 else entry) % 0x1_0000 % 0x8000
  }

  /** The phases a pattern stands for: MARK, SPACE, MARK and so on. */
  function PatternPhases(pattern: seq<int>): (ps: seq<Phase>)
    ensures |ps| == |pattern|
    ensures forall i | 0 <= i < |pattern| :: ps[i] == Phase(Duration(pattern[i]), if i % 2 == 0 then MARK else SPACE)
  {
    seq(|pattern|, i requires 0 <= i < |pattern| => Phase(Duration(pattern[i]), if i % 2 == 0 then MARK else SPACE))
  }

  function PatternSymbols(pattern: seq<int>): (ss: seq<Symbol>)
    ensures |ss| == (|pattern| + 1) / 2
  {
    Paired(Padded(PatternPhases(pattern)))
  }

  function PatternCode(carrierHz: u32, pattern: seq<int>): Code {
    Code(0, RESOLUTION_HZ, carrierHz, PatternSymbols(pattern))
  }

  /** The carrier the HAL puts in the payload, or None for one it refuses. */
  function AcceptedCarrier(requested: int): Option<u32> {
    if requested <= 0 then Some(0)
    else if MIN_CARRIER_HZ <= requested <= MAX_CARRIER_HZ then Some(requested)
    else None
  }

  /** The payload transmit builds, or nothing when it gives up. */
  method EncodePattern(requested: int, pattern: seq<int>) returns (payload: Option<array<byte>>)
    ensures payload.Some? <==> AcceptedCarrier(requested).Some? && 1 <= (|pattern| + 1) / 2 % 0x1_0000 <= MAX_SYMBOLS
    ensures payload.Some? ==> payload.value.Length <= PREFIX_SIZE + 4 * MAX_SYMBOLS <= MAX_PAYLOAD
    ensures payload.Some? && |pattern| <= 2 * MAX_SYMBOLS ==>
              var c := PatternCode(AcceptedCarrier(requested).value, pattern);
              payload.value[..] == Prefix(|c.symbols|, c) + SymbolsBytes(c.symbols)
  {
    hide Prefix, SymbolsBytes, PatternSymbols;
    var carrierHz := if requested > 0 then requested else 0;
    if carrierHz != 0 && (carrierHz < MIN_CARRIER_HZ || carrierHz > MAX_CARRIER_HZ) {
      return None;
    }
    var symbolCount: u16 := (|pattern| + 1) / 2 % 0x1_0000;
    if symbolCount == 0 || symbolCount > MAX_SYMBOLS {
      return None;
    }
    var p := new byte[PREFIX_SIZE + 4 * symbolCount](_ => 0);
    ghost var zeros := p[12..];
    WritePrefix(p, 0, symbolCount, Code(0, RESOLUTION_HZ, carrierHz, []));
    ghost var c := PatternCode(carrierHz, pattern);
    ghost var prefix := Prefix(symbolCount, c);
    PrefixSame(symbolCount, Code(0, RESOLUTION_HZ, carrierHz, []), c);
    assert p[..] == prefix + zeros;
    WritePatternSymbols(pattern, symbolCount, p, prefix);
    if |pattern| <= 2 * MAX_SYMBOLS {
      assert c.symbols[..symbolCount] == c.symbols;
    }
    return Some(p);
  }

  /** The symbol loop of transmit. */
  method WritePatternSymbols(pattern: seq<int>, symbolCount: nat, p: array<byte>, ghost prefix: seq<byte>)
    requires 1 <= symbolCount <= (|pattern| + 1) / 2
    requires p.Length == PREFIX_SIZE + 4 * symbolCount
    requires |prefix| == PREFIX_SIZE && p[..12] == prefix
    modifies p
    ensures p[..] == prefix + SymbolsBytes(PatternSymbols(pattern)[..symbolCount])
  {
    hide SymbolsBytes, SymbolBytes, PatternSymbols;
    ghost var ss, tail := PatternSymbols(pattern), p[12..];
    NoSymbols(ss);
    assert p[..] == prefix + tail;
    for i := 0 to symbolCount
      invariant p[..] == (prefix + SymbolsBytes(ss[..i])) + tail[4 * i..]
    {
      WritePatternSymbol(pattern, i, p, prefix + SymbolsBytes(ss[..i]), tail[4 * i..]);
      OneMoreSymbol(prefix, ss, i);
      DropDrop(tail, 4 * i, 4);
    }
  }

  method WritePatternSymbol(pattern: seq<int>, i: nat, p: array<byte>, ghost front: seq<byte>, ghost tail: seq<byte>)
    requires 2 * i < |pattern|
    requires p[..] == front + tail && |front| == 12 + 4 * i && 4 <= |tail|
    modifies p
    ensures p[..] == (front + SymbolBytes(PatternSymbols(pattern)[i])) + tail[4..]
  {
    hide PatternSymbols, SymbolBytes;
    PatternSymbol(pattern, i);
    var dur0: u16 := (if pattern[2 * i] > 32767 then 32767 else pattern[2 * i]) % 0x1_0000;
    var phase0: u16 := 0x8000 + dur0 % 0x8000;
    var dur1: u16 := 0;
    if 2 * i + 1 < |pattern| {
      dur1 := (if pattern[2 * i + 1] > 32767 then 32767 else pattern[2 * i + 1]) % 0x1_0000;
    }
    var phase1: u16 := dur1 % 0x8000;
    WordsOfSymbol(PatternSymbols(pattern)[i], phase0, phase1);
    Overwrite(front, Le16(phase0) + Le16(phase1), tail);
    WriteWords(p, 12 + 4 * i, phase0, phase1);
  }

  lemma WordsOfSymbol(s: Symbol, first: u16, second: u16)
    requires first == WordOfPhase(s.phase0) && second == WordOfPhase(s.phase1)
    ensures SymbolBytes(s) == Le16(first) + Le16(second)
  {
  }

  method WriteWords(p: array<byte>, at: nat, first: u16, second: u16)
    requires at + 4 <= p.Length
    modifies p
    ensures p[..] == old(p[..at]) + (Le16(first) + Le16(second)) + old(p[at + 4..])
  {
    hide Le16;
    WriteU16(p, at, first);
    WriteU16(p, at + 2, second);
  }

  lemma PatternSymbol(pattern: seq<int>, i: nat)
    requires i < (|pattern| + 1) / 2
    ensures var s := PatternSymbols(pattern)[i];
            && s.phase0 == Phase(Duration(pattern[2 * i]), MARK)
            && s.phase1 == Phase(if 2 * i + 1 < |pattern| then Duration(pattern[2 * i + 1]) else 0, SPACE)
  {
  }

  /** Every entry has a length, except perhaps a SPACE at the very end. */
  predicate Playable(pattern: seq<int>) {
    forall i | 0 <= i < |pattern| :: pattern[i] >= 1 || (i == |pattern| - 1 && i % 2 == 1)
  }

  /**
   What the HAL encodes, the firmware accepts exactly for playable patterns, and then plays:
   entry by entry, clamped to 32767, padded to whole symbols, at the accepted carrier.
   */
  lemma FirmwareAcceptsPattern(requested: int, pattern: seq<int>)
    requires AcceptedCarrier(requested).Some?
    requires 1 <= |pattern| <= 2 * MAX_SYMBOLS
    requires forall i | 0 <= i < |pattern| :: pattern[i] >= 0
    ensures var c := PatternCode(AcceptedCarrier(requested).value, pattern);
            var payload := Prefix(|c.symbols|, c) + SymbolsBytes(c.symbols);
            && (Decode(payload).Decoded? <==> Playable(pattern))
            && (Decode(payload).Decoded? ==>
                  Decode(payload).code == c && Phases(c.symbols) == Padded(PatternPhases(pattern)))
            && (Decode(payload).Refused? ==> Decode(payload).status == INVALID_PAYLOAD)
  {
    hide SymbolsBytes, Unpack, Prefix;
    var carrier := AcceptedCarrier(requested).value;
    var c := PatternCode(carrier, pattern);
    forall i | 0 <= i < |c.symbols|
      ensures Encodable(c.symbols[i])
    {
      PatternSymbol(pattern, i);
    }
    UnpackOfBytes(c);
    PatternValid(carrier, pattern);
    PhasesOfPaired(Padded(PatternPhases(pattern)));
  }

  lemma PatternValid(carrierHz: u32, pattern: seq<int>)
    requires carrierHz == 0 || MIN_CARRIER_HZ <= carrierHz <= MAX_CARRIER_HZ
    requires 1 <= |pattern| <= 2 * MAX_SYMBOLS
    requires forall i | 0 <= i < |pattern| :: pattern[i] >= 0
    ensures ValidCode(PatternCode(carrierHz, pattern)) <==> Playable(pattern)
  {
    var c := PatternCode(carrierHz, pattern);
    if Playable(pattern) {
      forall i | 0 <= i < |c.symbols|
        ensures ValidSymbol(c.symbols[i], i + 1 == |c.symbols|)
      {
        PatternSymbol(pattern, i);
      }
    }
    if ValidCode(c) {
      forall i | 0 <= i < |pattern|
        ensures pattern[i] >= 1 || (i == |pattern| - 1 && i % 2 == 1)
      {
        PatternSymbol(pattern, i / 2);
        assert ValidSymbol(c.symbols[i / 2], i / 2 + 1 == |c.symbols|);
      }
    }
  }
}
