/** The firmware's in-place packet parser: a fixed buffer fed one byte at a time. */
module Parsing {
  import opened Bytes
  import opened Codes
  import opened Codec
  import opened Crc
  import opened Packets
  import opened Scanner
  import opened Responder

  class Parser {
    const input: array<byte>
    var used: nat
    const output: array<byte>
    const workingCode: IrCode

    /** The outcomes of captures and transmissions, supplied from outside. */
    const oracle: Oracle

    /** What has been done with the hardware and the transport so far. */
    var captures: nat
    var sent: seq<Code>
    var replies: seq<Framed>

    /** The candidates handled so far. */
    ghost var handled: seq<Candidate>

    ghost predicate Shape()
      reads this
    {
      && input.Length == output.Length == MAX_PACKET
      && input != output
      && workingCode.symbols.Length == MAX_SYMBOLS
      && used <= input.Length
    }

    ghost function Buffer(): seq<byte>
      requires Shape()
      reads this, input
    {
      input[..used]
    }

    /** Between calls the buffer holds an incomplete candidate and has room for a byte. */
    ghost predicate Valid()
      reads this, input
    {
      Shape() && Judge(Buffer()) == Wait
    }

    ghost function Done(): World
      reads this
    {
      World(captures, sent, replies)
    }

    constructor (oracle: Oracle)
      ensures Valid() && Buffer() == [] && Done() == NOTHING && handled == []
      ensures this.oracle == oracle
      ensures fresh(input) && fresh(output) && fresh(workingCode) && fresh(workingCode.symbols)
    {
      this.oracle := oracle;
      input := new byte[MAX_PACKET];
      output := new byte[MAX_PACKET];
      workingCode := new IrCode();
      used, captures, sent, replies, handled := 0, 0, [], [], [];
    }

    /** memmove the rest of the buffer to its front. */
    method Discard(len: nat)
      requires Shape() && len <= used
      modifies `used, input
      ensures Shape() && used == old(used) - len
      ensures Buffer() == old(Buffer())[len..]
    {
      used := used - len;
      forall i | 0 <= i < used {
        input[i] := input[len + i];
      }
    }

    /** The first twelve bytes of a response to the request at the front of the buffer. */
    method WriteFields(status: Status, len: nat)
      requires Shape() && HEADER_SIZE <= used && len <= MAX_PAYLOAD
      modifies output
      ensures output[..12] == HeaderFields(input[3], RESPONSE, status.Wire(), U16(Buffer(), 6), len)
      ensures output[12..] == old(output[12..])
    {
      output[0], output[1] := MAGIC_0, MAGIC_1;
      output[2] := VERSION;
      output[3] := input[3];
      output[4] := RESPONSE;
      output[5] := status.Wire();
      ghost var six := output[..6];
      assert six == [MAGIC_0, MAGIC_1, VERSION, input[3], RESPONSE, status.Wire()];
      WriteU16(output, 6, ReadU16(input, 6));
      WriteU32(output, 8, len);
      assert output[..12] == six + Le16(ReadU16(input, 6)) + Le32(len);
    }

    method Respond(status: Status, len: nat)
      requires Shape() && HEADER_SIZE <= used && len <= MAX_PAYLOAD
      modifies output, `replies
      ensures replies == old(replies) + [Reply(Buffer(), status, old(output[HEADER_SIZE..HEADER_SIZE + len]))]
    {
      hide Crc32, HeaderFields;
      ghost var payload := output[HEADER_SIZE..HEADER_SIZE + len];
      SliceOfTail(output, len);
      WriteFields(status, len);
      ghost var h := output[..12];
      SliceOfTail(output, len);
      assert output[HEADER_SIZE..HEADER_SIZE + len] == payload;
      var crc := PacketCrc(output, len);
      WriteU32(output, 12, crc);
      assert output[..HEADER_SIZE + len] == h + Le32(crc) + payload;
      replies := replies + [output[..HEADER_SIZE + len]];
    }

    /** ir_rx_capture(&working_code, ...), as the oracle decides. */
    method Capture() returns (err: Err)
      requires Shape()
      modifies `captures, workingCode, workingCode.symbols
      ensures captures == old(captures) + 1
      ensures match oracle.rx(old(captures))
              case Captured(c) => err == ESP_OK && workingCode.symbolCount <= MAX_SYMBOLS && workingCode.Value() == c
              case RxFailed(e) => err == e
    {
      captures := captures + 1;
      match oracle.rx(captures - 1)
      case Captured(c) =>
        workingCode.Assign(c);
        err := ESP_OK;
      case RxFailed(e) =>
        err := e;
    }

    /** ir_tx_send(&working_code), as the oracle decides. */
    method Send() returns (err: Err)
      requires Shape() && workingCode.symbolCount <= MAX_SYMBOLS
      modifies `sent
      ensures sent == old(sent) + [workingCode.Value()]
      ensures err == oracle.tx(|old(sent)|)
    {
      err := oracle.tx(|sent|);
      sent := sent + [Code(workingCode.flags, workingCode.resolutionHz, workingCode.carrierHz,
                           workingCode.symbols[..workingCode.symbolCount])];
    }

    method ProcessRead(len: nat) returns (status: Status, responseLen: nat)
      requires Shape() && HEADER_SIZE + len <= used && len <= MAX_PAYLOAD
      modifies `captures, output, workingCode, workingCode.symbols
      ensures responseLen <= MAX_PAYLOAD && old(captures) <= captures
      ensures DoRead(oracle, old(Done()), Buffer()[..HEADER_SIZE + len])
           == Answer(captures - old(captures), [], status, output[HEADER_SIZE..HEADER_SIZE + responseLen])
    {
      ghost var p: Framed := Buffer()[..HEADER_SIZE + len];
      status, responseLen := OK, 0;
      assert output[HEADER_SIZE..HEADER_SIZE + 0] == [];
      if len != 0 {
        assert PayloadOf(p) != [];
        status := INVALID_LENGTH;
        return;
      }
      assert PayloadOf(p) == [];
      var err := Capture();
      if err == ESP_ERR_TIMEOUT {
        status := NO_DATA;
      } else if err == ESP_ERR_NOT_FINISHED {
        status := BUSY;
      } else if err != ESP_OK {
        status := INTERNAL_ERROR;
      } else {
        var encoded, size := EncodeCode(workingCode, output, HEADER_SIZE, MAX_PAYLOAD);
        if encoded != ESP_OK {
          status := INTERNAL_ERROR;
        } else {
          responseLen := size;
        }
      }
    }

    method ProcessWrite(len: nat) returns (status: Status)
      requires Shape() && HEADER_SIZE + len <= used && len <= MAX_PAYLOAD
      modifies `sent, workingCode, workingCode.symbols
      ensures |old(sent)| <= |sent| && sent[..|old(sent)|] == old(sent)
      ensures DoWrite(oracle, old(Done()), Buffer()[..HEADER_SIZE + len])
           == Answer(0, sent[|old(sent)|..], status, [])
    {
      ghost var p: Framed := Buffer()[..HEADER_SIZE + len];
      assert PayloadOf(p) == input[HEADER_SIZE..HEADER_SIZE + len];
      status := DecodeCode(input, HEADER_SIZE, len, workingCode);
      if status != OK {
        return;
      }
      var err := Send();
      if err == ESP_ERR_TIMEOUT {
        status := BUSY;
      } else if err != ESP_OK {
        status := TX_ERROR;
      }
    }

    method ProcessRequest(len: nat)
      requires Shape() && HEADER_SIZE + len <= used && len <= MAX_PAYLOAD
      modifies `captures, `sent, `replies, output, workingCode, workingCode.symbols
      ensures Done() == Handle(oracle, old(Done()), Received(Buffer()[..HEADER_SIZE + len]))
    {
      hide Reply, DoRead, DoWrite;
      ghost var p: Framed := Buffer()[..HEADER_SIZE + len];
      var status, responseLen := OK, 0;
      if input[4] % 2 == 1 {
        return;
      }
      if input[2] != VERSION || input[4] != 0 || input[5] != 0 {
        Refusal(p, INVALID_PAYLOAD);
        return;
      }
      match input[3] {
        case 1 =>
          status, responseLen := ProcessRead(len);
        case 2 =>
          status := ProcessWrite(len);
        case 3 =>
          if len != 0 {
            status := INVALID_LENGTH;
          }
        case _ =>
          status := INVALID_COMMAND;
      }
      ReplyLocal(Buffer(), p, status, output[HEADER_SIZE..HEADER_SIZE + responseLen]);
      Respond(status, responseLen);
    }

    /** A response without payload to the candidate at the front of the buffer. */
    method Refusal(ghost q: Framed, status: Status)
      requires Shape() && |q| <= used && q == Buffer()[..|q|]
      modifies `replies, output
      ensures Done() == Do(old(Done()), q, Refuse(status))
    {
      assert sent + [] == sent;
      ReplyLocal(Buffer(), q, status, []);
      assert output[HEADER_SIZE..HEADER_SIZE + 0] == [];
      Respond(status, 0);
    }

    method ChecksumMatches(len: nat) returns (ok: bool)
      requires Shape() && HEADER_SIZE + len <= used
      ensures var buf := Buffer();
              ok <==> U32(buf, 12) == Crc32(buf[..12] + buf[HEADER_SIZE..HEADER_SIZE + len])
    {
      hide Crc32;
      ghost var buf := Buffer();
      var crc := PacketCrc(input, len);
      assert input[..12] == buf[..12] && input[HEADER_SIZE..HEADER_SIZE + len] == buf[HEADER_SIZE..HEADER_SIZE + len];
      ok := ReadU32(input, 12) == crc;
    }

    /** What parse_buffer does with a candidate of bad length or bad checksum. */
    method Reject(ghost c: Candidate, status: Status)
      requires Shape() && HEADER_SIZE <= used && Head(c) == Buffer()[..HEADER_SIZE]
      requires (c.TooLong? && status == INVALID_LENGTH) || (c.CrcFailed? && status == CRC_ERROR)
      modifies `used, input, `replies, output
      ensures Shape() && Buffer() == old(Buffer())[1..] && used == old(used) - 1
      ensures Done() == Handle(oracle, old(Done()), c)
    {
      hide Reply;
      if input[4] % 2 != 1 {
        Refusal(Head(c), status);
      }
      Discard(1);
    }

    /** One turn of parse_buffer's loop; false where the source returns to wait for more bytes. */
    method ParseFront() returns (again: bool)
      requires Shape() && used >= 2
      modifies this, input, output, workingCode, workingCode.symbols
      ensures Shape()
      ensures var v := Judge(old(Buffer()));
              && again == (v != Wait)
              && Buffer() == old(Buffer())[Taken(v)..]
              && handled == old(handled) + Handed(v)
              && Done() == HandleAll(oracle, old(Done()), Handed(v))
    {
      hide Crc32, Handle, HandleAll, WellFormed, U32;
      ghost var buf := Buffer();
      ghost var v := Judge(buf);
      handled := handled + Handed(v);
      HandleNone(oracle, Done());
      if input[0] != MAGIC_0 || input[1] != MAGIC_1 {
        Discard(1);
        return true;
      }
      if used < HEADER_SIZE {
        return false;
      }
      var len := ReadU32(input, 8);
      assert input[..][8..12] == buf[8..12];
      U32Local(input[..], 8, buf, 8);
      if len > MAX_PAYLOAD {
        HandleOne(oracle, Done(), TooLong(buf[..HEADER_SIZE]));
        Reject(TooLong(buf[..HEADER_SIZE]), INVALID_LENGTH);
        return true;
      }
      var packetLen := HEADER_SIZE + len;
      if used < packetLen {
        return false;
      }
      var intact := ChecksumMatches(len);
      if !intact {
        HandleOne(oracle, Done(), CrcFailed(buf[..HEADER_SIZE]));
        Reject(CrcFailed(buf[..HEADER_SIZE]), CRC_ERROR);
        return true;
      }
      HandleOne(oracle, Done(), Received(buf[..packetLen]));
      ProcessRequest(len);
      Discard(packetLen);
      return true;
    }

    method ParseBuffer()
      requires Shape()
      modifies this, input, output, workingCode, workingCode.symbols
      ensures Valid() && Buffer() == Scan(old(Buffer())).rest
      ensures handled == old(handled) + Scan(old(Buffer())).found
      ensures Done() == HandleAll(oracle, old(Done()), Scan(old(Buffer())).found)
    {
      hide Judge, HandleAll;
      ghost var all, done := Scan(Buffer()), [];
      HandleNone(oracle, Done());
      assert done + Scan(Buffer()).found == Scan(Buffer()).found;
      while used >= 2
        invariant Shape()
        invariant all == Scanned(done + Scan(Buffer()).found, Scan(Buffer()).rest)
        invariant handled == old(handled) + done
        invariant Done() == HandleAll(oracle, old(Done()), done)
        decreases used
      {
        ghost var v := Judge(Buffer());
        Assoc(done, Handed(v), Scan(Buffer()[Taken(v)..]).found);
        Assoc(old(handled), done, Handed(v));
        HandleAllAppend(oracle, old(Done()), done, Handed(v));
        var again := ParseFront();
        if !again {
          break;
        }
        done := done + Handed(v);
      }
      ShortWaits(Buffer());
      assert done + [] == done;
    }

    method Feed(bytes: seq<byte>)
      requires Valid()
      modifies this, input, output, workingCode, workingCode.symbols
      ensures Valid() && Buffer() == Scan(old(Buffer()) + bytes).rest
      ensures handled == old(handled) + Scan(old(Buffer()) + bytes).found
      ensures Done() == HandleAll(oracle, old(Done()), Scan(old(Buffer()) + bytes).found)
    {
      hide Judge, Scan, HandleAll;
      ghost var start := Buffer();
      ScanWait(start);
      HandleNone(oracle, Done());
      assert start + bytes[..0] == start;
      for i := 0 to |bytes|
        invariant Valid()
        invariant Buffer() == Scan(start + bytes[..i]).rest
        invariant handled == old(handled) + Scan(start + bytes[..i]).found
        invariant Done() == HandleAll(oracle, old(Done()), Scan(start + bytes[..i]).found)
      {
        ghost var before := start + bytes[..i];
        ScanAppend(before, [bytes[i]]);
        assert before + [bytes[i]] == start + bytes[..i + 1];
        ghost var next := Scan(Buffer() + [bytes[i]]).found;
        Assoc(old(handled), Scan(before).found, next);
        HandleAllAppend(oracle, old(Done()), Scan(before).found, next);
        if used == input.Length {
          // The source discards a byte here to make room; that never happens.
          assert false;
        }
        ghost var was := Buffer();
        input[used] := bytes[i];
        used := used + 1;
        assert Buffer() == was + [bytes[i]];
        ParseBuffer();
      }
      assert bytes[..|bytes|] == bytes;
    }

    method Reset()
      requires Valid()
      modifies `used
      ensures Valid() && Buffer() == []
    {
      used := 0;
    }

    method Expire()
      requires Valid()
      modifies this, input, output, workingCode, workingCode.symbols
      ensures Valid() && Buffer() == []
      ensures handled == old(handled) + ScanEnd(old(Buffer()))
      ensures Done() == HandleAll(oracle, old(Done()), ScanEnd(old(Buffer())))
    {
      hide Judge, Scan, HandleAll;
      ghost var all, done := ScanEnd(Buffer()), [];
      HandleNone(oracle, Done());
      assert done + ScanEnd(Buffer()) == ScanEnd(Buffer());
      while used > 0
        invariant Valid()
        invariant all == done + ScanEnd(Buffer())
        invariant handled == old(handled) + done
        invariant Done() == HandleAll(oracle, old(Done()), done)
        decreases used
      {
        ghost var dropped := Scan(Buffer()[1..]);
        ScanEndDrop(Buffer());
        ScanRest(Buffer()[1..]);
        Assoc(done, dropped.found, ScanEnd(dropped.rest));
        Assoc(old(handled), done, dropped.found);
        HandleAllAppend(oracle, old(Done()), done, dropped.found);
        Discard(1);
        ParseBuffer();
        done := done + dropped.found;
      }
      assert done + ScanEnd([]) == done;
    }
  }

  lemma SliceOfTail(a: array<byte>, len: nat)
    requires HEADER_SIZE + len <= a.Length
    ensures a[HEADER_SIZE..HEADER_SIZE + len] == a[12..][4..4 + len]
  {
    var tail := a[12..];
    var payload, slice := a[HEADER_SIZE..HEADER_SIZE + len], tail[4..4 + len];
    forall i | 0 <= i < len
      ensures payload[i] == slice[i]
    {
      assert slice[i] == tail[4 + i] == a[16 + i];
    }
  }

  lemma HandleOne(o: Oracle, w: World, c: Candidate)
    ensures HandleAll(o, w, [c]) == Handle(o, w, c)
  {
    assert [c][..0] == [];
  }

  lemma HandleNone(o: Oracle, w: World)
    ensures HandleAll(o, w, []) == w
  {
  }

  lemma ShortWaits(buf: seq<byte>)
    ensures |buf| < 2 ==> Judge(buf) == Wait
  {
  }

  lemma ReplyLocal(p: Framed, q: Framed, status: Status, payload: Payload)
    requires p[..HEADER_SIZE] == q[..HEADER_SIZE]
    ensures Reply(p, status, payload) == Reply(q, status, payload)
  {
    hide Packet;
    assert p[3] == p[..HEADER_SIZE][3] && p[6] == p[..HEADER_SIZE][6] && p[7] == p[..HEADER_SIZE][7];
  }
}
