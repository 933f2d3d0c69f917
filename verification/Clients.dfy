/**
 The three receivers of responses: the Python command line tool, which reads exactly the bytes
 it still needs; the Python serial client, which reads one byte at a time; and the HAL, which
 reads up to 256 bytes at a time.
 */
module Clients {
  import opened Bytes
  import opened Codec
  import opened Crc
  import opened Packets
  import opened Scanner
  import opened FtdiDriver
  import opened Silences

  /** What a receiver is waiting for; a strict one wants the flags to be exactly 1. */
  datatype Query = Query(command: byte, sequence: u16, strict: bool)

  datatype Outcome = Got(status: byte, payload: seq<byte>) | TimedOut | OsError(errno: Errno) | Refused

  predicate Matches(q: Query, p: Framed) {
    && p[2] == VERSION && p[3] == q.command && U16(p, 6) == q.sequence
    && if q.strict then p[4] == RESPONSE else IsResponse(p)
  }

  /** The first response in a list of candidates. */
  function FirstMatch(q: Query, found: seq<Candidate>): Option<Framed> {
    if found == [] then None
    else if found[0].Received? && Matches(q, found[0].packet) then Some(found[0].packet)
    else FirstMatch(q, found[1..])
  }

  /** What a receiver returns once this much of the stream has reached it. */
  function Answer(q: Query, stream: seq<byte>): Option<Framed> {
    FirstMatch(q, Scan(stream).found)
  }

  /** The outcome is the answer in the bytes received so far. */
  predicate Faithful(q: Query, r: Outcome, received: seq<byte>) {
    match Answer(q, received)
    case None => !r.Got?
    case Some(p) => r == Got(p[5], PayloadOf(p))
  }

  /**
   The outcome is the status and payload of an intact packet among these bytes: a response, of
   version 1, to this command with this sequence number.
   */
  ghost predicate Genuine(command: byte, sequence: u16, strict: bool, r: Outcome, received: seq<byte>) {
    exists p: Framed | Within(p, received) ::
      && WellFormed(p)
      && p[2] == 1 && p[3] == command && U16(p, 6) == sequence
      && (if strict then p[4] == 1 else p[4] % 2 == 1)
      && r == Got(p[5], p[16..])
  }

  lemma {:induction false} FirstMatchFound(q: Query, found: seq<Candidate>)
    requires FirstMatch(q, found).Some?
    ensures Received(FirstMatch(q, found).value) in found && Matches(q, FirstMatch(q, found).value)
    decreases |found|
  {
    hide Matches;
    if !(found[0].Received? && Matches(q, found[0].packet)) {
      FirstMatchFound(q, found[1..]);
    }
  }

  lemma AnswerIsGenuine(q: Query, r: Outcome, received: seq<byte>)
    requires Faithful(q, r, received)
    ensures r.Got? ==> Genuine(q.command, q.sequence, q.strict, r, received)
  {
    hide Scan, Within, WellFormed;
    if r.Got? {
      FirstMatchFound(q, Scan(received).found);
      FoundWithin(received, Received(Answer(q, received).value));
    }
  }

  lemma {:induction false} FirstMatchAppend(q: Query, found: seq<Candidate>, more: seq<Candidate>)
    ensures FirstMatch(q, found + more) ==
            if FirstMatch(q, found).Some? then FirstMatch(q, found) else FirstMatch(q, more)
    decreases |found|
  {
    if found == [] {
      assert found + more == more;
    } else {
      FirstMatchAppend(q, found[1..], more);
      DropAppend(found, more, 1);
    }
  }

  /** An answer never changes when more of the stream arrives. */
  lemma AnswerStable(q: Query, stream: seq<byte>, more: seq<byte>)
    requires Answer(q, stream).Some?
    ensures Answer(q, stream + more) == Answer(q, stream)
  {
    hide Scan;
    ScanAppend(stream, more);
    FirstMatchAppend(q, Scan(stream).found, Scan(Scan(stream).rest + more).found);
  }

  /**
   Two receivers of one stream, however much each has read, both return the same response or both
   give up, as long as one that gives up has read everything.
   */
  lemma ReceiversAgree(q: Query, r: Outcome, received: seq<byte>, r': Outcome, received': seq<byte>, stream: seq<byte>)
    requires received <= stream && received' <= stream
    requires Faithful(q, r, received) && Faithful(q, r', received')
    requires !r.Got? ==> received == stream
    requires !r'.Got? ==> received' == stream
    ensures r.Got? <==> r'.Got?
    ensures r.Got? ==> r == r'
  {
    hide Answer;
    ReceiverIsFaithful(q, r, received, stream);
    ReceiverIsFaithful(q, r', received', stream);
  }

  /** A receiver that returns, or has read everything, is faithful to the whole stream. */
  lemma ReceiverIsFaithful(q: Query, r: Outcome, received: seq<byte>, stream: seq<byte>)
    requires received <= stream && Faithful(q, r, received)
    requires !r.Got? ==> received == stream
    ensures Faithful(q, r, stream)
  {
    hide Answer;
    if r.Got? {
      assert received + stream[|received|..] == stream;
      AnswerStable(q, received, stream[|received|..]);
    }
  }

  /**
   The strict receiver stops at the packet where the others stop if and only if that packet's
   flags are exactly 1; in particular whenever all packets carry flags 0 or 1.
   */
  lemma {:induction false} StrictStopsThere(q: Query, found: seq<Candidate>)
    requires !q.strict && FirstMatch(q, found).Some?
    ensures var p := FirstMatch(q, found).value;
            FirstMatch(q.(strict := true), found) == Some(p) <==> p[4] == RESPONSE
    decreases |found|
  {
    if !(found[0].Received? && Matches(q, found[0].packet)) {
      StrictStopsThere(q, found[1..]);
    } else if FirstMatch(q.(strict := true), found).Some? {
      FirstMatchFound(q.(strict := true), found);
    }
  }

  lemma {:induction false} FlagsZeroOrOne(q: Query, found: seq<Candidate>)
    requires forall c | c in found && c.Received? :: c.packet[4] == 0 || c.packet[4] == RESPONSE
    ensures FirstMatch(q.(strict := true), found) == FirstMatch(q.(strict := false), found)
    decreases |found|
  {
    if found != [] {
      assert found[0] in found;
      FlagsZeroOrOne(q, found[1..]);
    }
  }

  /**
   On any stream that has an answer, the serial client returns it too if and only if that packet's
   flags are exactly 1.
   */
  lemma StrictAnswer(q: Query, stream: seq<byte>)
    requires !q.strict && Answer(q, stream).Some?
    ensures Answer(q.(strict := true), stream) == Answer(q, stream) <==> Answer(q, stream).value[4] == RESPONSE
  {
    hide Scan;
    StrictStopsThere(q, Scan(stream).found);
  }

  /** A response with a reserved flag set: the command line tool and the HAL return it, the serial client does not. */
  lemma StrictMisses(command: byte, sequence: u16)
    ensures var stream := Packet(command, 3, OK.Wire(), sequence, []);
            && Answer(Query(command, sequence, false), stream) == Some(stream)
            && Answer(Query(command, sequence, true), stream) == None
  {
    hide Scan, Packet, WellFormed;
    var stream := Packet(command, 3, OK.Wire(), sequence, []);
    PacketFields(command, 3, OK.Wire(), sequence, []);
    ScanAlone(stream);
    var found := [Received(stream)];
    assert found[1..] == [];
    assert FirstMatch(Query(command, sequence, true), found[1..]) == None;
  }

  /**
   With flags 0 or 1 throughout, the serial client and the other two return the same response or
   all give up.
   */
  lemma StrictReceiverAgrees(q: Query, r: Outcome, received: seq<byte>, r': Outcome, received': seq<byte>,
                             stream: seq<byte>)
    requires received <= stream && received' <= stream
    requires forall c | c in Scan(stream).found && c.Received? :: c.packet[4] == 0 || c.packet[4] == RESPONSE
    requires Faithful(q.(strict := false), r, received) && Faithful(q.(strict := true), r', received')
    requires !r.Got? ==> received == stream
    requires !r'.Got? ==> received' == stream
    ensures r.Got? <==> r'.Got?
    ensures r.Got? ==> r == r'
  {
    hide Scan;
    ReceiverIsFaithful(q.(strict := false), r, received, stream);
    ReceiverIsFaithful(q.(strict := true), r', received', stream);
    FlagsZeroOrOne(q, Scan(stream).found);
  }

  /** The parsing loop of the serial client and the HAL: up to the first match, or until more bytes are needed. */
  method Drain(q: Query, buffer: seq<byte>) returns (hit: Option<Framed>, rest: seq<byte>)
    ensures hit == Answer(q, buffer)
    ensures hit.Some? ==> Genuine(q.command, q.sequence, q.strict, Got(hit.value[5], hit.value[16..]), buffer)
    ensures hit == None ==> rest == Scan(buffer).rest && Judge(rest) == Wait
  {
    hide Scan, Answer, Genuine, Matches, WellFormed, Crc32, U32;
    rest := buffer;
    hit := None;
    while |rest| >= 2
      invariant Answer(q, buffer) == Answer(q, rest)
      invariant Scan(buffer).rest == Scan(rest).rest
      decreases |rest|
    {
      NextVerdict(q, rest);
      if rest[0] != MAGIC_0 || rest[1] != MAGIC_1 {
        rest := rest[1..];
        continue;
      }
      if |rest| < HEADER_SIZE {
        return;
      }
      var len := U32(rest, 8);
      if len > MAX_PAYLOAD {
        rest := rest[1..];
        continue;
      }
      var size := HEADER_SIZE + len;
      if |rest| < size {
        return;
      }
      if Crc32(rest[..12] + rest[HEADER_SIZE..size]) != U32(rest, 12) {
        rest := rest[1..];
        continue;
      }
      var packet: Framed := rest[..size];
      rest := rest[size..];
      if Matches(q, packet) {
        AnswerIsGenuine(q, Got(packet[5], PayloadOf(packet)), buffer);
        return Some(packet), rest;
      }
    }
    NextVerdict(q, rest);
  }

  /** How the verdict on the front of the buffer moves the search on. */
  lemma NextVerdict(q: Query, buffer: seq<byte>)
    ensures var v := Judge(buffer);
            && (v == Wait ==> Answer(q, buffer) == None && Scan(buffer).rest == buffer)
            && (v != Wait ==> Scan(buffer).rest == Scan(buffer[Taken(v)..]).rest)
            && (v.Noise? || v.Rejected? ==> Answer(q, buffer) == Answer(q, buffer[1..]))
            && (v.Whole? ==> Answer(q, buffer) == if Matches(q, v.packet) then Some(v.packet)
                                                  else Answer(q, buffer[|v.packet|..]))
  {
    var v := Judge(buffer);
    if v != Wait {
      hide Judge;
      FirstMatchAppend(q, Handed(v), Scan(buffer[Taken(v)..]).found);
    }
  }

  /** What a receiver knows between two reads: nothing matched, and the buffer waits. */
  ghost predicate Searching(q: Query, received: seq<byte>, buffer: seq<byte>) {
    Answer(q, received) == None && Scan(received).rest == buffer && Judge(buffer) == Wait
  }

  lemma SearchBegins(q: Query)
    ensures Searching(q, [], [])
  {
  }

  /** Reading a chunk moves the question from the whole stream to the buffer. */
  lemma ChunkArrives(q: Query, received: seq<byte>, buffer: seq<byte>, chunk: seq<byte>)
    requires Searching(q, received, buffer)
    ensures Answer(q, received + chunk) == Answer(q, buffer + chunk)
    ensures Scan(received + chunk).rest == Scan(buffer + chunk).rest
    ensures |buffer| < MAX_PACKET
  {
    hide Scan, Judge;
    ScanAppend(received, chunk);
    ScanRest(received);
    FirstMatchAppend(q, Scan(received).found, Scan(buffer + chunk).found);
  }

  /** receive of the serial client; None in the arrivals stands for a read that timed out. */
  method SerialReceive(command: byte, sequence: u16, arrivals: seq<Option<byte>>)
    returns (r: Outcome, turns: nat)
    ensures turns <= |arrivals| && Faithful(Query(command, sequence, true), r, Arrived(arrivals[..turns]))
    ensures r.Got? ==> Genuine(command, sequence, true, r, Arrived(arrivals[..turns]))
    ensures r.Got? || (r == TimedOut && turns == |arrivals|)
  {
    hide Answer, Genuine, Scan, Judge;
    var q := Query(command, sequence, true);
    var data := [];
    ghost var received := [];
    SearchBegins(q);
    assert arrivals[..0] == [];
    for i := 0 to |arrivals|
      invariant received == Arrived(arrivals[..i])
      invariant Searching(q, received, data)
    {
      ArrivedSplit(arrivals, i);
      var chunk := if arrivals[i].Some? then [arrivals[i].value] else [];
      ChunkArrives(q, received, data, chunk);
      received := received + chunk;
      var hit, rest := Drain(q, data + chunk);
      if hit.Some? {
        r := Got(hit.value[5], PayloadOf(hit.value));
        AnswerIsGenuine(q, r, received);
        return r, i + 1;
      }
      data := rest;
    }
    return TimedOut, |arrivals|;
  }

  function Arrived(arrivals: seq<Option<byte>>): seq<byte> {
    if arrivals == [] then []
    else
      var last := arrivals[|arrivals| - 1];
      Arrived(arrivals[..|arrivals| - 1]) + if last.Some? then [last.value] else []
  }

  lemma {:induction false} ArrivedSplit(arrivals: seq<Option<byte>>, i: nat)
    requires i < |arrivals|
    ensures Arrived(arrivals[..i + 1]) == Arrived(arrivals[..i]) + if arrivals[i].Some? then [arrivals[i].value] else []
    ensures Arrived(arrivals[..i + 1]) <= Arrived(arrivals) && Arrived(arrivals[..i]) <= Arrived(arrivals)
  {
    assert arrivals[..i + 1][..i] == arrivals[..i];
    if i + 1 < |arrivals| {
      var front := arrivals[..|arrivals| - 1];
      ArrivedSplit(front, i);
      assert front[..i + 1] == arrivals[..i + 1] && front[..i] == arrivals[..i];
    } else {
      assert arrivals[..i + 1] == arrivals;
    }
  }

  lemma ReadUnread(trace: seq<UsbEvent>, before: nat, after: nat)
    requires before <= after <= |trace|
    ensures Contents(trace[before..]) == Contents(trace[before..after]) + Contents(trace[after..])
  {
    ContentsAppend(trace[before..after], trace[after..]);
    Join(trace, before, after, |trace|);
    assert trace[before..|trace|] == trace[before..] && trace[after..|trace|] == trace[after..];
  }

  /** os.read: a read system call on the open device. */
  method OsRead(dev: IrDevice, count: nat) returns (r: Result)
    requires dev.Valid() && count > 0
    modifies dev`rxLen, dev`rxOffset, dev`pos, dev.rxData, dev`served
    ensures dev.served == old(dev.served) + [Served(count, r)]
    ensures dev.Valid() && dev.pos >= old(dev.pos)
    ensures OneRead(count, old(dev.Pending()), dev.trace[old(dev.pos)..dev.pos], DataOf(r), dev.Pending(), dev.Dry())
    ensures match r
            case Bytes(data) => 1 <= |data| <= count && data + dev.Unread() == old(dev.Unread())
            case Failed(errno) =>
              && dev.Unread() == old(dev.Unread())
              && dev.Pending() == [] && dev.Explained(old(dev.pos), errno)
              && (dev.pos == old(dev.pos) ==> errno == ENODEV || (errno == ETIMEDOUT && dev.pos == |dev.trace|))
  {
    hide Contents, OneRead;
    ghost var pos, pending := dev.pos, dev.Pending();
    r := dev.Read(count, true, None);
    ReadUnread(dev.trace, pos, dev.pos);
    Assoc(pending, Contents(dev.trace[pos..dev.pos]), Contents(dev.trace[dev.pos..]));
    Assoc(DataOf(r), dev.Pending(), Contents(dev.trace[dev.pos..]));
    assert r.Failed? ==> DataOf(r) + dev.Pending() == dev.Pending();
  }

  /** All that a list of reads returned. */
  function Returned(calls: seq<Served>): seq<byte> {
    if calls == [] then [] else Returned(calls[..|calls| - 1]) + DataOf(calls[|calls| - 1].result)
  }

  lemma ReturnedNext(calls: seq<Served>, call: Served)
    ensures Returned(calls + [call]) == Returned(calls) + DataOf(call.result)
  {
    assert (calls + [call])[..|calls + [call]| - 1] == calls;
  }

  /** Each read asks for what its client asks for after what it has received, and returns no more. */
  ghost predicate AsksInTurn(rd: Reader, calls: seq<Served>) {
    forall i | 0 <= i < |calls| ::
      calls[i].count == Asks(rd, Returned(calls[..i])) && |DataOf(calls[i].result)| <= calls[i].count
  }

  lemma AsksNext(rd: Reader, calls: seq<Served>, call: Served)
    requires AsksInTurn(rd, calls)
    requires call.count == Asks(rd, Returned(calls)) && |DataOf(call.result)| <= call.count
    ensures AsksInTurn(rd, calls + [call])
  {
    hide Asks, Returned;
    var all := calls + [call];
    forall i | 0 <= i < |all|
      ensures all[i].count == Asks(rd, Returned(all[..i])) && |DataOf(all[i].result)| <= all[i].count
    {
      if i < |calls| {
        assert all[..i] == calls[..i] && all[i] == calls[i];
      } else {
        assert all[..i] == calls && all[i] == call;
      }
    }
  }

  /**
   What the buffer holds when a read has been added to it: the bytes that still wait, and those
   read. The tool never holds more than one packet, nor reads beyond the candidate it waits for.
   */
  lemma BufferBound(rd: Reader, calls: seq<Served>, i: nat)
    requires AsksInTurn(rd, calls) && i < |calls|
    ensures var waiting := Scan(Returned(calls[..i])).rest;
            var size := |waiting| + |DataOf(calls[i].result)|;
            && Judge(waiting) == Wait
            && match rd
               case Service => calls[i].count == 256 && size < 1052 + 256
               case Tool => calls[i].count <= Needed(waiting) && calls[i].count <= 256 && size <= 1052
  {
    hide Scan, Judge, Returned;
    ScanRest(Returned(calls[..i]));
  }

  /** The client can get an answer out of these events: some number of them bring it, and none of those is fatal. */
  ghost predicate Gets(rd: Reader, q: Query, initial: seq<byte>, events: seq<UsbEvent>) {
    exists k: nat | k <= |events| ::
      Answer(q, Stream(initial, events[..k])).Some? && Survives(rd, initial, events[..k])
  }

  /** The client stops at the first fatal event, which comes before any answer. */
  ghost predicate Stops(rd: Reader, q: Query, initial: seq<byte>, events: seq<UsbEvent>, errno: Errno) {
    exists k: nat | k <= |events| ::
      StopsAt(rd, initial, events, k, errno) && Answer(q, Stream(initial, events[..k])) == None
  }

  lemma ContentsPrefix(events: seq<UsbEvent>, k: nat, m: nat)
    requires k <= m <= |events|
    ensures Contents(events[..k]) <= Contents(events[..m])
  {
    hide Content;
    ContentsAppend(events[..k], events[k..m]);
    assert events[..m] == events[..k] + events[k..m];
  }

  lemma NoEarlierAnswer(q: Query, initial: seq<byte>, events: seq<UsbEvent>, k: nat, m: nat)
    requires k <= m <= |events|
    requires Answer(q, Stream(initial, events[..m])) == None
    ensures Answer(q, Stream(initial, events[..k])) == None
  {
    hide Answer, Contents;
    ContentsPrefix(events, k, m);
    var s, t := Stream(initial, events[..k]), Stream(initial, events[..m]);
    assert t == s + t[|s|..];
    if Answer(q, s).Some? {
      AnswerStable(q, s, t[|s|..]);
    }
  }

  /** A client that stops gets nothing. */
  lemma StopsOrGets(rd: Reader, q: Query, initial: seq<byte>, events: seq<UsbEvent>, errno: Errno)
    requires Stops(rd, q, initial, events, errno)
    ensures !Gets(rd, q, initial, events)
  {
    hide Answer, Stream, StopsAt, Survives;
    var k: nat :| k <= |events| && StopsAt(rd, initial, events, k, errno)
                  && Answer(q, Stream(initial, events[..k])) == None;
    forall m: nat | m <= |events| && Survives(rd, initial, events[..m])
      ensures Answer(q, Stream(initial, events[..m])) == None
    {
      if m > k {
        StopsForGood(rd, initial, events, k, errno, m);
      }
      NoEarlierAnswer(q, initial, events, m, k);
    }
  }

  /** Nor does one that has had everything. */
  lemma NothingToGet(rd: Reader, q: Query, initial: seq<byte>, events: seq<UsbEvent>)
    requires Answer(q, Stream(initial, events)) == None
    ensures !Gets(rd, q, initial, events)
  {
    hide Answer, Stream, Survives;
    assert events[..|events|] == events;
    forall m: nat | m <= |events|
      ensures Answer(q, Stream(initial, events[..m])) == None
    {
      NoEarlierAnswer(q, initial, events, m, |events|);
    }
  }

  /**
   A wait under way: the reads so far, what is buffered and what is still to come are accounted
   for, and nothing fatal has been met.
   */
  ghost predicate Waiting(rd: Reader, dev: IrDevice, start: nat, initial: seq<byte>, whole: seq<byte>,
                          calls: seq<Served>)
    reads dev, dev.rxData
  {
    && dev.Valid() && start <= dev.pos
    && AsksInTurn(rd, calls)
    && Returned(calls) + dev.Unread() == whole
    && Returned(calls) + dev.Pending() == Stream(initial, dev.trace[start..dev.pos])
    && Between(rd, initial, dev.trace[start..dev.pos], |Returned(calls)|, Dry(dev.trace[dev.pos..]))
  }

  lemma WaitBegins(rd: Reader, q: Query, dev: IrDevice)
    requires dev.Valid()
    ensures Searching(q, [], []) && Returned([]) == []
    ensures Waiting(rd, dev, dev.pos, dev.Pending(), dev.Unread(), [])
  {
    hide Settle;
    SearchBegins(q);
    NoContents(dev.trace, dev.pos);
    assert [] + dev.Pending() == dev.Pending() + [];
    assert [] + dev.Unread() == dev.Unread();
  }

  /** The answer is in what has been received. */
  lemma GetsNow(rd: Reader, q: Query, dev: IrDevice, start: nat, initial: seq<byte>, whole: seq<byte>,
                calls: seq<Served>)
    requires Waiting(rd, dev, start, initial, whole, calls) && Answer(q, Returned(calls)).Some?
    ensures Gets(rd, q, initial, dev.trace[start..])
  {
    hide Answer, Stream, Survives, Settle, Begun, Returned, AsksInTurn;
    AnswerStable(q, Returned(calls), dev.Pending());
    assert dev.trace[start..][..dev.pos - start] == dev.trace[start..dev.pos];
  }

  lemma StopsNow(rd: Reader, q: Query, initial: seq<byte>, trace: seq<UsbEvent>, start: nat, pos: nat, k: nat,
                 errno: Errno)
    requires start <= pos <= |trace| && k <= pos - start
    requires Answer(q, Stream(initial, trace[start..pos])) == None
    requires StopsAt(rd, initial, trace[start..], k, errno)
    ensures Stops(rd, q, initial, trace[start..], errno)
  {
    hide Answer, Stream, StopsAt;
    assert trace[start..][..pos - start] == trace[start..pos];
    NoEarlierAnswer(q, initial, trace[start..], k, pos - start);
  }

  /** What one read adds to the account of a wait. */
  lemma ReadAdds(initial: seq<byte>, met: seq<UsbEvent>, more: seq<UsbEvent>, count: nat, received: seq<byte>,
                 pending: seq<byte>, data: seq<byte>, left: seq<byte>, dry: bool)
    requires received + pending == Stream(initial, met) && OneRead(count, pending, more, data, left, dry)
    ensures pending == Stream(initial, met)[|received|..] && received == Stream(initial, met)[..|received|]
    ensures received + data + left == Stream(initial, met + more)
  {
    hide Stream, Flowing, Content;
    Parts(received, pending);
    StreamAppend(initial, met, more);
    Assoc(received, data, left);
    Assoc(received, pending, Contents(more));
  }

  /** One read in terms of the whole wait. */
  method Fetch(dev: IrDevice, count: nat, ghost rd: Reader, ghost q: Query, ghost start: nat, ghost initial: seq<byte>,
               ghost whole: seq<byte>, ghost calls: seq<Served>) returns (r: Result)
    requires dev.Valid() && Waiting(rd, dev, start, initial, whole, calls)
    requires Answer(q, Returned(calls)) == None && count == Asks(rd, Returned(calls))
    modifies dev`rxLen, dev`rxOffset, dev`pos, dev.rxData, dev`served
    ensures dev.Valid() && old(dev.pos) <= dev.pos
    ensures dev.served == old(dev.served) + [Served(count, r)]
    ensures r.Bytes? ==> 0 < |r.data| <= count
    ensures Returned(calls + [Served(count, r)]) == Returned(calls) + DataOf(r)
    ensures AsksInTurn(rd, calls + [Served(count, r)])
    ensures Returned(calls) + DataOf(r) + dev.Unread() == whole
    ensures |dev.Unread()| == |old(dev.Unread())| - |DataOf(r)|
    ensures r.Failed? && Retries(rd, r.errno) ==> old(dev.pos) < dev.pos || r.errno == ETIMEDOUT
    ensures r.Failed? && dev.pos == old(dev.pos) ==>
              r.errno == ENODEV || (r.errno == ETIMEDOUT && dev.pos == |dev.trace|)
    ensures r.Failed? ==> dev.Pending() == []
    ensures r.Bytes? || Retries(rd, r.errno) ==> Waiting(rd, dev, start, initial, whole, calls + [Served(count, r)])
    ensures r.Failed? && !Retries(rd, r.errno) ==> Stops(rd, q, initial, dev.trace[start..], r.errno)
  {
    hide Contents, Content, OneRead, Between, Answer, StopsAt, Stream, Good, Stops, Asks, AsksInTurn, Returned;
    hide IrDevice.Unread, IrDevice.Pending;
    ghost var before, pending, received := dev.pos, dev.Pending(), Returned(calls);
    r := OsRead(dev, count);
    ghost var met, more, rest := dev.trace[start..before], dev.trace[before..dev.pos], dev.trace[dev.pos..];
    Rests(dev.trace, start, before, dev.pos);
    DryHere(dev);
    ReadAdds(initial, met, more, count, received, pending, DataOf(r), dev.Pending(), Dry(rest));
    ReturnedNext(calls, Served(count, r));
    AsksNext(rd, calls, Served(count, r));
    Assoc(received, DataOf(r), dev.Unread());
    if r.Bytes? {
      if more != [] {
        PluggedIn(more, rest, count, pending, r.data, dev.Pending());
      }
      ReadReturns(rd, initial, met, |received|, Dry(more + rest), more, r.data, dev.Pending(), Dry(rest));
    } else {
      assert [] + dev.Unread() == dev.Unread() && received + [] == received;
      assert received + dev.Pending() == received;
      ghost var k := ReadGivesUp(rd, initial, met, |received|, more, dev.Pending(), rest, r.errno);
      if !Retries(rd, r.errno) {
        StopsNow(rd, q, initial, dev.trace, start, dev.pos, k, r.errno);
      }
    }
  }

  lemma Rests(trace: seq<UsbEvent>, start: nat, before: nat, pos: nat)
    requires start <= before <= pos <= |trace|
    ensures trace[start..before] + trace[before..pos] == trace[start..pos]
    ensures trace[before..pos] + trace[pos..] == trace[before..]
    ensures trace[start..pos] + trace[pos..] == trace[start..]
  {
  }

  lemma DryHere(dev: IrDevice)
    requires dev.Valid()
    ensures dev.Dry() == Dry(dev.trace[dev.pos..])
  {
  }

  lemma NothingUnread(dev: IrDevice)
    requires dev.Valid() && dev.Pending() == [] && dev.pos == |dev.trace|
    ensures dev.Unread() == []
  {
    NoContents(dev.trace, dev.pos);
    assert dev.trace[dev.pos..] == dev.trace[dev.pos..dev.pos];
  }

  /** The response loop of the HAL's exchangePacket, reading through the driver. */
  method HalReceive(dev: IrDevice, command: byte, sequence: u16) returns (r: Outcome, ghost calls: seq<Served>)
    requires dev.Valid()
    modifies dev`rxLen, dev`rxOffset, dev`pos, dev.rxData, dev`served
    ensures dev.Valid() && dev.served == old(dev.served) + calls && AsksInTurn(Service, calls)
    ensures Returned(calls) + dev.Unread() == old(dev.Unread())
    ensures Faithful(Query(command, sequence, false), r, Returned(calls))
    ensures r.Got? ==> Genuine(command, sequence, false, r, Returned(calls))
    ensures r.Got? || r.OsError?
    // Which of the two it is depends on nothing but the events.
    ensures r.Got? <==> Gets(Service, Query(command, sequence, false), old(dev.Pending()), dev.trace[old(dev.pos)..])
    ensures r.OsError? ==>
              Stops(Service, Query(command, sequence, false), old(dev.Pending()), dev.trace[old(dev.pos)..], r.errno)
  {
    hide Answer, Genuine, Scan, Judge, Contents, Waiting, Gets, Stops, Returned, AsksInTurn;
    hide IrDevice.Pending, IrDevice.Unread;
    var q := Query(command, sequence, false);
    var rxBuffer := [];
    ghost var start, initial, whole := dev.pos, dev.Pending(), dev.Unread();
    calls := [];
    WaitBegins(Service, q, dev);
    assert dev.served + calls == dev.served;
    while true
      invariant dev.Valid() && dev.served == old(dev.served) + calls
      invariant Waiting(Service, dev, start, initial, whole, calls)
      invariant Searching(q, Returned(calls), rxBuffer)
      decreases |dev.Unread()| + |dev.trace| - dev.pos
    {
      var chunk := Fetch(dev, READ_SIZE, Service, q, start, initial, whole, calls);
      ghost var received := Returned(calls);
      Assoc(old(dev.served), calls, [Served(READ_SIZE, chunk)]);
      calls := calls + [Served(READ_SIZE, chunk)];
      if chunk.Failed? {
        assert received + [] == received;
        if chunk.errno == EINTR || chunk.errno == EAGAIN {
          continue;
        }
        StopsOrGets(Service, q, initial, dev.trace[start..], chunk.errno);
        return OsError(chunk.errno), calls;
      }
      ChunkArrives(q, received, rxBuffer, chunk.data);
      rxBuffer := rxBuffer + chunk.data;
      var hit, rest := Drain(q, rxBuffer);
      if hit.Some? {
        Accounted(Service, dev, start, initial, whole, calls);
        GetsNow(Service, q, dev, start, initial, whole, calls);
        r := Got(hit.value[5], PayloadOf(hit.value));
        AnswerIsGenuine(q, r, Returned(calls));
        return r, calls;
      }
      rxBuffer := rest;
    }
  }

  lemma Accounted(rd: Reader, dev: IrDevice, start: nat, initial: seq<byte>, whole: seq<byte>, calls: seq<Served>)
    requires Waiting(rd, dev, start, initial, whole, calls)
    ensures AsksInTurn(rd, calls) && Returned(calls) + dev.Unread() == whole
  {
  }

  /** One turn of the command line tool's loop up to its read: needed is 0 when it goes round again or returns. */
  method CliTurn(q: Query, data: seq<byte>) returns (needed: nat, hit: Option<Framed>, rest: seq<byte>)
    ensures needed > 0 ==> Judge(data) == Wait && needed == Needed(data) && hit == None && rest == data
    ensures needed == 0 ==> |rest| < |data| && Scan(data).rest == Scan(rest).rest
    ensures needed == 0 ==> Answer(q, data) == if hit == None then Answer(q, rest) else hit
  {
    hide Scan, Answer, WellFormed, Matches, Crc32;
    NextVerdict(q, data);
    hit := None;
    rest := data;
    if |data| < 2 {
      needed := 2 - |data|;
    } else if data[0] != MAGIC_0 || data[1] != MAGIC_1 {
      return 0, None, data[1..];
    } else if |data| < HEADER_SIZE {
      needed := HEADER_SIZE - |data|;
    } else {
      var len := U32(data, 8);
      if len > MAX_PAYLOAD {
        return 0, None, data[1..];
      }
      var size := HEADER_SIZE + len;
      if |data| >= size {
        var packet: Framed := data[..size];
        if Crc32(packet[..12] + packet[HEADER_SIZE..]) != U32(packet, 12) {
          CrcOfPrefix(data, size);
          return 0, None, data[1..];
        }
        CrcOfPrefix(data, size);
        return 0, if Matches(q, packet) then Some(packet) else None, data[size..];
      }
      needed := size - |data|;
    }
  }

  lemma CrcOfPrefix(data: seq<byte>, size: nat)
    requires HEADER_SIZE <= size <= |data|
    ensures data[..size][..12] + data[..size][HEADER_SIZE..] == data[..12] + data[HEADER_SIZE..size]
    ensures U32(data[..size], 12) == U32(data, 12)
  {
    U32Local(data[..size], 12, data, 12);
  }

  /**
   The bytes asked for always fit a maximum-size packet, and with fewer of them the candidate at
   the front could not be judged: no read goes beyond it.
   */
  lemma NeededIsMinimal(buffer: seq<byte>, chunk: seq<byte>)
    requires Judge(buffer) == Wait
    ensures Needed(buffer) > 0 && |buffer| + Needed(buffer) <= MAX_PACKET
    ensures |chunk| < Needed(buffer) ==> Judge(buffer + chunk) == Wait
  {
    hide Crc32;
    if |buffer| >= HEADER_SIZE && |chunk| < Needed(buffer) {
      U32Local(buffer, 8, buffer + chunk, 8);
    }
  }

  /** receive of the command line tool, reading through the driver. */
  method CliReceive(dev: IrDevice, command: byte, sequence: u16) returns (r: Outcome, ghost calls: seq<Served>)
    requires dev.Valid()
    modifies dev`rxLen, dev`rxOffset, dev`pos, dev.rxData, dev`served
    ensures dev.Valid() && dev.served == old(dev.served) + calls && AsksInTurn(Tool, calls)
    ensures Returned(calls) + dev.Unread() == old(dev.Unread())
    ensures Faithful(Query(command, sequence, false), r, Returned(calls))
    ensures r.Got? ==> Genuine(command, sequence, false, r, Returned(calls))
    ensures r != Outcome.Refused
    // Which of the three it is depends on nothing but the events.
    ensures r.Got? <==> Gets(Tool, Query(command, sequence, false), old(dev.Pending()), dev.trace[old(dev.pos)..])
    ensures r.OsError? ==>
              && !Retries(Tool, r.errno)
              && Stops(Tool, Query(command, sequence, false), old(dev.Pending()), dev.trace[old(dev.pos)..], r.errno)
    // Time runs out only after everything that will ever arrive has been read.
    ensures r == TimedOut ==>
              Returned(calls) == old(dev.Unread()) && Survives(Tool, old(dev.Pending()), dev.trace[old(dev.pos)..])
  {
    hide Answer, Genuine, Scan, Judge, Contents, Waiting, Gets, Stops, Returned, AsksInTurn;
    hide IrDevice.Pending, IrDevice.Unread;
    hide Survives;
    var q := Query(command, sequence, false);
    var data: seq<byte> := [];
    ghost var start, initial, whole := dev.pos, dev.Pending(), dev.Unread();
    calls := [];
    WaitBegins(Tool, q, dev);
    assert dev.served + calls == dev.served;
    while true
      invariant dev.Valid() && dev.served == old(dev.served) + calls
      invariant Waiting(Tool, dev, start, initial, whole, calls)
      invariant Answer(q, Returned(calls)) == Answer(q, data) && Scan(Returned(calls)).rest == Scan(data).rest
      decreases |dev.Unread()| + |dev.trace| - dev.pos, |data|
    {
      var needed, hit, rest := CliTurn(q, data);
      if needed == 0 {
        if hit.Some? {
          Accounted(Tool, dev, start, initial, whole, calls);
          GetsNow(Tool, q, dev, start, initial, whole, calls);
          r := Got(hit.value[5], PayloadOf(hit.value));
          AnswerIsGenuine(q, r, Returned(calls));
          return r, calls;
        }
        data := rest;
        continue;
      }
      NextVerdict(q, data);
      ghost var received := Returned(calls);
      var limit := if needed < 1 then 1 else needed;
      var count := if limit < READ_SIZE then limit else READ_SIZE;
      var chunk := Fetch(dev, count, Tool, q, start, initial, whole, calls);
      Assoc(old(dev.served), calls, [Served(count, chunk)]);
      calls := calls + [Served(count, chunk)];
      if chunk.Failed? {
        assert received + [] == received;
        if chunk.errno == ETIMEDOUT || chunk.errno == EAGAIN {
          if dev.pos == |dev.trace| {
            // Nothing more will arrive: the deadline passes.
            AllReturned(q, dev, start, initial, whole, calls);
            return TimedOut, calls;
          }
          continue;
        }
        StopsOrGets(Tool, q, initial, dev.trace[start..], chunk.errno);
        return OsError(chunk.errno), calls;
      }
      ChunkArrives(q, received, data, chunk.data);
      data := data + chunk.data;
    }
  }

  /** When the events are over and nothing is buffered, the tool has had everything. */
  lemma AllReturned(q: Query, dev: IrDevice, start: nat, initial: seq<byte>, whole: seq<byte>, calls: seq<Served>)
    requires Waiting(Tool, dev, start, initial, whole, calls) && dev.Pending() == [] && dev.pos == |dev.trace|
    requires Answer(q, Returned(calls)) == None
    ensures AsksInTurn(Tool, calls) && Returned(calls) + dev.Unread() == whole && Returned(calls) == whole
    ensures Survives(Tool, initial, dev.trace[start..]) && !Gets(Tool, q, initial, dev.trace[start..])
  {
    hide Answer, Stream, Survives, Settle, Begun, Returned, AsksInTurn, Gets;
    NothingUnread(dev);
    assert Returned(calls) + [] == Returned(calls);
    assert dev.trace[start..dev.pos] == dev.trace[start..];
    NothingToGet(Tool, q, initial, dev.trace[start..]);
  }
}
