/** The whole exchange: client, driver, firmware, driver, client. */
module EndToEnd {
  import opened Bytes
  import opened Codes
  import opened Codec
  import opened Packets
  import opened Scanner
  import opened Responder
  import opened Parsing
  import opened Uart
  import opened FtdiDriver
  import opened Silences
  import opened Clients
  import opened Protocol
  import Hal
  import Transmit
  import UartLaws

  /** Bytes that may precede a reply: nothing incomplete at the end, and nothing the client would take. */
  predicate Harmless(q: Query, earlier: seq<byte>) {
    Scan(earlier).rest == [] && Clients.Answer(q, earlier) == None
  }

  /** A packet that is of another version, command or sequence, or no response, or not the kind the client insists on. */
  predicate Stray(q: Query, p: Framed) {
    || p[2] != 1 || p[3] != q.command || U16(p, 6) != q.sequence
    || (if q.strict then p[4] != 1 else p[4] % 2 == 0)
  }

  /** Any number of whole packets that differ in one of these from what the client waits for are harmless. */
  lemma StrayPacketsHarmless(q: Query, ps: seq<Framed>)
    requires forall p | p in ps :: WellFormed(p) && Stray(q, p)
    ensures Harmless(q, Concat(ps))
  {
    assert forall p | p in ps :: !Matches(q, p);
    hide Scan, WellFormed, Matches;
    ScanPackets(ps, []);
    ScanNothing();
    assert Concat(ps) + [] == Concat(ps);
    assert AllReceived(ps) + [] == AllReceived(ps);
    NoMatch(q, ps);
  }

  lemma {:induction false} NoMatch(q: Query, ps: seq<Framed>)
    requires forall p | p in ps :: !Matches(q, p)
    ensures FirstMatch(q, AllReceived(ps)) == None
  {
    if ps != [] {
      NoMatch(q, ps[1..]);
      DropAppend([Received(ps[0])], AllReceived(ps[1..]), 1);
    }
  }

  /** After harmless bytes a matching reply is the answer, whatever follows it. */
  lemma ReplyIsAnswer(q: Query, earlier: seq<byte>, reply: Framed, later: seq<byte>)
    requires Harmless(q, earlier)
    requires WellFormed(reply) && Matches(q, reply)
    ensures Clients.Answer(q, earlier + reply + later) == Some(reply)
  {
    hide Scan, Judge, WellFormed, Matches;
    ScanAppend(earlier, reply);
    assert [] + reply == reply;
    ScanAlone(reply);
    FirstMatchAppend(q, Scan(earlier).found, Scan(reply).found);
    AnswerStable(q, earlier + reply, later);
  }

  /** A request fed to a parser waiting for nothing yields one deed, and the reply matches the query. */
  lemma RequestDeed(o: Oracle, w: World, command: byte, sequence: u16, payload: Payload)
    ensures var p := Packet(command, 0, 0, sequence, payload);
            && Scan(p) == Scanned([Received(p)], [])
            && Judged(o, w, Received(p)).Answer?
            && var d := Judged(o, w, Received(p));
               var reply := Reply(p, d.status, d.payload);
               && WellFormed(reply) && reply[5] == d.status.Wire() && PayloadOf(reply) == d.payload
               && reply[4] == RESPONSE
               && forall strict :: Matches(Query(command, sequence, strict), reply)
  {
    hide Scan, Packet, WellFormed, DoRead, DoWrite;
    var p := Packet(command, 0, 0, sequence, payload);
    PacketFields(command, 0, 0, sequence, payload);
    ScanAlone(p);
    ReadAnswers(o, w, p);
    var d := Judged(o, w, Received(p));
    PacketFields(command, RESPONSE, d.status.Wire(), sequence, d.payload);
  }

  lemma ReadAnswers(o: Oracle, w: World, p: Framed)
    ensures DoRead(o, w, p).Answer? && DoWrite(o, w, p).Answer?
  {
  }

  /** Feeding a stream in any pieces. */
  method FeedPieces(parser: Parser, pieces: seq<seq<byte>>)
    requires parser.Valid()
    modifies parser, parser.input, parser.output, parser.workingCode, parser.workingCode.symbols
    ensures parser.Valid()
    ensures var s := Scan(old(parser.Buffer()) + Concat(pieces));
            && parser.Buffer() == s.rest
            && parser.handled == old(parser.handled) + s.found
            && parser.Done() == HandleAll(parser.oracle, old(parser.Done()), s.found)
  {
    hide Scan, Judge, HandleAll;
    ghost var start := parser.Buffer();
    ScanWait(start);
    HandleNone(parser.oracle, parser.Done());
    assert start + Concat(pieces[..0]) == start;
    for i := 0 to |pieces|
      invariant parser.Valid()
      invariant var s := Scan(start + Concat(pieces[..i]));
                && parser.Buffer() == s.rest
                && parser.handled == old(parser.handled) + s.found
                && parser.Done() == HandleAll(parser.oracle, old(parser.Done()), s.found)
    {
      ghost var before := start + Concat(pieces[..i]);
      ghost var next := Scan(parser.Buffer() + pieces[i]).found;
      ScanAppend(before, pieces[i]);
      Assoc(start, Concat(pieces[..i]), pieces[i]);
      ConcatSnoc(pieces[..i], pieces[i]);
      assert pieces[..i + 1] == pieces[..i] + [pieces[i]];
      Assoc(old(parser.handled), Scan(before).found, next);
      HandleAllAppend(parser.oracle, old(parser.Done()), Scan(before).found, next);
      parser.Feed(pieces[i]);
    }
    assert pieces[..|pieces|] == pieces;
  }

  /** A receiver that is faithful to a prefix, and to the whole stream when it gives up, gets the reply. */
  lemma ReplyReceived(q: Query, r: Outcome, received: seq<byte>, earlier: seq<byte>, reply: Framed, later: seq<byte>)
    requires Harmless(q, earlier) && WellFormed(reply) && Matches(q, reply)
    requires Faithful(q, r, received)
    requires received <= earlier + reply + later
    requires !r.Got? ==> received == earlier + reply + later
    ensures r == Got(reply[5], PayloadOf(reply))
  {
    hide Clients.Answer, Harmless, WellFormed, Matches;
    ReplyIsAnswer(q, earlier, reply, later);
    var stream := earlier + reply + later;
    if r.Got? {
      AnswerStable(q, received, stream[|received|..]);
      assert received + stream[|received|..] == stream;
    }
  }

  /** Some number of events carry n bytes past the driver, and none of them is fatal to this client. */
  ghost predicate Arrives(rd: Reader, trace: seq<UsbEvent>, n: nat) {
    exists k: nat | k <= |trace| :: |Contents(trace[..k])| >= n && Survives(rd, [], trace[..k])
  }

  /** The answer is there once the reply is there to its last byte, and not before. */
  lemma WholeReplyNeeded(q: Query, earlier: seq<byte>, reply: Framed, later: seq<byte>, received: seq<byte>)
    requires Harmless(q, earlier) && WellFormed(reply) && Matches(q, reply)
    requires received <= earlier + reply + later
    ensures Clients.Answer(q, received).Some? <==> |received| >= |earlier + reply|
  {
    var whole := earlier + reply;
    if |received| >= |whole| {
      assert received == whole + received[|whole|..];
      ReplyIsAnswer(q, earlier, reply, received[|whole|..]);
    } else if |received| >= |earlier| {
      var part := received[|earlier|..];
      assert received == earlier + part && part <= reply;
      PartWaits(reply, part);
      ScanAppend(earlier, part);
      ScanWait(part);
      assert [] + part == part;
      FirstMatchAppend(q, Scan(earlier).found, []);
      assert Scan(received).found == Scan(earlier).found + [];
    } else {
      assert earlier == received + earlier[|received|..];
      if Clients.Answer(q, received).Some? {
        AnswerStable(q, received, earlier[|received|..]);
      }
    }
  }

  lemma GetsIffArrives(rd: Reader, q: Query, trace: seq<UsbEvent>, earlier: seq<byte>, reply: Framed, later: seq<byte>)
    requires Harmless(q, earlier) && WellFormed(reply) && Matches(q, reply)
    requires Contents(trace) == earlier + reply + later
    ensures Gets(rd, q, [], trace) <==> Arrives(rd, trace, |earlier + reply|)
  {
    hide Harmless, WellFormed, Matches, Contents, Survives, Clients.Answer;
    assert trace[..|trace|] == trace;
    forall k: nat | k <= |trace|
      ensures Stream([], trace[..k]) == Contents(trace[..k])
      ensures Clients.Answer(q, Contents(trace[..k])).Some? <==> |Contents(trace[..k])| >= |earlier + reply|
    {
      ContentsPrefix(trace, k, |trace|);
      WholeReplyNeeded(q, earlier, reply, later, Contents(trace[..k]));
    }
  }

  /**
   The command line tool reading a stream that contains a reply: it returns the reply if and only
   if no event up to the one that completes the reply is fatal, and otherwise fails with the error
   of the first that is. An event is fatal when the read that meets it has copied nothing.
   */
  method CliHears(command: byte, sequence: u16, trace: seq<UsbEvent>,
                  ghost earlier: seq<byte>, ghost reply: Framed, ghost later: seq<byte>) returns (r: Outcome)
    requires Harmless(Query(command, sequence, false), earlier)
    requires WellFormed(reply) && Matches(Query(command, sequence, false), reply)
    requires Contents(trace) == earlier + reply + later
    ensures Arrives(Tool, trace, |earlier + reply|) ==> r == Got(reply[5], PayloadOf(reply))
    ensures !Arrives(Tool, trace, |earlier + reply|) ==>
              r.OsError? && Stops(Tool, Query(command, sequence, false), [], trace, r.errno)
  {
    hide Harmless, WellFormed, Matches, Contents, Arrives, Gets, Stops, Survives, Clients.Answer, Returned;
    var dev := new IrDevice(trace);
    AllUnread(trace);
    assert trace[0..] == trace;
    GetsIffArrives(Tool, Query(command, sequence, false), trace, earlier, reply, later);
    ghost var calls;
    r, calls := CliReceive(dev, command, sequence);
    assert Returned(calls) + dev.Unread() == Contents(trace);
    assert Returned(calls) <= Contents(trace);
    if !r.OsError? {
      ReplyReceived(Query(command, sequence, false), r, Returned(calls), earlier, reply, later);
    }
  }

  /** The HAL on the same stream, with its own idea of what is fatal. */
  method HalHears(command: byte, sequence: u16, trace: seq<UsbEvent>,
                  ghost earlier: seq<byte>, ghost reply: Framed, ghost later: seq<byte>) returns (r: Outcome)
    requires Harmless(Query(command, sequence, false), earlier)
    requires WellFormed(reply) && Matches(Query(command, sequence, false), reply)
    requires Contents(trace) == earlier + reply + later
    ensures Arrives(Service, trace, |earlier + reply|) ==> r == Got(reply[5], PayloadOf(reply))
    ensures !Arrives(Service, trace, |earlier + reply|) ==>
              r.OsError? && Stops(Service, Query(command, sequence, false), [], trace, r.errno)
  {
    hide Harmless, WellFormed, Matches, Contents, Arrives, Gets, Stops, Clients.Answer, Returned;
    var dev := new IrDevice(trace);
    AllUnread(trace);
    assert trace[0..] == trace;
    GetsIffArrives(Service, Query(command, sequence, false), trace, earlier, reply, later);
    ghost var calls;
    r, calls := HalReceive(dev, command, sequence);
    assert Returned(calls) + dev.Unread() == Contents(trace);
    assert Returned(calls) <= Contents(trace);
    if r.Got? {
      ReplyReceived(Query(command, sequence, false), r, Returned(calls), earlier, reply, later);
    }
  }

  /** Only packets, and transfers that time out. */
  predicate Benign(trace: seq<UsbEvent>) {
    forall e | e in trace :: Good(e) || e == UsbEvent.Error(ETIMEDOUT) || e == UsbEvent.Error(EAGAIN)
  }

  /** To the tool everything arrives past any silences. */
  lemma BenignArrives(trace: seq<UsbEvent>, n: nat)
    requires Benign(trace) && n <= |Contents(trace)|
    ensures Arrives(Tool, trace, n)
  {
    hide Copied;
    forall i | 0 <= i < |trace|
      ensures !Fatal(Tool, Copied(Tool, [], trace[..i]), trace[i])
    {
      assert trace[i] in trace;
    }
    assert trace[..|trace|] == trace;
  }

  /** When no transfer fails, everything arrives. */
  lemma GoodArrives(rd: Reader, trace: seq<UsbEvent>, n: nat)
    requires (forall e | e in trace :: Good(e)) && n <= |Contents(trace)|
    ensures Arrives(rd, trace, n)
  {
    GoodSurvives(rd, [], trace);
    assert trace[..|trace|] == trace;
  }

  /** The serial client on the same stream, byte by byte; replies of the firmware satisfy its stricter test. */
  method SerialHears(command: byte, sequence: u16, arrivals: seq<Option<byte>>,
                     ghost earlier: seq<byte>, ghost reply: Framed, ghost later: seq<byte>) returns (r: Outcome)
    requires Harmless(Query(command, sequence, true), earlier)
    requires WellFormed(reply) && Matches(Query(command, sequence, true), reply)
    requires Arrived(arrivals) == earlier + reply + later
    ensures r == Got(reply[5], PayloadOf(reply))
  {
    hide Harmless, WellFormed, Matches, Faithful;
    var outcome, turns := SerialReceive(command, sequence, arrivals);
    if turns < |arrivals| {
      ArrivedSplit(arrivals, turns);
    } else {
      assert arrivals[..turns] == arrivals;
    }
    ReplyReceived(Query(command, sequence, true), outcome, Arrived(arrivals[..turns]), earlier, reply, later);
    r := outcome;
  }

  /** The turns bring this to the firmware whole: nothing is lost, and no silence interrupts it. */
  ghost predicate Carried(line: Line, turns: seq<Turn>, wire: seq<byte>) {
    Brings(line, turns, wire) && !Interrupted(line, turns, wire)
  }

  /** Turns for everything that may be sent. */
  ghost predicate CarriesAll(line: Line, deliver: seq<byte> -> seq<Turn>) {
    forall wire :: Carried(line, deliver(wire), wire)
  }

  /** A line can always carry whatever is sent. */
  lemma CanBeCarried(line: Line)
    ensures exists deliver :: CarriesAll(line, deliver)
  {
    hide Carried, UartLaws.Deliveries;
    var deliver: seq<byte> -> seq<Turn> := wire => UartLaws.Deliveries(line.pending, wire, 0);
    forall wire
      ensures Carried(line, deliver(wire), wire)
    {
      DeliveriesCarry(line, wire);
    }
    assert CarriesAll(line, deliver);
  }

  lemma DeliveriesCarry(line: Line, wire: seq<byte>)
    ensures Carried(line, UartLaws.Deliveries(line.pending, wire, 0), wire)
  {
    UartLaws.DataArrives(line, wire, 0);
  }

  /** The firmware's side: a request that reaches the protocol task, and the one reply that results. */
  method FirmwareReplies(task: ProtocolTask, turns: seq<Turn>,
                         ghost command: byte, ghost sequence: u16, ghost payload: Payload)
    returns (reply: Framed)
    requires task.Valid() && task.parser.Buffer() == []
    requires Carried(task.SoFar(), turns, Packet(command, 0, 0, sequence, payload))
    modifies task, task.parser, task.parser.input, task.parser.output, task.parser.workingCode,
             task.parser.workingCode.symbols, task.transport
    ensures task.Valid() && task.parser.Buffer() == []
    ensures var request := Packet(command, 0, 0, sequence, payload);
            var d := Judged(task.parser.oracle, old(task.parser.Done()), Received(request));
            && task.parser.Done() == Handle(task.parser.oracle, old(task.parser.Done()), Received(request))
            && d.Answer? && reply == Reply(request, d.status, d.payload)
  {
    hide Scan, Judge, Packet, Judged, Sound, HearAll, Interrupted, Brings, Candidates, HandleAll, WellFormed;
    ghost var before, request := task.parser.Done(), Packet(command, 0, 0, sequence, payload);
    RequestDeed(task.parser.oracle, before, command, sequence, payload);
    PacketFields(command, 0, 0, sequence, payload);
    ghost var found := PacketSurvives(task.SoFar(), turns, request);
    HandleAllSnoc(task.parser.oracle, NOTHING, task.parser.handled, Received(request));
    task.Run(turns);
    reply := task.parser.replies[|task.parser.replies| - 1];
  }

  /**
   One exchange of the command line tool, through the firmware's protocol task. The request
   reaches the task in turns of any shape, the reply arrives among other bytes in events of any
   kind; the tool returns exactly the status and payload the firmware answered with, unless a
   failed transfer that is fatal to it comes before the end of the reply.
   */
  method CliExchange(task: ProtocolTask, command: byte, sequence: int, payload: Payload,
                     deliver: seq<byte> -> seq<Turn>,
                     earlier: seq<byte>, later: seq<byte>, packetise: seq<byte> -> seq<UsbEvent>)
    returns (r: Outcome)
    requires task.Valid() && task.parser.Buffer() == []
    requires CarriesAll(task.SoFar(), deliver)
    requires forall s :: Contents(packetise(s)) == s
    requires Harmless(Query(command, sequence % 0x1_0000, false), earlier)
    modifies task, task.parser, task.parser.input, task.parser.output, task.parser.workingCode,
             task.parser.workingCode.symbols, task.transport
    ensures task.Valid() && task.parser.Buffer() == []
    ensures var request := Received(Packet(command, 0, 0, sequence % 0x1_0000, payload));
            var d := Judged(task.parser.oracle, old(task.parser.Done()), request);
            && task.parser.Done() == Handle(task.parser.oracle, old(task.parser.Done()), request)
            && d.Answer?
            && Heeds(Tool, Query(command, sequence % 0x1_0000, false), request.packet, d, earlier, later, packetise, r)
  {
    hide Scan, Judge, Packet, Harmless, WellFormed, Matches, Judged, Contents, Carried, Arrives, Stops;
    BuilderAgrees(command, sequence, payload, 0, 0);
    var built := BuildPacket(command, sequence, payload, 0, 0);
    var wire := SendAll(built.value);
    RequestDeed(task.parser.oracle, task.parser.Done(), command, sequence % 0x1_0000, payload);
    var reply := FirmwareReplies(task, deliver(wire), command, sequence % 0x1_0000, payload);
    r := CliHears(command, sequence % 0x1_0000, packetise(earlier + reply + later), earlier, reply, later);
  }

  /**
   What a client makes of the firmware's answer to its request: exactly that status and payload
   when the reply arrives, and otherwise the error of the first fatal event.
   */
  ghost predicate Heeds(rd: Reader, q: Query, request: Framed, d: Deed, earlier: seq<byte>, later: seq<byte>,
                        packetise: seq<byte> -> seq<UsbEvent>, r: Outcome)
    requires d.Answer?
  {
    var reply := Reply(request, d.status, d.payload);
    var trace := packetise(earlier + reply + later);
    if Arrives(rd, trace, |earlier + reply|) then r == Got(d.status.Wire(), d.payload)
    else r.OsError? && Stops(rd, q, [], trace, r.errno)
  }

  /** Anything at all, then silence, then a packet: the packet is handled once, and last. */
  method FeedExpireFeed(parser: Parser, noise: seq<seq<byte>>, p: Framed)
    requires parser.Valid() && WellFormed(p)
    modifies parser, parser.input, parser.output, parser.workingCode, parser.workingCode.symbols
    ensures parser.Valid() && parser.Buffer() == []
    ensures var found := ScanEnd(old(parser.Buffer()) + Concat(noise)) + [Received(p)];
            && parser.handled == old(parser.handled) + found
            && parser.Done() == HandleAll(parser.oracle, old(parser.Done()), found)
  {
    hide Scan, ScanEnd, Judge, WellFormed, HandleAll;
    ghost var stream, done := parser.Buffer() + Concat(noise), parser.Done();
    ghost var found, rest := Scan(stream).found, Scan(stream).rest;
    FeedPieces(parser, noise);
    parser.Expire();
    ScanEndSplit(stream);
    Assoc(old(parser.handled), found, ScanEnd(rest));
    HandleAllAppend(parser.oracle, done, found, ScanEnd(rest));
    ScanAlone(p);
    assert [] + p == p;
    parser.Feed(p);
    HandleAllAppend(parser.oracle, done, ScanEnd(stream), [Received(p)]);
    Assoc(old(parser.handled), ScanEnd(stream), [Received(p)]);
  }

  /**
   No response loop: after any run of the protocol task, with whatever losses and silences, its
   responses fed to another device make that one do nothing and leave its buffer empty.
   */
  method EchoIsIgnored(oracle: Oracle, nowUs: int, turns: seq<Turn>, other: Parser) returns (echo: seq<byte>)
    requires other.Valid() && other.Buffer() == []
    modifies other, other.input, other.output, other.workingCode, other.workingCode.symbols
    ensures var line := HearAll(Quiet(nowUs), turns);
            echo == Concat(HandleAll(oracle, NOTHING, Candidates(line.ended, line.open)).replies)
    ensures other.handled == old(other.handled) + Scan(echo).found
    ensures other.Valid() && other.Buffer() == [] && other.Done() == old(other.Done())
  {
    hide Scan, Judge, HandleAll, HearAll, Candidates, Unjoined, Suffix;
    var task := new ProtocolTask(oracle, nowUs);
    task.Run(turns);
    NoResponseLoop(oracle, task.parser.handled, other.oracle, other.Done());
    echo := Concat(task.parser.replies);
    assert [] + echo == echo;
    other.Feed(echo);
  }

  /** No bytes: a packet that carries only its status, or a transfer that times out. */
  predicate Silent(e: UsbEvent) {
    Content(e) == [] && (Good(e) || e == UsbEvent.Error(ETIMEDOUT) || e == UsbEvent.Error(EAGAIN))
  }

  lemma {:induction false} SilentCarry(silent: seq<UsbEvent>)
    requires forall e | e in silent :: Silent(e)
    ensures Copied(Service, [], silent) == 0 && Contents(silent) == []
    ensures Survives(Service, [], silent) <==> UsbEvent.Error(ETIMEDOUT) !in silent
  {
    if silent == [] {
      ServiceCopied([], [], Unplugged);
    } else {
      hide Survives, Content, Good, Silent, Copied, Contents;
      var front, e := silent[..|silent| - 1], silent[|silent| - 1];
      assert silent == front + [e] && e in silent;
      SilentCarry(front);
      ContentsSnoc(front, e);
      SilentFatal(e);
      ServiceCopied([], front, e);
      SurvivesNext(Service, [], front, e);
    }
  }

  lemma SilentFatal(e: UsbEvent)
    requires Silent(e)
    ensures Content(e) == [] && (Fatal(Service, 0, e) <==> e == UsbEvent.Error(ETIMEDOUT))
  {
  }

  /** Before anything else has arrived, the only silence that keeps the rest from the HAL is one that times out. */
  lemma SilentArrives(silent: seq<UsbEvent>, good: seq<UsbEvent>, n: nat)
    requires forall e | e in silent :: Silent(e)
    requires forall e | e in good :: Good(e)
    requires 0 < n <= |Contents(good)|
    ensures Contents(silent + good) == Contents(good)
    ensures Arrives(Service, silent + good, n) <==> UsbEvent.Error(ETIMEDOUT) !in silent
  {
    hide Survives, Good, Content, Contents, Silent;
    var trace := silent + good;
    SilentCarry(silent);
    ContentsAppend(silent, good);
    assert [] + Contents(good) == Contents(good);
    if Survives(Service, [], silent) {
      GoodSurvivesAfter(Service, [], silent, good);
    }
    assert trace[..|trace|] == trace;
    forall k: nat | k <= |trace| && |Contents(trace[..k])| >= n && Survives(Service, [], trace[..k])
      ensures Survives(Service, [], silent)
    {
      if k < |silent| {
        assert trace[..k] == silent[..k];
        assert silent[..|silent|] == silent;
        ContentsPrefix(silent, k, |silent|);
      } else {
        assert trace[..k] == silent + good[..k - |silent|];
        SurvivesFront(Service, [], silent, good[..k - |silent|]);
      }
    }
  }

  lemma SilentIsBenign(silent: seq<UsbEvent>, good: seq<UsbEvent>)
    requires forall e | e in silent :: Silent(e)
    requires forall e | e in good :: Good(e)
    ensures Benign(silent + good)
  {
    hide Good;
  }

  /** The only error a silent line and then a good one can stop with. */
  lemma StopsWithTimeout(silent: seq<UsbEvent>, good: seq<UsbEvent>, k: nat, errno: Errno)
    requires forall e | e in silent :: Silent(e)
    requires forall e | e in good :: Good(e)
    requires StopsAt(Service, [], silent + good, k, errno)
    ensures errno == ETIMEDOUT
  {
    hide Survives, Copied;
    var trace := silent + good;
    if k < |trace| {
      assert trace[k] in trace;
    }
  }

  /**
   A silence before the reply separates the receivers: the command line tool always waits on and
   gets the reply, the HAL gets it if and only if no transfer timed out, and fails with ETIMEDOUT
   otherwise.
   */
  method SilenceSeparates(command: byte, sequence: u16, silent: seq<UsbEvent>, good: seq<UsbEvent>,
                          ghost earlier: seq<byte>, ghost reply: Framed, ghost later: seq<byte>)
    returns (cli: Outcome, hal: Outcome)
    requires forall e | e in silent :: Silent(e)
    requires forall e | e in good :: Good(e)
    requires Contents(good) == earlier + reply + later
    requires Harmless(Query(command, sequence, false), earlier)
    requires WellFormed(reply) && Matches(Query(command, sequence, false), reply)
    ensures cli == Got(reply[5], PayloadOf(reply))
    ensures hal == if UsbEvent.Error(ETIMEDOUT) in silent then OsError(ETIMEDOUT) else Got(reply[5], PayloadOf(reply))
  {
    hide Harmless, WellFormed, Matches, Contents, Good, Content, Arrives, StopsAt, Clients.Answer, Stream;
    SilentArrives(silent, good, |earlier + reply|);
    SilentIsBenign(silent, good);
    BenignArrives(silent + good, |earlier + reply|);
    cli := CliHears(command, sequence, silent + good, earlier, reply, later);
    hal := HalHears(command, sequence, silent + good, earlier, reply, later);
    if UsbEvent.Error(ETIMEDOUT) in silent {
      ghost var k: nat :| k <= |silent + good| && StopsAt(Service, [], silent + good, k, hal.errno);
      StopsWithTimeout(silent, good, k, hal.errno);
    }
  }

  /** The HAL service's own state: the sequence number of its last request. */
  class HalService {
    var mSequence: u16

    constructor ()
      ensures mSequence == 0
    {
      mSequence := 0;
    }

    /** exchangePacket, through the firmware's protocol task; the reply arrives among other bytes in any events. */
    method ExchangePacket(task: ProtocolTask, command: byte, payload: array<byte>, deliver: seq<byte> -> seq<Turn>,
                          earlier: seq<byte>, later: seq<byte>, packetise: seq<byte> -> seq<UsbEvent>)
      returns (r: Outcome)
      requires task.Valid() && task.parser.Buffer() == []
      requires CarriesAll(task.SoFar(), deliver)
      requires forall s :: Contents(packetise(s)) == s
      requires Harmless(Query(command, (mSequence + 1) % 0x1_0000, false), earlier)
      modifies this, task, task.parser, task.parser.input, task.parser.output, task.parser.workingCode,
               task.parser.workingCode.symbols, task.transport
      ensures task.Valid() && task.parser.Buffer() == []
      ensures payload.Length > MAX_PAYLOAD ==>
                r == Outcome.Refused && task.parser.Done() == old(task.parser.Done()) && mSequence == old(mSequence)
      ensures payload.Length <= MAX_PAYLOAD ==>
                && mSequence == (old(mSequence) + 1) % 0x1_0000
                && var request := Received(Packet(command, 0, 0, mSequence, old(payload[..])));
                   var d := Judged(task.parser.oracle, old(task.parser.Done()), request);
                   && task.parser.Done() == Handle(task.parser.oracle, old(task.parser.Done()), request)
                   && d.Answer?
                   && Heeds(Service, Query(command, mSequence, false), request.packet, d, earlier, later, packetise, r)
    {
      if payload.Length > MAX_PAYLOAD {
        return Outcome.Refused;
      }
      hide Packet, Judged, Contents, Judge, Harmless, Carried, Heeds, Brings, Interrupted;
      ghost var line := task.SoFar();
      mSequence := (mSequence + 1) % 0x1_0000;
      ghost var content: Payload := payload[..];
      var tx := Hal.BuildRequest(command, mSequence, payload);
      var wire := SendAll(tx[..]);
      assert task.SoFar() == line;
      r := HalRoundTrip(task, command, mSequence, deliver(wire), content, earlier, later, packetise);
    }

    /**
     transmit: from a pattern of intervals to the code the firmware sends. Success is reported
     exactly when the firmware succeeded and its reply arrives.
     */
    method Transmit(task: ProtocolTask, requested: int, pattern: seq<int>, deliver: seq<byte> -> seq<Turn>,
                    earlier: seq<byte>, later: seq<byte>, packetise: seq<byte> -> seq<UsbEvent>) returns (ok: bool)
      requires task.Valid() && task.parser.Buffer() == []
      requires |pattern| <= 2 * MAX_SYMBOLS && forall i | 0 <= i < |pattern| :: pattern[i] >= 0
      requires CarriesAll(task.SoFar(), deliver)
      requires forall s :: Contents(packetise(s)) == s
      requires Harmless(Query(WRITE, (mSequence + 1) % 0x1_0000, false), earlier)
      modifies this, task, task.parser, task.parser.input, task.parser.output, task.parser.workingCode,
               task.parser.workingCode.symbols, task.transport
      ensures task.Valid() && task.parser.Buffer() == []
      ensures pattern == [] ==> ok && task.parser.Done() == old(task.parser.Done())
      ensures pattern != [] && Hal.AcceptedCarrier(requested) == None ==>
                !ok && task.parser.Done() == old(task.parser.Done())
      ensures pattern != [] && Hal.AcceptedCarrier(requested).Some? ==>
                && (ok <==> && Hal.Playable(pattern)
                            && task.parser.oracle.tx(|old(task.parser.sent)|) == ESP_OK
                            && OkArrives(mSequence, earlier, later, packetise))
                && task.parser.sent == old(task.parser.sent)
                                       + if Hal.Playable(pattern)
                                         then [Hal.PatternCode(Hal.AcceptedCarrier(requested).value, pattern)] else []
    {
      hide Judge, Contents, Harmless, Decode, Hal.PatternCode, Hal.Playable, Codec.Prefix, Codec.SymbolsBytes;
      hide Carried, OkArrives, Scan;
      if |pattern| == 0 {
        return true;
      }
      var payload := Hal.EncodePattern(requested, pattern);
      if payload == None {
        return false;
      }
      Hal.FirmwareAcceptsPattern(requested, pattern);
      ok := ExchangeWrite(task, payload.value, deliver, earlier, later, packetise);
    }

    /** A WRITE exchange, and whether it succeeded. */
    method ExchangeWrite(task: ProtocolTask, payload: array<byte>, deliver: seq<byte> -> seq<Turn>,
                         earlier: seq<byte>, later: seq<byte>, packetise: seq<byte> -> seq<UsbEvent>)
      returns (ok: bool)
      requires task.Valid() && task.parser.Buffer() == [] && payload.Length <= MAX_PAYLOAD
      requires CarriesAll(task.SoFar(), deliver)
      requires forall s :: Contents(packetise(s)) == s
      requires Harmless(Query(WRITE, (mSequence + 1) % 0x1_0000, false), earlier)
      modifies this, task, task.parser, task.parser.input, task.parser.output, task.parser.workingCode,
               task.parser.workingCode.symbols, task.transport
      ensures task.Valid() && task.parser.Buffer() == []
      ensures match Decode(old(payload[..]))
              case Refused(_) => task.parser.sent == old(task.parser.sent) && !ok
              case Decoded(c) =>
                && task.parser.sent == old(task.parser.sent) + [c]
                && (ok <==> task.parser.oracle.tx(|old(task.parser.sent)|) == ESP_OK
                            && OkArrives(mSequence, earlier, later, packetise))
    {
      hide Judge, Judged, Handle, Contents, Harmless, Decode, Packet, Carried, OkArrives, Heeds, Scan;
      ghost var before, bytes := task.parser.Done(), payload[..];
      var r := ExchangePacket(task, WRITE, payload, deliver, earlier, later, packetise);
      WriteDeed(task.parser.oracle, before, mSequence, bytes);
      WriteHeeded(task.parser.oracle, before, mSequence, bytes, earlier, later, packetise, r);
      if Decode(bytes).Refused? {
        RefusedIsNotOk(bytes);
      }
      ok := r.Got? && r.status == OK.Wire();
    }
  }

  /** The reply to a WRITE that succeeded arrives at the HAL. */
  ghost predicate OkArrives(sequence: u16, earlier: seq<byte>, later: seq<byte>, packetise: seq<byte> -> seq<UsbEvent>) {
    var reply := Packet(WRITE, RESPONSE, OK.Wire(), sequence, []);
    Arrives(Service, packetise(earlier + reply + later), |earlier + reply|)
  }

  lemma WriteHeeded(o: Oracle, w: World, sequence: u16, payload: Payload, earlier: seq<byte>, later: seq<byte>,
                    packetise: seq<byte> -> seq<UsbEvent>, r: Outcome)
    requires var request := Packet(WRITE, 0, 0, sequence, payload);
             var d := Judged(o, w, Received(request));
             d.Answer? && Heeds(Service, Query(WRITE, sequence, false), request, d, earlier, later, packetise, r)
    ensures var d := Judged(o, w, Received(Packet(WRITE, 0, 0, sequence, payload)));
            r.Got? && r.status == OK.Wire() <==>
            d.status.Wire() == 0 && OkArrives(sequence, earlier, later, packetise)
  {
    hide Packet, Decode, Arrives, Stops;
    PacketFields(WRITE, 0, 0, sequence, payload);
  }

  /**
   What is heard of a pattern: the HAL takes a carrier of 20 to 60 kHz or leaves it to the firmware,
   and the code it sends is emitted at exactly that carrier, or else at 38 kHz, entry by entry.
   */
  lemma PatternIsHeard(requested: int, pattern: seq<int>)
    requires 1 <= |pattern| <= 512 && forall i | 0 <= i < |pattern| :: pattern[i] >= 0
    ensures Hal.AcceptedCarrier(requested).Some? <==> requested <= 0 || 20_000 <= requested <= 60_000
    ensures Hal.AcceptedCarrier(requested).Some? && Hal.Playable(pattern) ==>
              var c := Hal.PatternCode(Hal.AcceptedCarrier(requested).value, pattern);
              && ValidCode(c)
              && (if c.carrierHz != 0 then c.carrierHz else 38_000) == (if requested > 0 then requested else 38_000)
              && var heard := Transmit.Emitted(Transmit.RawSymbols(c));
                 && |heard| == |pattern| + |pattern| % 2
                 && (forall k | 0 <= k < |pattern| ::
                       heard[k] == Phase(if pattern[k] > 32767 then 32767 else pattern[k], if k % 2 == 0 then 1 else 0))
                 && (|pattern| % 2 == 1 ==> heard[|pattern|] == Phase(0, 0))
    ensures Hal.Playable(pattern) <==>
            forall k | 0 <= k < |pattern| :: pattern[k] >= 1 || (k + 1 == |pattern| && k % 2 == 1)
  {
    hide Codec.Prefix, Codec.SymbolsBytes, Decode, Phases, Transmit.Emitted;
    if Hal.AcceptedCarrier(requested).Some? && Hal.Playable(pattern) {
      var c := Hal.PatternCode(Hal.AcceptedCarrier(requested).value, pattern);
      Hal.PatternValid(Hal.AcceptedCarrier(requested).value, pattern);
      Hal.FirmwareAcceptsPattern(requested, pattern);
      Transmit.EmitsCode(c);
    }
  }

  /** A WRITE request transmits what its payload decodes to, and succeeds when that does. */
  lemma WriteDeed(o: Oracle, w: World, sequence: u16, payload: Payload)
    ensures var c := Received(Packet(WRITE, 0, 0, sequence, payload));
            var d := Judged(o, w, c);
            && d.Answer?
            && match Decode(payload)
               case Refused(status) => Handle(o, w, c).sent == w.sent && (status != OK ==> d.status.Wire() != 0)
               case Decoded(code) =>
                 && Handle(o, w, c).sent == w.sent + [code]
                 && (d.status.Wire() == 0 <==> o.tx(|w.sent|) == ESP_OK)
  {
    hide Packet, Decode;
    PacketFields(WRITE, 0, 0, sequence, payload);
    assert w.sent + [] == w.sent;
  }

  /** A payload is never refused with OK. */
  lemma RefusedIsNotOk(payload: seq<byte>)
    requires Decode(payload).Refused?
    ensures Decode(payload).status != OK
  {
  }

  /** From the request on the wire to the outcome the HAL returns. */
  method HalRoundTrip(task: ProtocolTask, command: byte, sequence: u16, turns: seq<Turn>, ghost payload: Payload,
                      earlier: seq<byte>, later: seq<byte>, packetise: seq<byte> -> seq<UsbEvent>) returns (r: Outcome)
    requires task.Valid() && task.parser.Buffer() == []
    requires Carried(task.SoFar(), turns, Packet(command, 0, 0, sequence, payload))
    requires forall s :: Contents(packetise(s)) == s
    requires Harmless(Query(command, sequence, false), earlier)
    modifies task, task.parser, task.parser.input, task.parser.output, task.parser.workingCode,
             task.parser.workingCode.symbols, task.transport
    ensures task.Valid() && task.parser.Buffer() == []
    ensures var request := Received(Packet(command, 0, 0, sequence, payload));
            var d := Judged(task.parser.oracle, old(task.parser.Done()), request);
            && task.parser.Done() == Handle(task.parser.oracle, old(task.parser.Done()), request)
            && d.Answer?
            && Heeds(Service, Query(command, sequence, false), request.packet, d, earlier, later, packetise, r)
  {
    hide Scan, Judge, Packet, Harmless, WellFormed, Matches, Judged, Contents, Carried, Arrives, Stops;
    RequestDeed(task.parser.oracle, task.parser.Done(), command, sequence, payload);
    var reply := FirmwareReplies(task, turns, command, sequence, payload);
    r := HalHears(command, sequence, packetise(earlier + reply + later), earlier, reply, later);
  }

  lemma AllUnread(trace: seq<UsbEvent>)
    ensures [] + Contents(trace[0..]) == Contents(trace)
  {
    assert trace[0..] == trace;
  }

  /** The send loop of exchange: the driver takes all of a packet at once, so one turn is enough. */
  method SendAll(packet: seq<byte>) returns (wire: seq<byte>)
    requires |packet| <= MAX_PACKET
    ensures wire == packet
  {
    var dev := new IrDevice([]);
    var sent := 0;
    while sent < |packet|
      invariant dev.Valid() && fresh(dev) && fresh(dev.rxData)
      invariant 0 <= sent <= |packet| && dev.wire == packet[..sent]
    {
      var w := dev.Write(packet[sent..], None, false, 0, |packet| - sent);
      assert packet[..sent] + packet[sent..] == packet;
      sent := sent + |w.data|;
    }
    wire := dev.wire;
    assert packet[..sent] == packet;
  }
}
