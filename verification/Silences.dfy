/**
 Which failed transfers reach a client that gives up at the first error it does not expect: those
 that meet a read which has copied nothing yet. What a read has copied follows from the events
 and from how much the client asks for.
 */
module Silences {
  import opened Bytes
  import opened Packets
  import opened Scanner
  import opened FtdiDriver

  const READ_SIZE: nat := 256
  const EINTR: Errno := 4
  const EAGAIN: Errno := 11

  /** The two clients that read through the driver: the HAL service and the command line tool. */
  datatype Reader = Service | Tool

  /** How many bytes the tool still needs before it can judge its buffer. */
  function Needed(buffer: seq<byte>): (n: nat)
    requires Judge(buffer) == Wait
    ensures n > 0 && |buffer| + n <= MAX_PACKET
  {
    if |buffer| < 2 then 2 - |buffer|
    else if |buffer| < HEADER_SIZE then HEADER_SIZE - |buffer|
    else HEADER_SIZE + U32(buffer, 8) - |buffer|
  }

  /** How much a client that has received this much asks for in its next read. */
  function Asks(rd: Reader, received: seq<byte>): (n: nat)
    ensures 0 < n <= READ_SIZE
  {
    match rd
    case Service => READ_SIZE
    case Tool =>
      ScanRest(received);
      var needed := Needed(Scan(received).rest);
      if needed < READ_SIZE then needed else READ_SIZE
  }

  /** The errors a client takes for a reason to read again. */
  predicate Retries(rd: Reader, errno: Errno) {
    match rd
    case Service => errno == EINTR || errno == EAGAIN
    case Tool => errno == ETIMEDOUT || errno == EAGAIN
  }

  /**
   Where in the stream the read under way has begun, when all this has arrived and an earlier read
   began at begun: reads follow one another as long as there are bytes to fill them.
   */
  function Settle(rd: Reader, stream: seq<byte>, begun: nat): (b: nat)
    requires begun <= |stream|
    ensures begun <= b <= |stream|
    decreases |stream| - begun
  {
    var next := begun + Asks(rd, stream[..begun]);
    if next <= |stream| then Settle(rd, stream, next) else begun
  }

  /** All bytes the driver has had: those buffered at first, and those of the events. */
  function Stream(initial: seq<byte>, met: seq<UsbEvent>): seq<byte> {
    initial + Contents(met)
  }

  /** Where the read under way has begun when these events have been met; an event without bytes ends a read. */
  function Begun(rd: Reader, initial: seq<byte>, met: seq<UsbEvent>): (b: nat)
    ensures b <= |Stream(initial, met)|
  {
    var stream := Stream(initial, met);
    if met == [] then Settle(rd, stream, 0)
    else if Content(met[|met| - 1]) == [] then |stream|
    else Settle(rd, stream, Begun(rd, initial, met[..|met| - 1]))
  }

  /** What the read under way has copied. */
  function Copied(rd: Reader, initial: seq<byte>, met: seq<UsbEvent>): nat {
    |Stream(initial, met)| - Begun(rd, initial, met)
  }

  /** An event that ends the wait of a client whose read has copied this much. */
  predicate Fatal(rd: Reader, copied: nat, e: UsbEvent) {
    e == Unplugged || (copied == 0 && !Good(e) && !Retries(rd, ErrnoOf(e)))
  }

  /** Which events are fatal, and to whom: EINTR is 4, EAGAIN 11 and ETIMEDOUT 110. */
  lemma FatalSpelledOut(rd: Reader, copied: nat, e: UsbEvent)
    ensures Fatal(rd, copied, e) <==>
            || e == Unplugged
            || (copied == 0 && match e
                               case Unplugged => true
                               case Usb(packet) => |packet| < 2
                               case Error(errno) => match rd
                                                    case Service => errno != 4 && errno != 11
                                                    case Tool => errno != 110 && errno != 11)
  {
  }

  ghost predicate Survives(rd: Reader, initial: seq<byte>, met: seq<UsbEvent>) {
    forall i | 0 <= i < |met| :: !Fatal(rd, Copied(rd, initial, met[..i]), met[i])
  }

  /** The first fatal event is the one numbered k, or there is none and the line is silent after k events. */
  ghost predicate StopsAt(rd: Reader, initial: seq<byte>, events: seq<UsbEvent>, k: nat, errno: Errno) {
    && k <= |events|
    && Survives(rd, initial, events[..k])
    && if k == |events| then errno == ETIMEDOUT
       else Fatal(rd, Copied(rd, initial, events[..k]), events[k]) && errno == ErrnoOf(events[k])
  }

  /**
   Between two reads: nothing fatal so far, and the client has received as much as brings the next
   read to where the events put it, or everything there will be.
   */
  ghost predicate Between(rd: Reader, initial: seq<byte>, met: seq<UsbEvent>, received: nat, dry: bool) {
    var stream := Stream(initial, met);
    && Survives(rd, initial, met)
    && received <= |stream|
    && (Settle(rd, stream, received) == Begun(rd, initial, met) || (received == |stream| && dry))
  }

  lemma StreamNext(initial: seq<byte>, met: seq<UsbEvent>, e: UsbEvent)
    ensures Stream(initial, met + [e]) == Stream(initial, met) + Content(e)
  {
    hide Content;
    ContentsSnoc(met, e);
    Assoc(initial, Contents(met), Content(e));
  }

  lemma StreamAppend(initial: seq<byte>, met: seq<UsbEvent>, more: seq<UsbEvent>)
    ensures Stream(initial, met + more) == Stream(initial, met) + Contents(more)
  {
    hide Content;
    ContentsAppend(met, more);
    Assoc(initial, Contents(met), Contents(more));
  }

  lemma BegunNext(rd: Reader, initial: seq<byte>, met: seq<UsbEvent>, e: UsbEvent)
    ensures var stream := Stream(initial, met) + Content(e);
            Begun(rd, initial, met + [e]) ==
            if Content(e) == [] then |stream| else Settle(rd, stream, Begun(rd, initial, met))
  {
    hide Settle, Content, Stream;
    StreamNext(initial, met, e);
    assert (met + [e])[..|met + [e]| - 1] == met;
  }

  lemma SurvivesNext(rd: Reader, initial: seq<byte>, met: seq<UsbEvent>, e: UsbEvent)
    ensures Survives(rd, initial, met + [e]) <==>
            Survives(rd, initial, met) && !Fatal(rd, Copied(rd, initial, met), e)
  {
    hide Copied, Fatal;
    var all := met + [e];
    forall i | 0 <= i < |met|
      ensures all[..i] == met[..i] && all[i] == met[i]
    {
    }
    assert all[..|met|] == met && all[|met|] == e;
  }

  lemma SurvivesFront(rd: Reader, initial: seq<byte>, met: seq<UsbEvent>, more: seq<UsbEvent>)
    requires Survives(rd, initial, met + more)
    ensures Survives(rd, initial, met)
  {
    hide Copied, Fatal;
    var all := met + more;
    forall i | 0 <= i < |met|
      ensures !Fatal(rd, Copied(rd, initial, met[..i]), met[i])
    {
      assert all[..i] == met[..i] && all[i] == met[i];
    }
  }

  /** Good events are never fatal. */
  lemma GoodSurvives(rd: Reader, initial: seq<byte>, met: seq<UsbEvent>)
    requires forall i | 0 <= i < |met| :: Good(met[i])
    ensures Survives(rd, initial, met)
  {
    hide Copied;
  }

  lemma GoodSurvivesAfter(rd: Reader, initial: seq<byte>, met: seq<UsbEvent>, good: seq<UsbEvent>)
    requires Survives(rd, initial, met) && forall i | 0 <= i < |good| :: Good(good[i])
    ensures Survives(rd, initial, met + good)
  {
    hide Copied, Good;
    var all := met + good;
    forall i | 0 <= i < |all|
      ensures !Fatal(rd, Copied(rd, initial, all[..i]), all[i])
    {
      if i < |met| {
        assert all[..i] == met[..i] && all[i] == met[i];
      } else {
        assert all[i] == good[i - |met|];
        GoodIsNotFatal(rd, Copied(rd, initial, all[..i]), all[i]);
      }
    }
  }

  /** A read that can be filled is followed by the next. */
  lemma SettleFull(rd: Reader, stream: seq<byte>, begun: nat)
    requires begun <= |stream| && begun + Asks(rd, stream[..begun]) <= |stream|
    ensures Settle(rd, stream, begun) == Settle(rd, stream, begun + Asks(rd, stream[..begun]))
  {
  }

  /** A read that cannot be filled goes on. */
  lemma SettleOpen(rd: Reader, stream: seq<byte>, begun: nat)
    requires begun <= |stream| < begun + Asks(rd, stream[..begun])
    ensures Settle(rd, stream, begun) == begun
  {
  }

  lemma SettleEnd(rd: Reader, stream: seq<byte>)
    ensures Settle(rd, stream, |stream|) == |stream|
  {
  }

  /** The first part of a read: packets it goes past without being filled. */
  lemma {:induction false} ReadFlows(rd: Reader, initial: seq<byte>, met: seq<UsbEvent>, received: nat,
                                     front: seq<UsbEvent>)
    requires received <= |Stream(initial, met)| && Survives(rd, initial, met)
    requires var stream := Stream(initial, met);
             && Settle(rd, stream, received) == Begun(rd, initial, met)
             && Flowing(stream[received..], front)
             && |stream[received..] + Contents(front)| < Asks(rd, stream[..received])
    ensures Survives(rd, initial, met + front)
    ensures Begun(rd, initial, met + front) == received
  {
    hide Survives, Fatal, Asks, Content, Good, Stream, Settle, Copied, Begun;
    var stream := Stream(initial, met);
    if front == [] {
      assert met + front == met;
      SettleOpen(rd, stream, received);
    } else {
      var before, e := front[..|front| - 1], front[|front| - 1];
      assert before + [e] == front;
      FlowingParts(stream[received..], before, e);
      ReadFlows(rd, initial, met, received, before);
      Assoc(met, before, [e]);
      StreamAppend(initial, met, before);
      Assoc(stream, Contents(before), Content(e));
      BegunNext(rd, initial, met + before, e);
      SurvivesNext(rd, initial, met + before, e);
      GoodIsNotFatal(rd, Copied(rd, initial, met + before), e);
      var longer := stream + Contents(front);
      assert longer[..received] == stream[..received];
      if Content(e) != [] {
        SettleOpen(rd, longer, received);
      } else {
        assert stream[received..] + Contents(before) == [];
      }
    }
  }

  lemma FlowingParts(initial: seq<byte>, front: seq<UsbEvent>, e: UsbEvent)
    requires Flowing(initial, front + [e])
    ensures Flowing(initial, front) && Good(e) && (Content(e) == [] ==> initial + Contents(front) == [])
    ensures Contents(front + [e]) == Contents(front) + Content(e)
  {
    hide Content, Good, Contents;
    var met := front + [e];
    forall i | 0 <= i < |front|
      ensures front[i] == met[i] && front[..i] == met[..i]
    {
    }
    assert met[|front|] == e && met[..|front|] == front;
    ContentsSnoc(front, e);
  }

  lemma GoodIsNotFatal(rd: Reader, copied: nat, e: UsbEvent)
    requires Good(e)
    ensures !Fatal(rd, copied, e)
  {
  }

  /** The parts of a read that meets at least one event. */
  lemma ReadParts(count: nat, initial: seq<byte>, front: seq<UsbEvent>, e: UsbEvent,
                  data: seq<byte>, left: seq<byte>, dry: bool)
    requires OneRead(count, initial, front + [e], data, left, dry)
    ensures Flowing(initial, front) && e != Unplugged && |initial + Contents(front)| < count
    ensures data + left == initial + Contents(front) + Content(e)
    ensures if |data| == count then Content(e) != [] else left == [] && (dry || Content(e) == [])
  {
    hide Flowing, Content, Contents;
    var met := front + [e];
    assert met[..|met| - 1] == front;
    ContentsSnoc(front, e);
    Assoc(initial, Contents(front), Content(e));
    assert e in met;
  }

  /** A read that returns bytes brings the client from one place between reads to the next. */
  lemma ReadReturns(rd: Reader, initial: seq<byte>, met: seq<UsbEvent>, received: nat, dry: bool,
                    more: seq<UsbEvent>, data: seq<byte>, left: seq<byte>, dryNow: bool)
    requires Between(rd, initial, met, received, dry) && (dry ==> more == [])
    requires var stream := Stream(initial, met);
             OneRead(Asks(rd, stream[..received]), stream[received..], more, data, left, dryNow) && data != []
    ensures Between(rd, initial, met + more, received + |data|, dryNow)
  {
    hide Survives, Asks, Content, Good, Stream, Settle, Begun, Flowing;
    var stream := Stream(initial, met);
    var pending := stream[received..];
    if more == [] {
      assert met + more == met && pending + [] == pending;
      NothingMet(Asks(rd, stream[..received]), pending, data, left, dryNow);
      ReadOfPending(rd, initial, met, received, dry, |data|, dryNow);
    } else {
      var front, e := more[..|more| - 1], more[|more| - 1];
      assert front + [e] == more;
      ReadParts(Asks(rd, stream[..received]), pending, front, e, data, left, dryNow);
      hide OneRead;
      ReadFlows(rd, initial, met, received, front);
      Assoc(met, front, [e]);
      StreamAppend(initial, met, front);
      var before := stream + Contents(front);
      assert before[..received] == stream[..received];
      LastEvent(rd, initial, met + front, received, Asks(rd, stream[..received]), e, |data|, |left|, dryNow);
    }
  }

  lemma NothingMet(count: nat, initial: seq<byte>, data: seq<byte>, left: seq<byte>, dry: bool)
    requires OneRead(count, initial, [], data, left, dry)
    ensures |data| <= count && |data| + |left| == |initial| && (|data| < count ==> left == [] && dry)
  {
    assert |data + left| == |initial + []|;
  }

  /** A read that is served from what was buffered. */
  lemma ReadOfPending(rd: Reader, initial: seq<byte>, met: seq<UsbEvent>, received: nat, dry: bool, n: nat, dryNow: bool)
    requires Between(rd, initial, met, received, dry) && n > 0
    requires var stream := Stream(initial, met);
             && received + n <= |stream| && n <= Asks(rd, stream[..received])
             && (n < Asks(rd, stream[..received]) ==> received + n == |stream| && dryNow)
    ensures Between(rd, initial, met, received + n, dryNow)
  {
    hide Survives, Asks, Stream, Begun;
    if n == Asks(rd, Stream(initial, met)[..received]) {
      SettleFull(rd, Stream(initial, met), received);
    }
  }

  /** The last event of a read, which began at begun and asked for count bytes. */
  lemma LastEvent(rd: Reader, initial: seq<byte>, met: seq<UsbEvent>, begun: nat, count: nat, e: UsbEvent,
                  returned: nat, left: nat, dry: bool)
    requires Survives(rd, initial, met) && Begun(rd, initial, met) == begun
    requires begun <= |Stream(initial, met)| && count == Asks(rd, Stream(initial, met)[..begun])
    requires |Stream(initial, met)| - begun + |Content(e)| == returned + left && 0 < returned <= count
    requires e != Unplugged
    requires if returned == count then Content(e) != [] else left == 0 && (dry || Content(e) == [])
    ensures Between(rd, initial, met + [e], begun + returned, dry)
  {
    hide Survives, Asks, Stream, Begun, Settle, Content;
    var stream := Stream(initial, met);
    var longer := stream + Content(e);
    StreamNext(initial, met, e);
    BegunNext(rd, initial, met, e);
    SurvivesNext(rd, initial, met, e);
    NotFatal(rd, |stream| - begun, e);
    assert longer[..begun] == stream[..begun];
    if returned == count {
      SettleFull(rd, longer, begun);
    } else {
      SettleEnd(rd, longer);
    }
  }

  /** An event with bytes is good, and one without bytes is harmless once something has been copied. */
  lemma NotFatal(rd: Reader, copied: nat, e: UsbEvent)
    requires e != Unplugged && (Content(e) != [] || copied > 0)
    ensures !Fatal(rd, copied, e)
  {
  }

  /** The error a read that returned no bytes reports. */
  predicate Reported(more: seq<UsbEvent>, rest: seq<UsbEvent>, errno: Errno) {
    if more != [] && !Good(more[|more| - 1]) then errno == ErrnoOf(more[|more| - 1])
    else Dry(rest) && errno == if rest == [] then ETIMEDOUT else ENODEV
  }

  /** Nothing more will come before these events, or from them. */
  predicate Dry(rest: seq<UsbEvent>) {
    rest == [] || rest[0] == Unplugged
  }

  /** A read that fails has met events without bytes only, and up to the last of them nothing fatal. */
  lemma ReadFails(rd: Reader, initial: seq<byte>, met: seq<UsbEvent>, received: nat,
                  front: seq<UsbEvent>, e: UsbEvent, left: seq<byte>, dry: bool)
    requires Survives(rd, initial, met)
    requires received <= |Stream(initial, met)| && Settle(rd, Stream(initial, met), received) == Begun(rd, initial, met)
    requires var stream := Stream(initial, met);
             OneRead(Asks(rd, stream[..received]), stream[received..], front + [e], [], left, dry)
    ensures e != Unplugged && Content(e) == []
    ensures Survives(rd, initial, met + front) && Copied(rd, initial, met + front) == 0
    ensures received == |Stream(initial, met + (front + [e]))|
    ensures Begun(rd, initial, met + (front + [e])) == received
  {
    hide OneRead, Survives, Asks, Stream, Settle, Content, Flowing, Begun;
    var stream := Stream(initial, met);
    var pending := stream[received..];
    ReadParts(Asks(rd, stream[..received]), pending, front, e, [], left, dry);
    assert |pending| + |Contents(front)| + |Content(e)| == |pending + Contents(front) + Content(e)| == 0;
    ReadFlows(rd, initial, met, received, front);
    StreamAppend(initial, met, front);
    Assoc(met, front, [e]);
    StreamNext(initial, met + front, e);
    BegunNext(rd, initial, met + front, e);
  }

  /** A read that fails is tried again, or has met the first fatal event. */
  lemma ReadGivesUp(rd: Reader, initial: seq<byte>, met: seq<UsbEvent>, received: nat,
                    more: seq<UsbEvent>, left: seq<byte>, rest: seq<UsbEvent>, errno: Errno) returns (k: nat)
    requires Between(rd, initial, met, received, Dry(more + rest))
    requires var stream := Stream(initial, met);
             OneRead(Asks(rd, stream[..received]), stream[received..], more, [], left, Dry(rest))
    requires Reported(more, rest, errno)
    ensures Retries(rd, errno) ==> Between(rd, initial, met + more, received, Dry(rest))
    ensures !Retries(rd, errno) ==> k <= |met + more| && StopsAt(rd, initial, met + more + rest, k, errno)
  {
    hide Survives, Asks, Stream, Settle, Begun, Flowing, Content, Good, Copied;
    if more == [] {
      assert met + more == met;
      assert Dry(rest);
      NothingMet(Asks(rd, Stream(initial, met)[..received]), Stream(initial, met)[received..], [], left, Dry(rest));
      k := |met|;
      Parts(met, rest);
      assert rest != [] ==> (met + rest)[k] == rest[0];
    } else {
      hide OneRead;
      var front, e := more[..|more| - 1], more[|more| - 1];
      assert front + [e] == more;
      PluggedIn(more, rest, Asks(rd, Stream(initial, met)[..received]), Stream(initial, met)[received..], [], left);
      ReadFails(rd, initial, met, received, front, e, left, Dry(rest));
      k := FirstFatal(rd, initial, met, front, e, rest, received, errno);
    }
  }

  /** A read that met events did not find the device gone. */
  lemma PluggedIn(more: seq<UsbEvent>, rest: seq<UsbEvent>, count: nat, initial: seq<byte>, data: seq<byte>,
                  left: seq<byte>)
    requires more != [] && OneRead(count, initial, more, data, left, Dry(rest))
    ensures !Dry(more + rest)
  {
    assert more[0] in more;
  }

  lemma FirstFatal(rd: Reader, initial: seq<byte>, met: seq<UsbEvent>, front: seq<UsbEvent>, e: UsbEvent,
                   rest: seq<UsbEvent>, received: nat, errno: Errno) returns (k: nat)
    requires e != Unplugged && Content(e) == [] && Reported(front + [e], rest, errno)
    requires Survives(rd, initial, met + front) && Copied(rd, initial, met + front) == 0
    requires received == |Stream(initial, met + (front + [e]))|
    requires Begun(rd, initial, met + (front + [e])) == received
    ensures Retries(rd, errno) ==> Between(rd, initial, met + (front + [e]), received, Dry(rest))
    ensures !Retries(rd, errno) ==>
              k <= |met + (front + [e])| && StopsAt(rd, initial, met + (front + [e]) + rest, k, errno)
  {
    hide Survives, Stream, Settle, Begun, Content, Good, Copied;
    var all := met + (front + [e]);
    Assoc(met, front, [e]);
    Parts(met + front, [e]);
    SurvivesNext(rd, initial, met + front, e);
    SettleEnd(rd, Stream(initial, all));
    Parts(all, rest);
    if Good(e) {
      GoodIsNotFatal(rd, 0, e);
      k := |all|;
      assert rest != [] ==> (all + rest)[k] == rest[0];
    } else {
      k := |met + front|;
      assert (all + rest)[..k] == met + front && (all + rest)[k] == e;
    }
  }

  /** Beyond the first fatal event nothing survives. */
  lemma StopsForGood(rd: Reader, initial: seq<byte>, events: seq<UsbEvent>, k: nat, errno: Errno, m: nat)
    requires StopsAt(rd, initial, events, k, errno) && k < m <= |events|
    ensures !Survives(rd, initial, events[..m])
  {
    hide Copied, Fatal;
    assert events[..m][..k] == events[..k] && events[..m][k] == events[k];
  }

  /* ---- The HAL service always asks for the same, so that its reads fall into step ---- */

  lemma AddMod(a: nat, b: nat)
    ensures (a % READ_SIZE + b) % READ_SIZE == (a + b) % READ_SIZE
  {
  }

  lemma {:induction false} ServiceSettles(stream: seq<byte>, begun: nat)
    requires begun <= |stream|
    ensures |stream| - Settle(Service, stream, begun) == (|stream| - begun) % READ_SIZE
    decreases |stream| - begun
  {
    if begun + READ_SIZE <= |stream| {
      ServiceSettles(stream, begun + READ_SIZE);
      AddMod(READ_SIZE, |stream| - begun - READ_SIZE);
    }
  }

  /** What the service's read has copied is the bytes since the last event without any, modulo 256. */
  lemma ServiceCopied(initial: seq<byte>, met: seq<UsbEvent>, e: UsbEvent)
    ensures Copied(Service, initial, []) == |initial| % READ_SIZE
    ensures Copied(Service, initial, met + [e]) ==
            if Content(e) == [] then 0 else (Copied(Service, initial, met) + |Content(e)|) % READ_SIZE
  {
    hide Settle, Content;
    assert initial + [] == initial;
    ServiceSettles(initial, 0);
    BegunNext(Service, initial, met, e);
    StreamNext(initial, met, e);
    ServiceSettles(Stream(initial, met + [e]), Begun(Service, initial, met));
  }
}
