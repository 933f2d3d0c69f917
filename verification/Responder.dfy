/** What the firmware does with each candidate: captures, transmissions and responses. */
module Responder {
  import opened Bytes
  import opened Codes
  import opened Codec
  import opened Packets
  import opened Scanner

  /** A code that fits the fixed symbol table. */
  type Frame = c: Code | |c.symbols| <= MAX_SYMBOLS witness Code(0, 0, 0, [])

  /** The result of ir_rx_capture. */
  datatype RxOutcome = Captured(code: Frame) | RxFailed(err: Failure)

  /** The outcomes of the n-th capture and of the n-th transmission. */
  datatype Oracle = Oracle(rx: nat -> RxOutcome, tx: nat -> Err)

  /** All the firmware has done so far. */
  datatype World = World(captures: nat, sent: seq<Code>, replies: seq<Framed>)

  const NOTHING := World(0, [], [])

  /** What one candidate makes the firmware do: nothing, or some hardware use and one response. */
  datatype Deed = Ignore | Answer(captures: nat, sent: seq<Code>, status: Status, payload: Payload)

  type Payload = s: seq<byte> | |s| <= MAX_PAYLOAD

  function RxStatus(err: Err): Status {
    match err
    case ESP_ERR_TIMEOUT => NO_DATA
    case ESP_ERR_NOT_FINISHED => BUSY
    case _ => INTERNAL_ERROR
  }

  function TxStatus(err: Err): Status {
    match err
    case ESP_OK => OK
    case ESP_ERR_TIMEOUT => BUSY
    case _ => TX_ERROR
  }

  function Refuse(status: Status): Deed {
    Answer(0, [], status, [])
  }

  /** A READ request: one capture, and the captured frame as payload. */
  function DoRead(o: Oracle, w: World, p: Framed): Deed {
    if PayloadOf(p) != [] then Refuse(INVALID_LENGTH)
    else match o.rx(w.captures)
      case Captured(c) => if ValidCode(c) then Answer(1, [], OK, Encode(c)) else Answer(1, [], INTERNAL_ERROR, [])
      case RxFailed(err) => Answer(1, [], RxStatus(err), [])
  }

  /** A WRITE request: one transmission of the decoded code. */
  function DoWrite(o: Oracle, w: World, p: Framed): Deed {
    match Decode(PayloadOf(p))
    case Refused(status) => Refuse(status)
    case Decoded(c) => Answer(0, [c], TxStatus(o.tx(|w.sent|)), [])
  }

  /** process_request. */
  function Process(o: Oracle, w: World, p: Framed): Deed {
    if IsResponse(p) then Ignore
    else if p[2] != VERSION || p[4] != 0 || p[5] != 0 then Refuse(INVALID_PAYLOAD)
    else if p[3] == READ then DoRead(o, w, p)
    else if p[3] == WRITE then DoWrite(o, w, p)
    else if p[3] == PING then Refuse(if PayloadOf(p) != [] then INVALID_LENGTH else OK)
    else Refuse(INVALID_COMMAND)
  }

  function Judged(o: Oracle, w: World, c: Candidate): Deed {
    match c
    case TooLong(h) => if IsResponse(h) then Ignore else Refuse(INVALID_LENGTH)
    case CrcFailed(h) => if IsResponse(h) then Ignore else Refuse(CRC_ERROR)
    case Received(p) => Process(o, w, p)
  }

  function Head(c: Candidate): Framed {
    match c
    case TooLong(h) => h
    case CrcFailed(h) => h
    case Received(p) => p
  }

  function Reply(request: Framed, status: Status, payload: Payload): Framed {
    Packet(request[3], RESPONSE, status.Wire(), U16(request, 6), payload)
  }

  function Do(w: World, q: Framed, d: Deed): World {
    match d
    case Ignore => w
    case Answer(n, codes, status, payload) =>
      World(w.captures + n, w.sent + codes, w.replies + [Reply(q, status, payload)])
  }

  function Handle(o: Oracle, w: World, c: Candidate): World {
    Do(w, Head(c), Judged(o, w, c))
  }

  function HandleAll(o: Oracle, w: World, cs: seq<Candidate>): World {
    if cs == [] then w else Handle(o, HandleAll(o, w, cs[..|cs| - 1]), cs[|cs| - 1])
  }

  lemma HandleAllSnoc(o: Oracle, w: World, cs: seq<Candidate>, c: Candidate)
    ensures HandleAll(o, w, cs + [c]) == Handle(o, HandleAll(o, w, cs), c)
  {
    hide Handle;
    assert (cs + [c])[..|cs + [c]| - 1] == cs;
  }

  lemma {:induction false} HandleAllAppend(o: Oracle, w: World, cs: seq<Candidate>, ds: seq<Candidate>)
    ensures HandleAll(o, w, cs + ds) == HandleAll(o, HandleAll(o, w, cs), ds)
  {
    if ds == [] {
      assert cs + ds == cs;
    } else {
      hide Handle;
      var front, last := ds[..|ds| - 1], ds[|ds| - 1];
      HandleAllAppend(o, w, cs, front);
      Assoc(cs, front, [last]);
      assert front + [last] == ds;
      HandleAllSnoc(o, w, cs + front, last);
    }
  }

  /** r is a response to the request (or damaged request) q. */
  predicate Answers(r: Framed, q: Framed) {
    && WellFormed(r)
    && r[2] == VERSION && r[3] == q[3] && r[4] == RESPONSE && U16(r, 6) == U16(q, 6)
    && (PayloadOf(r) != [] ==> r[5] == OK.Wire() && q[3] == READ && Decode(PayloadOf(r)).Decoded?)
  }

  lemma ReplyAnswers(q: Framed, status: Status, payload: Payload)
    requires payload != [] ==> status == OK && q[3] == READ && Decode(payload).Decoded?
    ensures Answers(Reply(q, status, payload), q)
  {
    PacketFields(q[3], RESPONSE, status.Wire(), U16(q, 6), payload);
  }

  /** Only a successful READ has a payload, and it is one that WRITE accepts. */
  lemma PayloadOnlyOnOk(o: Oracle, w: World, c: Candidate)
    requires Judged(o, w, c).Answer?
    ensures var d := Judged(o, w, c);
            d.payload != [] ==> d.status == OK && Head(c)[3] == READ && Decode(d.payload).Decoded?
  {
    var d := Judged(o, w, c);
    if d.payload != [] {
      DecodeOfEncode(o.rx(w.captures).code);
    }
  }

  /** Each candidate without the response flag gets one answer, the others get none and have no effect. */
  lemma OneAnswer(o: Oracle, w: World, c: Candidate)
    ensures IsResponse(Head(c)) ==> Handle(o, w, c) == w
    ensures !IsResponse(Head(c)) ==>
              exists r :: Handle(o, w, c).replies == w.replies + [r] && Answers(r, Head(c))
  {
    var d := Judged(o, w, c);
    if d.Answer? {
      PayloadOnlyOnOk(o, w, c);
      ReplyAnswers(Head(c), d.status, d.payload);
      assert Handle(o, w, c).replies == w.replies + [Reply(Head(c), d.status, d.payload)];
    }
  }

  /** An intact version 1 request for this command. */
  predicate IsRequest(c: Candidate, command: byte) {
    c.Received? && c.packet[2] == VERSION && c.packet[3] == command && c.packet[4] == 0 && c.packet[5] == 0
  }

  /** The captures a list of candidates asks for: one for each READ without payload. */
  function ReadsIn(cs: seq<Candidate>): nat {
    if cs == [] then 0
    else
      var c := cs[|cs| - 1];
      ReadsIn(cs[..|cs| - 1]) + if IsRequest(c, READ) && PayloadOf(c.packet) == [] then 1 else 0
  }

  /** The codes a list of candidates asks to transmit: those of the WRITEs that decode. */
  function CodesIn(cs: seq<Candidate>): seq<Code> {
    if cs == [] then []
    else
      var c := cs[|cs| - 1];
      CodesIn(cs[..|cs| - 1]) + if IsRequest(c, WRITE) && Decode(PayloadOf(c.packet)).Decoded?
                                then [Decode(PayloadOf(c.packet)).code] else []
  }

  lemma HardwareStep(o: Oracle, w: World, c: Candidate)
    ensures var w' := Handle(o, w, c);
            && w'.captures == w.captures + (if IsRequest(c, READ) && PayloadOf(c.packet) == [] then 1 else 0)
            && w'.sent == w.sent + (if IsRequest(c, WRITE) && Decode(PayloadOf(c.packet)).Decoded?
                                    then [Decode(PayloadOf(c.packet)).code] else [])
  {
    hide Packet, Decode, ValidCode, Encode;
  }

  /**
   Over any run the hardware is used for exactly the intact requests found, in order: damaged,
   oversized, foreign-version and response packets never start a capture or a transmission, and
   only valid codes are ever transmitted.
   */
  lemma {:induction false} HardwareUse(o: Oracle, w: World, cs: seq<Candidate>)
    ensures var w' := HandleAll(o, w, cs);
            && w'.captures == w.captures + ReadsIn(cs)
            && w'.sent == w.sent + CodesIn(cs)
            && forall code | code in CodesIn(cs) :: ValidCode(code)
    decreases |cs|
  {
    hide Handle, Decode;
    if cs == [] {
      assert w.sent + [] == w.sent;
    } else {
      var front, c := cs[..|cs| - 1], cs[|cs| - 1];
      HardwareUse(o, w, front);
      HardwareStep(o, HandleAll(o, w, front), c);
      if IsRequest(c, WRITE) && Decode(PayloadOf(c.packet)).Decoded? {
        DecodedIsValid(PayloadOf(c.packet));
      }
    }
  }

  lemma DecodedIsValid(p: seq<byte>)
    requires Decode(p).Decoded?
    ensures ValidCode(Decode(p).code)
  {
  }

  predicate IsReply(r: Framed) {
    WellFormed(r) && IsResponse(r)
  }

  /** Every response of every run is a well-formed packet carrying the response flag. */
  lemma {:induction false} RunReplies(o: Oracle, w: World, cs: seq<Candidate>)
    requires forall r | r in w.replies :: IsReply(r)
    ensures forall r | r in HandleAll(o, w, cs).replies :: IsReply(r)
  {
    hide Handle, WellFormed;
    if cs != [] {
      RunReplies(o, w, cs[..|cs| - 1]);
      OneAnswer(o, HandleAll(o, w, cs[..|cs| - 1]), cs[|cs| - 1]);
    }
  }

  lemma HandleFirst(o: Oracle, w: World, c: Candidate, cs: seq<Candidate>)
    ensures HandleAll(o, w, [c] + cs) == HandleAll(o, Handle(o, w, c), cs)
  {
    hide Handle;
    HandleAllAppend(o, w, [c], cs);
    assert [c][..0] == [];
  }

  lemma {:induction false} RepliesIgnored(o: Oracle, w: World, rs: seq<Framed>)
    requires forall r | r in rs :: IsReply(r)
    ensures HandleAll(o, w, AllReceived(rs)) == w
    decreases |rs|
  {
    hide Handle, WellFormed;
    if rs != [] {
      assert IsReply(rs[0]);
      OneAnswer(o, w, Received(rs[0]));
      HandleFirst(o, w, Received(rs[0]), AllReceived(rs[1..]));
      RepliesIgnored(o, w, rs[1..]);
    }
  }

  /**
   No response loop: whatever candidates one device has handled, however they were found, all its
   responses fed to another make that one do nothing at all.
   */
  lemma NoResponseLoop(o: Oracle, cs: seq<Candidate>, o': Oracle, w': World)
    ensures var echo := Scan(Concat(HandleAll(o, NOTHING, cs).replies));
            HandleAll(o', w', echo.found) == w' && echo.rest == []
  {
    var rs := HandleAll(o, NOTHING, cs).replies;
    RunReplies(o, NOTHING, cs);
    ScanPackets(rs, []);
    assert Concat(rs) + [] == Concat(rs);
    assert AllReceived(rs) + [] == AllReceived(rs);
    RepliesIgnored(o', w', rs);
  }

  /** The responses rs answer the requests qs one by one. */
  predicate AnswerAll(rs: seq<Framed>, qs: seq<Framed>) {
    && |rs| == |qs|
    && forall i | 0 <= i < |qs| :: Answers(rs[i], qs[i])
  }

  lemma {:induction false} RequestsAnswered(o: Oracle, w: World, qs: seq<Framed>)
    requires forall q | q in qs :: !IsResponse(q)
    ensures var w' := HandleAll(o, w, AllReceived(qs));
            && |w.replies| <= |w'.replies|
            && w'.replies[..|w.replies|] == w.replies
            && AnswerAll(w'.replies[|w.replies|..], qs)
    decreases |qs|
  {
    hide Handle, Answers;
    if qs != [] {
      var w1 := Handle(o, w, Received(qs[0]));
      var w' := HandleAll(o, w, AllReceived(qs));
      OneAnswer(o, w, Received(qs[0]));
      HandleFirst(o, w, Received(qs[0]), AllReceived(qs[1..]));
      RequestsAnswered(o, w1, qs[1..]);
      var n := |w.replies|;
      assert w'.replies[..n] == w1.replies[..n];
      assert w'.replies[n..] == [w1.replies[n]] + w'.replies[n + 1..];
    }
  }

  /** Noise without the magic, then requests: each is answered once, in order, and nothing is left over. */
  lemma NoiseThenRequests(o: Oracle, w: World, noise: seq<byte>, qs: seq<Framed>)
    requires NoMagic(noise) && qs != []
    requires forall q | q in qs :: WellFormed(q) && !IsResponse(q)
    ensures var s := Scan(noise + Concat(qs));
            var w' := HandleAll(o, w, s.found);
            && s.rest == []
            && |w.replies| <= |w'.replies|
            && w'.replies[..|w.replies|] == w.replies
            && AnswerAll(w'.replies[|w.replies|..], qs)
  {
    NoiseThenPackets(noise, qs);
    RequestsAnswered(o, w, qs);
  }
}
