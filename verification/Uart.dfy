/** The UART transport's byte accounting, and the task that feeds the parser from it. */
module Uart {
  import opened Bytes
  import opened Packets
  import opened Scanner
  import opened Responder
  import opened Parsing

  const CHUNK: nat := 128
  const IDLE_TIMEOUT_US: int := 250_000

  /** Loss stands for FIFO_OVF, BUFFER_FULL, BREAK, PARITY_ERR and FRAME_ERR. */
  datatype UartEvent = Data(size: nat) | Loss | Other

  /**
   One turn of the protocol task: the event in the queue if the turn gets to look, the bytes the
   driver could deliver, and the clock when idleness is tested and after feeding.
   */
  datatype Turn = Turn(event: Option<UartEvent>, available: seq<byte>, testedUs: int, fedUs: int)

  function Min(a: nat, b: nat): nat {
    if a < b then a else b
  }

  /** What a read with this many bytes pending learns from the event queue. */
  function Announced(pending: nat, event: Option<UartEvent>): nat {
    if pending == 0 && event.Some? && event.value.Data? then event.value.size else 0
  }

  /**
   What a read comes to: a loss, either reported by the driver or found when bytes that were
   announced are not there; otherwise as many bytes as were announced, are there and fit.
   */
  function Heard(pending: nat, event: Option<UartEvent>, available: seq<byte>, maxLen: nat): (r: Option<seq<byte>>)
    requires maxLen > 0
    ensures r.Some? ==> r.value <= available && |r.value| <= pending + Announced(pending, event)
    ensures r == Some([]) ==> pending == 0 && Announced(pending, event) == 0
  {
    var due := pending + Announced(pending, event);
    if (pending == 0 && event == Some(Loss)) || (due > 0 && available == []) then None
    else Some(available[..Min(|available|, Min(due, maxLen))])
  }

  class Transport {
    var pendingBytes: nat

    /** Since the last loss: bytes announced by events, and bytes handed to the caller. */
    ghost var announced: nat
    ghost var handed: seq<byte>

    ghost predicate Valid()
      reads this
    {
      announced == |handed| + pendingBytes
    }

    constructor ()
      ensures Valid() && pendingBytes == 0 && announced == 0 && handed == []
    {
      pendingBytes, announced, handed := 0, 0, [];
    }

    /** uart_flush_input, xQueueReset and the accounting that goes with them. */
    method Flush()
      modifies this
      ensures Valid() && pendingBytes == 0 && announced == 0 && handed == []
    {
      pendingBytes := 0;
      announced, handed := 0, [];
    }

    /** ir_transport_read: the number of bytes put in the buffer, or -1. */
    method Read(maxLen: nat, event: Option<UartEvent>, available: seq<byte>) returns (n: int, buffer: seq<byte>)
      requires Valid()
      modifies this
      ensures Valid()
      ensures maxLen == 0 ==>
                n == -1 && buffer == [] && handed == old(handed) && announced == old(announced)
      ensures maxLen > 0 ==>
                match Heard(old(pendingBytes), event, available, maxLen)
                case None => n == -1 && buffer == [] && handed == [] && announced == 0
                case Some(bytes) =>
                  && n == |bytes| <= maxLen && buffer == bytes
                  && handed == old(handed) + bytes
                  && announced == old(announced) + Announced(old(pendingBytes), event)
    {
      buffer := [];
      assert handed + [] == handed;
      if maxLen == 0 {
        return -1, [];
      }
      if pendingBytes == 0 {
        if event == None {
          return 0, [];
        }
        match event.value
        case Data(size) =>
          pendingBytes := size;
          announced := announced + size;
        case Loss =>
          Flush();
          return -1, [];
        case Other =>
          return 0, [];
      }
      var amount := if pendingBytes < maxLen then pendingBytes else maxLen;
      if amount == 0 {
        return 0, [];
      }
      buffer := available[..if |available| < amount then |available| else amount];
      n := |buffer|;
      if n <= 0 {
        Flush();
        return -1, [];
      }
      pendingBytes := pendingBytes - n;
      handed := handed + buffer;
    }
  }

  /** Bytes received without a break: what ended them was a silence, or else a loss. */
  datatype Segment = Segment(bytes: seq<byte>, silence: bool)

  /**
   The line as the protocol task hears it, whatever the parser does: the transport's account; the
   stretches of input between losses, those that are over and the current one; the same input cut
   at silences as well; and the time of the last byte.
   */
  datatype Line = Line(pending: nat, announced: nat, past: seq<seq<byte>>, handed: seq<byte>,
                       ended: seq<Segment>, open: seq<byte>, lastByteUs: int)

  function Quiet(nowUs: int): Line {
    Line(0, 0, [], [], [], [], nowUs)
  }

  /** One turn: a loss begins a new stretch, bytes go on with it, and a long silence cuts it. */
  function Hear(line: Line, turn: Turn): Line {
    match Heard(line.pending, turn.event, turn.available, CHUNK)
    case None =>
      Line(0, 0, line.past + [line.handed], [], line.ended + [Segment(line.open, false)], [], line.lastByteUs)
    case Some(bytes) =>
      if bytes != [] then
        var size := Announced(line.pending, turn.event);
        Line(line.pending + size - |bytes|, line.announced + size, line.past, line.handed + bytes,
             line.ended, line.open + bytes, turn.fedUs)
      else if turn.testedUs - line.lastByteUs >= IDLE_TIMEOUT_US then
        line.(ended := line.ended + [Segment(line.open, true)], open := [])
      else line
  }

  function HearAll(line: Line, turns: seq<Turn>): Line {
    if turns == [] then line else Hear(HearAll(line, turns[..|turns| - 1]), turns[|turns| - 1])
  }

  /** After a silence even an incomplete candidate gives way to what it hides. */
  function Found(segment: Segment): seq<Candidate> {
    if segment.silence then ScanEnd(segment.bytes) else Scan(segment.bytes).found
  }

  function FoundIn(segments: seq<Segment>): seq<Candidate> {
    if segments == [] then [] else FoundIn(segments[..|segments| - 1]) + Found(segments[|segments| - 1])
  }

  /** All candidates on the line so far, in order. */
  function Candidates(ended: seq<Segment>, open: seq<byte>): seq<Candidate> {
    FoundIn(ended) + Scan(open).found
  }

  lemma FoundInNext(ended: seq<Segment>, segment: Segment)
    ensures FoundIn(ended + [segment]) == FoundIn(ended) + Found(segment)
  {
    hide Found;
    assert (ended + [segment])[..|ended + [segment]| - 1] == ended;
  }

  lemma CandidatesEnd(ended: seq<Segment>, open: seq<byte>)
    ensures Candidates(ended + [Segment(open, false)], []) == Candidates(ended, open)
    ensures Candidates(ended + [Segment(open, true)], []) == Candidates(ended, open) + ScanEnd(Scan(open).rest)
  {
    hide Judge, Scan, ScanEnd, FoundIn;
    ScanNothing();
    FoundInNext(ended, Segment(open, false));
    FoundInNext(ended, Segment(open, true));
    ScanEndSplit(open);
    Assoc(FoundIn(ended), Scan(open).found, ScanEnd(Scan(open).rest));
  }

  lemma CandidatesGrow(ended: seq<Segment>, open: seq<byte>, bytes: seq<byte>)
    ensures Candidates(ended, open + bytes) == Candidates(ended, open) + Scan(Scan(open).rest + bytes).found
    ensures Scan(open + bytes).rest == Scan(Scan(open).rest + bytes).rest
  {
    hide Judge, Scan, FoundIn;
    ScanAppend(open, bytes);
    Assoc(FoundIn(ended), Scan(open).found, Scan(Scan(open).rest + bytes).found);
  }

  /** Every packet found lies within one of the loss-free stretches of input. */
  ghost predicate Unjoined(handled: seq<Candidate>, stretches: seq<seq<byte>>) {
    forall c | c in handled && c.Received? :: InOne(c.packet, stretches)
  }

  predicate Suffix(r: seq<byte>, s: seq<byte>) {
    |r| <= |s| && r == s[|s| - |r|..]
  }

  lemma SuffixWithin(p: seq<byte>, r: seq<byte>, s: seq<byte>)
    requires Suffix(r, s) && Within(p, r)
    ensures Within(p, s)
  {
    var i: nat :| i <= |r| && p <= r[i..];
    DropDrop(s, |s| - |r|, i);
    assert p <= s[|s| - |r| + i..];
  }

  lemma SuffixAppend(r: seq<byte>, s: seq<byte>, t: seq<byte>)
    requires Suffix(r, s)
    ensures Suffix(r + t, s + t)
  {
    DropAppend(s, t, |s| - |r|);
  }

  lemma SuffixTrans(q: seq<byte>, r: seq<byte>, s: seq<byte>)
    requires Suffix(q, r) && Suffix(r, s)
    ensures Suffix(q, s)
  {
    DropDrop(s, |s| - |r|, |r| - |q|);
  }

  lemma WithinLonger(p: seq<byte>, s: seq<byte>, t: seq<byte>)
    requires Within(p, s)
    ensures Within(p, s + t)
  {
    var i: nat :| i <= |s| && p <= s[i..];
    DropAppend(s, t, i);
    assert p <= (s + t)[i..];
  }

  /** Expiry, too, finds only runs of the bytes it looks at. */
  lemma {:induction false} EndFoundWithin(s: seq<byte>, c: Candidate)
    requires c in ScanEnd(s) && c.Received?
    ensures Within(c.packet, s)
    decreases |s|
  {
    hide Scan, Judge, WellFormed;
    ScanEndSplit(s);
    if c in Scan(s).found {
      FoundWithin(s, c);
    } else {
      var r := Scan(s).rest;
      ScanRest(s);
      assert r != [];
      ScanEndDrop(r);
      ScanEndSplit(r[1..]);
      EndFoundWithin(r[1..], c);
      assert Suffix(r[1..], r);
      SuffixWithin(c.packet, r[1..], r);
      SuffixWithin(c.packet, r, s);
    }
  }

  /** Some stretch of the input contains these bytes in one run. */
  ghost predicate InOne(bytes: seq<byte>, stretches: seq<seq<byte>>) {
    exists s | s in stretches :: Within(bytes, s)
  }

  /** The account balances, and cutting the input at silences never joins two stretches. */
  ghost predicate Sound(line: Line) {
    && line.announced == |line.handed| + line.pending
    && Suffix(line.open, line.handed)
    && forall seg | seg in line.ended :: InOne(seg.bytes, line.past + [line.handed])
  }

  lemma InOneLater(p: seq<byte>, past: seq<seq<byte>>, handed: seq<byte>, bytes: seq<byte>)
    requires InOne(p, past + [handed])
    ensures InOne(p, past + [handed] + [[]])
    ensures InOne(p, past + [handed + bytes])
  {
    var s :| s in past + [handed] && Within(p, s);
    assert s in past + [handed] + [[]];
    if s in past {
      assert s in past + [handed + bytes];
    } else {
      WithinLonger(p, handed, bytes);
      assert handed + bytes in past + [handed + bytes];
    }
  }

  lemma OpenInOne(p: seq<byte>, open: seq<byte>, past: seq<seq<byte>>, handed: seq<byte>)
    requires Within(p, open) && Suffix(open, handed)
    ensures InOne(p, past + [handed])
  {
    SuffixWithin(p, open, handed);
    assert handed in past + [handed];
  }

  lemma WithinItself(s: seq<byte>)
    ensures Within(s, s)
  {
    assert s[0..] == s;
  }

  lemma HearSound(line: Line, turn: Turn)
    requires Sound(line)
    ensures Sound(Hear(line, turn))
  {
    hide Within, Suffix, InOne, Heard;
    var next := Hear(line, turn);
    NothingSuffix(next.handed);
    WithinItself(line.open);
    OpenInOne(line.open, line.open, line.past, line.handed);
    var bytes := next.handed[if next.past == line.past then |line.handed| else 0..];
    SuffixAppend(line.open, line.handed, bytes);
    forall seg | seg in next.ended
      ensures InOne(seg.bytes, next.past + [next.handed])
    {
      InOneLater(seg.bytes, line.past, line.handed, bytes);
    }
  }

  lemma {:induction false} HearAllSound(line: Line, turns: seq<Turn>)
    requires Sound(line)
    ensures Sound(HearAll(line, turns))
  {
    hide Sound, Hear;
    if turns != [] {
      HearAllSound(line, turns[..|turns| - 1]);
      HearSound(HearAll(line, turns[..|turns| - 1]), turns[|turns| - 1]);
    }
  }

  lemma {:induction false} FoundInOne(segments: seq<Segment>, c: Candidate) returns (seg: Segment)
    requires c in FoundIn(segments) && c.Received?
    ensures seg in segments && Within(c.packet, seg.bytes)
  {
    hide Scan, ScanEnd, Within, WellFormed;
    var front;
    front, seg := segments[..|segments| - 1], segments[|segments| - 1];
    if c in FoundIn(front) {
      seg := FoundInOne(front, c);
    } else if seg.silence {
      EndFoundWithin(seg.bytes, c);
    } else {
      FoundWithin(seg.bytes, c);
    }
  }

  lemma WithinTrans(p: seq<byte>, q: seq<byte>, s: seq<byte>)
    requires Within(p, q) && Within(q, s)
    ensures Within(p, s)
  {
    var i: nat :| i <= |q| && p <= q[i..];
    var j: nat :| j <= |s| && q <= s[j..];
    DropDrop(s, j, i);
    assert p <= s[j + i..];
  }

  /** No packet joins bytes from both sides of a loss, and what waits is the end of the current stretch. */
  lemma NoneJoined(line: Line)
    requires Sound(line)
    ensures Unjoined(Candidates(line.ended, line.open), line.past + [line.handed])
    ensures Suffix(Scan(line.open).rest, line.handed)
  {
    hide Scan, Within, Suffix, FoundIn, WellFormed;
    ScanSuffix(line.open);
    SuffixTrans(Scan(line.open).rest, line.open, line.handed);
    forall c | c in Candidates(line.ended, line.open) && c.Received?
      ensures InOne(c.packet, line.past + [line.handed])
    {
      if c in FoundIn(line.ended) {
        var seg := FoundInOne(line.ended, c);
        var s :| s in line.past + [line.handed] && Within(seg.bytes, s);
        WithinTrans(c.packet, seg.bytes, s);
      } else {
        FoundWithin(line.open, c);
        OpenInOne(c.packet, line.open, line.past, line.handed);
      }
    }
  }

  lemma ScanSuffix(s: seq<byte>)
    ensures Suffix(Scan(s).rest, s)
  {
    ScanRest(s);
  }

  /** The driver has bytes whenever some are due, they are the next ones of the stream, and it reports no error. */
  predicate Delivers(line: Line, turn: Turn, stream: seq<byte>)
    requires |line.handed| <= |stream|
  {
    && turn.event != Some(Loss)
    && turn.available <= stream[|line.handed|..]
    && (line.pending + Announced(line.pending, turn.event) > 0 ==> turn.available != [])
  }

  lemma DeliveredNext(line: Line, turn: Turn, stream: seq<byte>)
    requires line.handed <= stream && Delivers(line, turn, stream)
    ensures Hear(line, turn).past == line.past && line.handed <= Hear(line, turn).handed <= stream
  {
    var r := Heard(line.pending, turn.event, turn.available, CHUNK);
    assert r.value <= stream[|line.handed|..];
    Prefixes(line.handed, r.value, stream);
  }

  lemma Prefixes(a: seq<byte>, b: seq<byte>, s: seq<byte>)
    requires a <= s && b <= s[|a|..]
    ensures a + b <= s
  {
  }

  /** The driver delivers in every one of these turns. */
  ghost predicate Serves(line: Line, turns: seq<Turn>, stream: seq<byte>) {
    forall i | 0 <= i < |turns| ::
      var l := HearAll(line, turns[..i]); l.handed <= stream ==> Delivers(l, turns[i], stream)
  }

  lemma ServesFront(line: Line, turns: seq<Turn>, stream: seq<byte>)
    requires turns != [] && Serves(line, turns, stream)
    ensures Serves(line, turns[..|turns| - 1], stream)
  {
    hide Delivers, HearAll;
    var front := turns[..|turns| - 1];
    forall i | 0 <= i < |front|
      ensures var l := HearAll(line, front[..i]); l.handed <= stream ==> Delivers(l, front[i], stream)
    {
      assert front[..i] == turns[..i] && front[i] == turns[i];
    }
  }

  lemma ServesLast(line: Line, turns: seq<Turn>, stream: seq<byte>)
    requires turns != [] && Serves(line, turns, stream)
    ensures var l := HearAll(line, turns[..|turns| - 1]);
            l.handed <= stream ==> Delivers(l, turns[|turns| - 1], stream)
  {
  }

  /** While the driver delivers, there is no loss, and what is handed over is the stream, up to what was announced. */
  lemma {:induction false} LossFree(line: Line, turns: seq<Turn>, stream: seq<byte>)
    requires Sound(line) && line.handed <= stream && Serves(line, turns, stream)
    ensures var l := HearAll(line, turns);
            && l.past == line.past
            && line.handed <= l.handed <= stream && |l.handed| + l.pending == l.announced
  {
    hide Delivers, Hear;
    HearAllSound(line, turns);
    if turns != [] {
      var n := |turns| - 1;
      ServesFront(line, turns, stream);
      LossFree(line, turns[..n], stream);
      DeliveredNext(HearAll(line, turns[..n]), turns[n], stream);
    }
  }

  /** The turn finds nothing to read, and has found nothing for 250 ms. */
  predicate Cuts(line: Line, turn: Turn) {
    && Heard(line.pending, turn.event, turn.available, CHUNK) == Some([])
    && turn.testedUs - line.lastByteUs >= IDLE_TIMEOUT_US
  }

  /** The bytes handed over since an earlier state of the line. */
  function Since(line: Line, later: Line): seq<byte>
    requires line.handed <= later.handed
  {
    later.handed[|line.handed|..]
  }

  /** A silence at this turn cuts off something incomplete. */
  ghost predicate CutAt(line: Line, turns: seq<Turn>, i: nat)
    requires i < |turns|
  {
    var l := HearAll(line, turns[..i]);
    line.handed <= l.handed && Scan(Since(line, l)).rest != [] && Cuts(l, turns[i])
  }

  lemma CutAtFront(line: Line, turns: seq<Turn>, i: nat)
    requires i + 1 < |turns|
    ensures CutAt(line, turns[..|turns| - 1], i) <==> CutAt(line, turns, i)
  {
    hide HearAll, Scan, Cuts;
    assert turns[..|turns| - 1][..i] == turns[..i];
  }

  /** One turn while the driver delivers: more bytes, a cut, or nothing. */
  lemma TurnDelivers(line: Line, turn: Turn, stream: seq<byte>) returns (bytes: seq<byte>)
    requires line.handed <= stream && Delivers(line, turn, stream)
    ensures var next := Hear(line, turn);
            && next.past == line.past && next.handed == line.handed + bytes && next.handed <= stream
            && if bytes != [] then next.ended == line.ended && next.open == line.open + bytes
               else if Cuts(line, turn) then next.ended == line.ended + [Segment(line.open, true)] && next.open == []
               else next.ended == line.ended && next.open == line.open
    ensures Cuts(line, turn) ==> bytes == []
  {
    DeliveredNext(line, turn, stream);
    bytes := Heard(line.pending, turn.event, turn.available, CHUNK).value;
    assert line.handed + [] == line.handed;
  }

  /** As long as no silence cuts anything off, the candidates are those of one scan of what was sent. */
  lemma {:induction false} Uncut(line: Line, turns: seq<Turn>, stream: seq<byte>)
    requires Sound(line) && line.handed <= stream && Serves(line, turns, stream)
    requires Scan(line.open).rest == []
    requires forall i | 0 <= i < |turns| :: !CutAt(line, turns, i)
    ensures var l := HearAll(line, turns);
            && line.handed <= l.handed
            && var s := Scan(Since(line, l));
               && Candidates(l.ended, l.open) == Candidates(line.ended, line.open) + s.found
               && Scan(l.open).rest == s.rest
  {
    hide Scan, ScanEnd, Delivers, Hear, Candidates, Sound, Heard, Cuts;
    LossFree(line, turns, stream);
    var before := Candidates(line.ended, line.open);
    ScanNothing();
    if turns == [] {
      assert Since(line, line) == [] && before + [] == before;
    } else {
      var n := |turns| - 1;
      var front := turns[..n];
      ServesFront(line, turns, stream);
      LossFree(line, front, stream);
      forall i | 0 <= i < n
        ensures !CutAt(line, front, i)
      {
        CutAtFront(line, turns, i);
      }
      Uncut(line, front, stream);
      var l := HearAll(line, front);
      var got := Since(line, l);
      var bytes := TurnDelivers(l, turns[n], stream);
      DropAppend(l.handed, bytes, |line.handed|);
      if bytes != [] {
        CandidatesGrow(l.ended, l.open, bytes);
        ScanAppend(got, bytes);
        Assoc(before, Scan(got).found, Scan(Scan(got).rest + bytes).found);
      } else {
        assert got + [] == got;
        if Cuts(l, turns[n]) {
          assert !CutAt(line, turns, n);
          CandidatesEnd(l.ended, l.open);
          EndOfNothing();
          var found := before + Scan(got).found;
          assert found + [] == found;
        }
      }
    }
  }

  lemma EndOfNothing()
    ensures ScanEnd([]) == []
  {
  }

  /** Whole packets among these are shorter than n bytes. */
  predicate Shorter(cs: seq<Candidate>, n: nat) {
    forall c | c in cs && c.Received? :: |c.packet| < n
  }

  lemma FoundShorter(s: seq<byte>, n: nat)
    requires |s| < n
    ensures Shorter(Scan(s).found, n) && Shorter(ScanEnd(s), n)
  {
    hide Scan, ScanEnd, WellFormed;
    forall c | c in Scan(s).found && c.Received?
      ensures |c.packet| < n
    {
      FoundWithin(s, c);
    }
    forall c | c in ScanEnd(s) && c.Received?
      ensures |c.packet| < n
    {
      EndFoundWithin(s, c);
    }
  }

  /** Once a silence has cut off a part of what was sent, no packet as long as the whole is found. */
  lemma {:induction false} CutLoses(line: Line, turns: seq<Turn>, sent: seq<byte>) returns (found: seq<Candidate>)
    requires Sound(line) && Serves(line, turns, line.handed + sent)
    requires Scan(line.open).rest == [] && Scan(sent).rest == []
    requires exists i :: 0 <= i < |turns| && CutAt(line, turns, i)
    ensures var l := HearAll(line, turns);
            && line.handed <= l.handed <= line.handed + sent
            && Candidates(l.ended, l.open) == Candidates(line.ended, line.open) + found
            && Shorter(found, |sent|)
            && |Scan(l.open).rest| < |Since(line, l)|
  {
    hide Scan, ScanEnd, Delivers, Hear, Candidates, Sound, Heard, Cuts, CutAt, Serves, Shorter;
    var n := |turns| - 1;
    var front, stream := turns[..n], line.handed + sent;
    LossFree(line, turns, stream);
    ServesFront(line, turns, stream);
    LossFree(line, front, stream);
    var before := Candidates(line.ended, line.open);
    var l := HearAll(line, front);
    var got := Since(line, l);
    PrefixSince(line.handed, l.handed, sent);
    ServesLast(line, turns, stream);
    var bytes := TurnDelivers(l, turns[n], stream);
    DropAppend(l.handed, bytes, |line.handed|);
    var i :| 0 <= i < |turns| && CutAt(line, turns, i);
    if exists j :: 0 <= j < n && CutAt(line, front, j) {
      found := CutLoses(line, front, sent);
      found := Meanwhile(line, l, bytes, found, Cuts(l, turns[n]), |sent|, |got|);
    } else {
      if i < n {
        CutAtFront(line, turns, i);
      }
      CutHere(line, turns, n);
      Uncut(line, front, stream);
      found := FirstCut(line.ended, line.open, l.ended, l.open, got, sent);
      ScanNothing();
    }
  }

  lemma CutHere(line: Line, turns: seq<Turn>, i: nat)
    requires i < |turns| && CutAt(line, turns, i)
    ensures var l := HearAll(line, turns[..i]);
            line.handed <= l.handed && Scan(Since(line, l)).rest != [] && Cuts(l, turns[i])
  {
  }

  lemma PrefixSince(handed: seq<byte>, later: seq<byte>, sent: seq<byte>)
    requires handed <= later <= handed + sent
    ensures later[|handed|..] <= sent
  {
  }

  lemma FirstCut(ended: seq<Segment>, open: seq<byte>, ended': seq<Segment>, open': seq<byte>, got: seq<byte>,
                 sent: seq<byte>) returns (found: seq<Candidate>)
    requires got <= sent && Scan(got).rest != [] && Scan(sent).rest == []
    requires Candidates(ended', open') == Candidates(ended, open) + Scan(got).found && Scan(open').rest == Scan(got).rest
    ensures Candidates(ended' + [Segment(open', true)], []) == Candidates(ended, open) + found
    ensures Shorter(found, |sent|) && got != []
  {
    hide Scan, ScanEnd, Candidates, Judge;
    CandidatesEnd(ended', open');
    ScanNothing();
    ScanRest(got);
    Assoc(Candidates(ended, open), Scan(got).found, ScanEnd(Scan(got).rest));
    found := Scan(got).found + ScanEnd(Scan(got).rest);
    assert got != sent;
    FoundShorter(got, |sent|);
    FoundShorter(Scan(got).rest, |sent|);
  }

  /** A turn after the cut. */
  lemma Meanwhile(line: Line, l: Line, bytes: seq<byte>, found: seq<Candidate>, cut: bool, size: nat, got: nat)
    returns (more: seq<Candidate>)
    requires Candidates(l.ended, l.open) == Candidates(line.ended, line.open) + found && Shorter(found, size)
    requires |Scan(l.open).rest| < got && got + |bytes| <= size
    ensures Shorter(more, size)
    ensures bytes != [] ==>
              && Candidates(l.ended, l.open + bytes) == Candidates(line.ended, line.open) + more
              && |Scan(l.open + bytes).rest| < got + |bytes|
    ensures bytes == [] && cut ==>
              && Candidates(l.ended + [Segment(l.open, true)], []) == Candidates(line.ended, line.open) + more
              && Scan([]).rest == []
    ensures bytes == [] && !cut ==> more == found
  {
    hide Scan, ScanEnd, Candidates, Judge;
    var rest := Scan(l.open).rest;
    var next := if bytes != [] then Scan(rest + bytes).found else if cut then ScanEnd(rest) else [];
    more := found + next;
    Assoc(Candidates(line.ended, line.open), found, next);
    ScanNothing();
    if bytes != [] {
      CandidatesGrow(l.ended, l.open, bytes);
      ScanRest(rest + bytes);
      FoundShorter(rest + bytes, size);
    } else if cut {
      CandidatesEnd(l.ended, l.open);
      FoundShorter(rest, size);
    } else {
      more := found;
    }
  }

  /** The turns bring these bytes, all of them and no others. */
  ghost predicate Brings(line: Line, turns: seq<Turn>, sent: seq<byte>) {
    Serves(line, turns, line.handed + sent) && HearAll(line, turns).handed == line.handed + sent
  }

  /** Bytes are handed over in this turn. */
  predicate HearsAt(line: Line, turns: seq<Turn>, i: nat)
    requires i < |turns|
  {
    |HearAll(line, turns[..i]).handed| < |HearAll(line, turns[..i + 1]).handed|
  }

  /** By the clocks of the turns themselves: the last bytes before turn i came in turn j, 250 ms ago or more. */
  ghost predicate SilentSince(line: Line, turns: seq<Turn>, j: nat, i: nat)
    requires j < i < |turns|
  {
    && HearsAt(line, turns, j)
    && (forall k | j < k <= i :: !HearsAt(line, turns, k))
    && turns[i].testedUs - turns[j].fedUs >= 250_000
  }

  /** A silence of 250 ms falls after the first of the bytes sent and before the last. */
  ghost predicate Interrupted(line: Line, turns: seq<Turn>, sent: seq<byte>) {
    exists j: nat, i: nat | j < i < |turns| ::
      && SilentSince(line, turns, j, i)
      && |line.handed| < |HearAll(line, turns[..i]).handed| < |line.handed + sent|
  }

  lemma PartIncomplete(p: Framed, part: seq<byte>)
    requires WellFormed(p) && part <= p
    ensures Scan(part).rest != [] <==> 0 < |part| < |p|
  {
    hide Scan, Judge, WellFormed;
    ScanNothing();
    ScanAlone(p);
    if part != [] && part != p {
      PartWaits(p, part);
      ScanWait(part);
    }
  }

  /** The time of the last byte is that of the last turn that heard one. */
  lemma {:induction false} LastHeard(line: Line, turns: seq<Turn>, i: nat, stream: seq<byte>) returns (j: nat)
    requires Sound(line) && line.handed <= stream && Serves(line, turns, stream) && i <= |turns|
    requires |line.handed| < |HearAll(line, turns[..i]).handed|
    ensures j < i && HearsAt(line, turns, j) && forall k | j < k < i :: !HearsAt(line, turns, k)
    ensures HearAll(line, turns[..i]).lastByteUs == turns[j].fedUs
  {
    hide Sound, Delivers, Hear, HearAll, Serves;
    HearNone(line, turns);
    assert i > 0;
    var l := HearAll(line, turns[..i - 1]);
    ServesAt(line, turns, stream, i - 1);
    TurnClock(l, turns[i - 1], stream);
    if HearsAt(line, turns, i - 1) {
      j := i - 1;
    } else {
      j := LastHeard(line, turns, i - 1, stream);
    }
  }

  lemma HearNone(line: Line, turns: seq<Turn>)
    ensures HearAll(line, turns[..0]) == line
  {
  }

  lemma TurnClock(line: Line, turn: Turn, stream: seq<byte>)
    requires line.handed <= stream && Delivers(line, turn, stream)
    ensures var next := Hear(line, turn);
            && |line.handed| <= |next.handed|
            && next.lastByteUs == (if |line.handed| < |next.handed| then turn.fedUs else line.lastByteUs)
            && (Cuts(line, turn) <==>
                  |line.handed| == |next.handed| && turn.testedUs - line.lastByteUs >= 250_000)
  {
  }

  lemma ServesAt(line: Line, turns: seq<Turn>, stream: seq<byte>, i: nat)
    requires Sound(line) && line.handed <= stream && Serves(line, turns, stream) && i < |turns|
    ensures var l := HearAll(line, turns[..i]);
            && line.handed <= l.handed <= stream && Delivers(l, turns[i], stream)
            && HearAll(line, turns[..i + 1]) == Hear(l, turns[i])
  {
    hide Sound, Delivers, Hear;
    ServesPart(line, turns, stream, i);
    LossFree(line, turns[..i], stream);
    HearNext(line, turns, i);
  }

  lemma CutIsSilence(line: Line, turns: seq<Turn>, p: Framed, i: nat)
    requires Sound(line) && WellFormed(p) && Serves(line, turns, line.handed + p) && i < |turns|
    ensures CutAt(line, turns, i) <==>
            && |line.handed| < |HearAll(line, turns[..i]).handed| < |line.handed + p|
            && exists j: nat | j < i :: SilentSince(line, turns, j, i)
  {
    hide Scan, Judge, WellFormed, Sound, Delivers, Hear, Cuts, Serves;
    var stream := line.handed + p;
    var l := HearAll(line, turns[..i]);
    ServesAt(line, turns, stream, i);
    TurnClock(l, turns[i], stream);
    PrefixSince(line.handed, l.handed, p);
    PartIncomplete(p, Since(line, l));
    if |line.handed| < |l.handed| {
      var j := LastHeard(line, turns, i, stream);
      assert HearsAt(line, turns, i) <==> |l.handed| < |HearAll(line, turns[..i + 1]).handed|;
      if Cuts(l, turns[i]) {
        assert SilentSince(line, turns, j, i);
      }
      forall j': nat | j' < i && SilentSince(line, turns, j', i)
        ensures Cuts(l, turns[i])
      {
        assert j' == j;
      }
    }
  }

  lemma InterruptedIsCut(line: Line, turns: seq<Turn>, p: Framed)
    requires Sound(line) && WellFormed(p) && Brings(line, turns, p)
    ensures Interrupted(line, turns, p) <==> exists i :: 0 <= i < |turns| && CutAt(line, turns, i)
  {
    hide WellFormed, Sound, HearAll, CutAt, SilentSince, Serves;
    forall i | 0 <= i < |turns|
      ensures CutAt(line, turns, i) <==>
              && |line.handed| < |HearAll(line, turns[..i]).handed| < |line.handed + p|
              && exists j: nat | j < i :: SilentSince(line, turns, j, i)
    {
      CutIsSilence(line, turns, p, i);
    }
  }

  lemma ServesPart(line: Line, turns: seq<Turn>, stream: seq<byte>, n: nat)
    requires n <= |turns| && Serves(line, turns, stream)
    ensures Serves(line, turns[..n], stream)
  {
    hide Delivers, HearAll;
    forall i | 0 <= i < n
      ensures var l := HearAll(line, turns[..n][..i]); l.handed <= stream ==> Delivers(l, turns[..n][i], stream)
    {
      assert turns[..n][..i] == turns[..i] && turns[..n][i] == turns[i];
    }
  }

  /**
   A packet sent while nothing is incomplete: it is received, as the only new candidate, if and only
   if no silence of 250 ms interrupts it.
   */
  lemma PacketSurvives(line: Line, turns: seq<Turn>, p: Framed) returns (found: seq<Candidate>)
    requires Sound(line) && WellFormed(p) && Brings(line, turns, p) && Scan(line.open).rest == []
    ensures var l := HearAll(line, turns);
            && l.past == line.past
            && Candidates(l.ended, l.open) == Candidates(line.ended, line.open) + found
            && (Received(p) in found <==> !Interrupted(line, turns, p))
            && (!Interrupted(line, turns, p) ==> found == [Received(p)] && Scan(l.open).rest == [])
  {
    hide Scan, Judge, WellFormed, Sound, HearAll, CutAt, Interrupted, Candidates;
    InterruptedIsCut(line, turns, p);
    ScanAlone(p);
    LossFree(line, turns, line.handed + p);
    Parts(line.handed, p);
    if Interrupted(line, turns, p) {
      found := CutLoses(line, turns, p);
    } else {
      Uncut(line, turns, line.handed + p);
      found := [Received(p)];
    }
  }

  lemma NothingYet(nowUs: int)
    ensures Sound(Quiet(nowUs)) && Candidates([], []) == [] && Scan([]).rest == []
  {
    ScanNothing();
    NothingSuffix([]);
  }

  lemma NothingDone(oracle: Oracle)
    ensures HandleAll(oracle, NOTHING, []) == NOTHING
  {
  }

  class ProtocolTask {
    const parser: Parser
    const transport: Transport
    var lastByteUs: int

    /** The input of earlier turns, as in Line. */
    ghost var past: seq<seq<byte>>
    ghost var ended: seq<Segment>
    ghost var open: seq<byte>

    ghost function SoFar(): Line
      reads this, transport
    {
      Line(transport.pendingBytes, transport.announced, past, transport.handed, ended, open, lastByteUs)
    }

    /** The parser has handled exactly the candidates on the line, with exactly their effects. */
    ghost predicate Follows()
      reads `ended, `open, parser, parser.input
    {
      && parser.Valid()
      && parser.Buffer() == Scan(open).rest
      && parser.handled == Candidates(ended, open)
      && parser.Done() == HandleAll(parser.oracle, NOTHING, parser.handled)
    }

    ghost predicate Valid()
      reads this, parser, parser.input, transport
    {
      transport.Valid() && Sound(SoFar()) && Follows()
    }

    constructor (oracle: Oracle, nowUs: int)
      ensures Valid() && SoFar() == Quiet(nowUs) && parser.oracle == oracle
      ensures fresh(parser) && fresh(parser.input) && fresh(parser.output) && fresh(parser.workingCode)
              && fresh(parser.workingCode.symbols) && fresh(transport)
    {
      parser := new Parser(oracle);
      transport := new Transport();
      lastByteUs := nowUs;
      past, ended, open := [], [], [];
      new;
      hide Scan, Judge, HandleAll, Candidates, Sound;
      NothingYet(nowUs);
      NothingDone(oracle);
    }

    method OnLoss()
      requires Follows()
      modifies `ended, `open, parser`used
      ensures Follows()
      ensures ended == old(ended) + [Segment(old(open), false)] && open == []
    {
      hide Judge, Scan, HandleAll, FoundIn, Candidates;
      ScanNothing();
      CandidatesEnd(ended, open);
      ended, open := ended + [Segment(open, false)], [];
      parser.Reset();
    }

    method OnBytes(bytes: seq<byte>)
      requires Follows()
      modifies `open, parser, parser.input, parser.output, parser.workingCode, parser.workingCode.symbols
      ensures Follows()
      ensures open == old(open) + bytes
    {
      hide Judge, Scan, HandleAll, FoundIn, Candidates;
      CandidatesGrow(ended, open, bytes);
      HandleAllAppend(parser.oracle, NOTHING, parser.handled, Scan(parser.Buffer() + bytes).found);
      parser.Feed(bytes);
      open := open + bytes;
    }

    method OnIdle()
      requires Follows()
      modifies `ended, `open, parser, parser.input, parser.output, parser.workingCode, parser.workingCode.symbols
      ensures Follows()
      ensures ended == old(ended) + [Segment(old(open), true)] && open == []
    {
      hide Judge, Scan, ScanEnd, HandleAll, FoundIn, Candidates;
      ScanNothing();
      CandidatesEnd(ended, open);
      HandleAllAppend(parser.oracle, NOTHING, parser.handled, ScanEnd(parser.Buffer()));
      if parser.used > 0 {
        parser.Expire();
      } else {
        NothingExpires(parser);
      }
      ended, open := ended + [Segment(open, true)], [];
    }

    /** One turn of protocol_task's loop. */
    method Step(turn: Turn)
      requires Valid()
      modifies this, parser, parser.input, parser.output, parser.workingCode, parser.workingCode.symbols, transport
      ensures Valid() && SoFar() == Hear(old(SoFar()), turn)
    {
      hide Sound, Heard;
      hide Follows;
      HearSound(SoFar(), turn);
      var count, bytes := transport.Read(CHUNK, turn.event, turn.available);
      assert old(transport.handed) + [] == old(transport.handed);
      if count < 0 {
        OnLoss();
        past := past + [old(transport.handed)];
      } else if count > 0 {
        OnBytes(bytes);
        lastByteUs := turn.fedUs;
      } else if turn.testedUs - lastByteUs >= IDLE_TIMEOUT_US {
        OnIdle();
      }
    }

    /**
     Any number of turns: the candidates handled are those on the line, no packet joins bytes from
     both sides of a loss, and the buffer is the end of the current stretch.
     */
    method Run(turns: seq<Turn>)
      requires Valid()
      modifies this, parser, parser.input, parser.output, parser.workingCode, parser.workingCode.symbols, transport
      ensures Valid() && SoFar() == HearAll(old(SoFar()), turns)
      ensures var line := HearAll(old(SoFar()), turns);
              && parser.handled == Candidates(line.ended, line.open)
              && parser.Buffer() == Scan(line.open).rest
              && Unjoined(parser.handled, line.past + [line.handed])
              && Suffix(parser.Buffer(), line.handed)
      ensures parser.Done() == HandleAll(parser.oracle, NOTHING, parser.handled)
    {
      hide Hear, Sound;
      assert turns[..0] == [];
      for i := 0 to |turns|
        invariant Valid()
        invariant SoFar() == HearAll(old(SoFar()), turns[..i])
      {
        HearNext(old(SoFar()), turns, i);
        Step(turns[i]);
      }
      assert turns[..|turns|] == turns;
      NoneJoined(SoFar());
    }
  }

  lemma HearNext(line: Line, turns: seq<Turn>, i: nat)
    requires i < |turns|
    ensures HearAll(line, turns[..i + 1]) == Hear(HearAll(line, turns[..i]), turns[i])
  {
    assert turns[..i + 1][..i] == turns[..i];
  }

  lemma NothingExpires(parser: Parser)
    requires parser.Valid() && parser.used == 0
    ensures parser.Buffer() == [] && parser.handled + ScanEnd(parser.Buffer()) == parser.handled
  {
  }

  lemma NothingSuffix(s: seq<byte>)
    ensures Suffix([], s)
  {
  }
}
