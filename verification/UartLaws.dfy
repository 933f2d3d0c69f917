/** What the driver's own events mean for the protocol task: data arrives, and losses separate. */
module UartLaws {
  import opened Bytes
  import opened Packets
  import opened Scanner
  import opened Uart

  /** One turn in full, event by event. A read takes at most 128 bytes. */
  lemma TurnSpelledOut(line: Line, turn: Turn)
    ensures var next := Hear(line, turn);
            var due := if line.pending > 0 then line.pending
                       else match turn.event case Some(Data(size)) => size case _ => 0;
            var lost := (line.pending == 0 && turn.event == Some(Loss)) || (due > 0 && turn.available == []);
            var m := Min(|turn.available|, Min(due, 128));
            if lost then
              next.past == line.past + [line.handed] && next.handed == [] && next.pending == 0 && next.open == []
            else
              && next.past == line.past && next.handed == line.handed + turn.available[..m] && next.pending == due - m
              && (m > 0 ==> next.open == line.open + turn.available[..m] && next.lastByteUs == turn.fedUs)
  {
    assert turn.available[..0] == [] && line.handed + [] == line.handed;
  }

  lemma {:induction false} HearAllAppend(line: Line, turns: seq<Turn>, more: seq<Turn>)
    ensures HearAll(line, turns + more) == HearAll(HearAll(line, turns), more)
  {
    hide Hear;
    if more == [] {
      assert turns + more == turns;
    } else {
      HearAllAppend(line, turns, more[..|more| - 1]);
      assert (turns + more)[..|turns + more| - 1] == turns + more[..|more| - 1];
    }
  }

  lemma HearFirst(line: Line, turn: Turn, turns: seq<Turn>)
    ensures HearAll(line, [turn] + turns) == HearAll(Hear(line, turn), turns)
  {
    hide Hear;
    HearAllAppend(line, [turn], turns);
    assert [turn][..0] == [];
  }

  /* ---- Data arrives ---- */

  /** The driver delivers the stream, and every turn hears some of it. */
  ghost predicate Flows(line: Line, turns: seq<Turn>, stream: seq<byte>) {
    Serves(line, turns, stream) && forall i | 0 <= i < |turns| :: HearsAt(line, turns, i)
  }

  lemma FlowsFirst(line: Line, turn: Turn, turns: seq<Turn>, stream: seq<byte>)
    requires |line.handed| <= |stream| && Delivers(line, turn, stream)
    requires |line.handed| < |Hear(line, turn).handed|
    requires Flows(Hear(line, turn), turns, stream)
    ensures Flows(line, [turn] + turns, stream)
  {
    hide Delivers, Hear, HearAll;
    var all := [turn] + turns;
    HearNone(line, all);
    forall i | 0 <= i <= |all|
      ensures i > 0 ==> HearAll(line, all[..i]) == HearAll(Hear(line, turn), turns[..i - 1])
    {
      if i > 0 {
        assert all[..i] == [turn] + turns[..i - 1];
        HearFirst(line, turn, turns[..i - 1]);
      }
    }
    HearNone(Hear(line, turn), turns);
    forall i | 0 <= i < |all|
      ensures var l := HearAll(line, all[..i]); l.handed <= stream ==> Delivers(l, all[i], stream)
      ensures HearsAt(line, all, i)
    {
      if i > 0 {
        assert all[i] == turns[i - 1];
        assert HearsAt(Hear(line, turn), turns, i - 1);
      }
    }
  }

  /**
   Turns that bring these bytes: one Data event announces them all, or those still pending come
   first, and each turn reads what it can.
   */
  function Deliveries(pending: nat, wire: seq<byte>, clockUs: int): seq<Turn>
    decreases |wire|
  {
    if wire == [] then []
    else
      var due := if pending > 0 then pending else |wire|;
      var m := Min(|wire|, Min(due, 128));
      var event := if pending > 0 then None else Some(Data(|wire|));
      [Turn(event, wire, clockUs, clockUs)] + Deliveries(due - m, wire[m..], clockUs)
  }

  /** Whatever is sent can arrive: Data events announce it, it is all handed over, and no silence interrupts it. */
  lemma {:induction false} DataArrives(line: Line, wire: seq<byte>, clockUs: int)
    ensures var turns := Deliveries(line.pending, wire, clockUs);
            && Brings(line, turns, wire) && !Interrupted(line, turns, wire)
            && Flows(line, turns, line.handed + wire)
    decreases |wire|
  {
    var turns := Deliveries(line.pending, wire, clockUs);
    if wire == [] {
      assert line.handed + wire == line.handed;
    } else {
      hide Hear, HearAll, Brings, Interrupted, Serves;
      var due := if line.pending > 0 then line.pending else |wire|;
      var m := Min(|wire|, Min(due, 128));
      TurnSpelledOut(line, turns[0]);
      var next := Hear(line, turns[0]);
      DataArrives(next, wire[m..], clockUs);
      assert turns == [turns[0]] + Deliveries(next.pending, wire[m..], clockUs);
      DeliveryIsNext(line, turns[0], wire, m);
      FlowsFirst(line, turns[0], Deliveries(next.pending, wire[m..], clockUs), line.handed + wire);
      HearFirst(line, turns[0], Deliveries(next.pending, wire[m..], clockUs));
      FlowsBrings(line, turns, wire);
    }
  }

  lemma DeliveryIsNext(line: Line, turn: Turn, wire: seq<byte>, m: nat)
    requires m <= |wire| && wire != [] && turn.available == wire && turn.event != Some(Loss)
    ensures (line.handed + wire[..m]) + wire[m..] == line.handed + wire
    ensures Delivers(line, turn, line.handed + wire)
  {
    var stream := line.handed + wire;
    assert stream[|line.handed|..] == wire;
    assert wire <= stream[|line.handed|..];
  }

  lemma FlowsBrings(line: Line, turns: seq<Turn>, wire: seq<byte>)
    requires Flows(line, turns, line.handed + wire) && HearAll(line, turns).handed == line.handed + wire
    ensures Brings(line, turns, wire) && !Interrupted(line, turns, wire)
  {
    hide HearsAt, Serves, HearAll;
    forall j: nat, i: nat | j < i < |turns|
      ensures !SilentSince(line, turns, j, i)
    {
      assert HearsAt(line, turns, i);
    }
  }

  /* ---- Losses separate ---- */

  /** The driver reports a loss that the turn gets to see, or does not have the bytes it has announced. */
  predicate LossAt(line: Line, turn: Turn) {
    || (line.pending == 0 && turn.event == Some(Loss))
    || (line.pending > 0 && turn.available == [])
    || (line.pending == 0 && turn.event.Some? && turn.event.value.Data? && turn.event.value.size > 0
        && turn.available == [])
  }

  /** Some of what each of these turns had available. */
  predicate TakenFrom(takes: seq<seq<byte>>, turns: seq<Turn>) {
    && |takes| == |turns|
    && forall i | 0 <= i < |turns| :: takes[i] <= turns[i].available
  }

  /** All that is on the line after these turns and was not before lies within these bytes. */
  ghost predicate Confined(ended: seq<Segment>, line: Line, bytes: seq<byte>) {
    && ended <= line.ended
    && (forall seg | seg in line.ended[|ended|..] :: Within(seg.bytes, bytes))
    && Suffix(line.open, bytes)
  }

  lemma TurnConfined(ended: seq<Segment>, line: Line, turn: Turn, bytes: seq<byte>) returns (take: seq<byte>)
    requires Confined(ended, line, bytes)
    ensures take <= turn.available && Confined(ended, Hear(line, turn), bytes + take)
  {
    hide Within, Suffix;
    var next := Hear(line, turn);
    take := match Heard(line.pending, turn.event, turn.available, 128) case Some(b) => b case None => [];
    assert bytes + [] == bytes;
    NothingSuffix(bytes);
    SuffixAppend(line.open, bytes, take);
    WithinItself(line.open);
    SuffixWithin(line.open, line.open, bytes);
    forall seg | seg in next.ended[|ended|..]
      ensures Within(seg.bytes, bytes + take)
    {
      if seg in line.ended[|ended|..] {
        WithinLonger(seg.bytes, bytes, take);
      } else {
        assert next.ended == line.ended + [next.ended[|next.ended| - 1]];
        DropAppend(line.ended, [next.ended[|next.ended| - 1]], |ended|);
        assert seg.bytes == line.open;
      }
    }
  }

  lemma {:induction false} TurnsConfined(line: Line, turns: seq<Turn>) returns (takes: seq<seq<byte>>)
    requires line.open == []
    ensures TakenFrom(takes, turns) && Confined(line.ended, HearAll(line, turns), Concat(takes))
  {
    hide Within, Hear;
    if turns == [] {
      takes := [];
      assert line.ended[|line.ended|..] == [];
      NothingSuffix([]);
    } else {
      var n := |turns| - 1;
      takes := TurnsConfined(line, turns[..n]);
      var take := TurnConfined(line.ended, HearAll(line, turns[..n]), turns[n], Concat(takes));
      ConcatSnoc(takes, take);
      takes := takes + [take];
    }
  }

  lemma {:induction false} FoundInAppend(a: seq<Segment>, b: seq<Segment>)
    ensures FoundIn(a + b) == FoundIn(a) + FoundIn(b)
  {
    hide Found;
    if b == [] {
      assert a + b == a;
    } else {
      FoundInAppend(a, b[..|b| - 1]);
      assert (a + b)[..|a + b| - 1] == a + b[..|b| - 1];
      Assoc(FoundIn(a), FoundIn(b[..|b| - 1]), Found(b[|b| - 1]));
    }
  }

  /**
   After a loss nothing is joined to what came before it: every packet found from then on lies in
   bytes that were available in the turns after it. Without a loss nothing is dropped.
   */
  lemma LossSeparates(line: Line, turn: Turn, later: seq<Turn>)
    returns (found: seq<Candidate>, takes: seq<seq<byte>>)
    requires LossAt(line, turn)
    ensures var after := HearAll(line, [turn] + later);
            && Candidates(after.ended, after.open) == Candidates(line.ended, line.open) + found
            && TakenFrom(takes, later)
            && forall c | c in found && c.Received? :: Within(c.packet, Concat(takes))
  {
    hide Scan, ScanEnd, Within, WellFormed, Found, Hear, HearAll, Judge;
    var start := Hear(line, turn);
    LossEnds(line, turn);
    HearFirst(line, turn, later);
    takes := TurnsConfined(start, later);
    var after := HearAll(start, later);
    var more := after.ended[|start.ended|..];
    assert start.ended + more == after.ended;
    FoundInAppend(start.ended, more);
    CandidatesEnd(line.ended, line.open);
    Assoc(FoundIn(start.ended), FoundIn(more), Scan(after.open).found);
    ScanNothing();
    assert FoundIn(start.ended) + [] == FoundIn(start.ended);
    found := FoundIn(more) + Scan(after.open).found;
    forall c | c in found && c.Received?
      ensures Within(c.packet, Concat(takes))
    {
      if c in FoundIn(more) {
        var seg := FoundInOne(more, c);
        WithinTrans(c.packet, seg.bytes, Concat(takes));
      } else {
        FoundWithin(after.open, c);
        SuffixWithin(c.packet, after.open, Concat(takes));
      }
    }
  }

  /** A loss ends the stretch, and the incomplete candidate with it; nothing else does. */
  lemma LossEnds(line: Line, turn: Turn)
    ensures LossAt(line, turn) ==>
              && Hear(line, turn).ended == line.ended + [Segment(line.open, false)]
              && Hear(line, turn).open == []
    ensures Hear(line, turn).past == if LossAt(line, turn) then line.past + [line.handed] else line.past
  {
    assert |line.past + [line.handed]| == |line.past| + 1;
  }
}
