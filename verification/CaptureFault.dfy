/** A capture that receives its frame and still ends as a timeout: the disabling of the receiver fails. */
module CaptureFault {
  import opened Bytes
  import opened Codes
  import opened Codec
  import opened Normalizing
  import opened Capture
  import opened CaptureVerdict
  import Responder

  const SYMBOL := RawSymbol(100, 0, 100, 1)
  const FRAME := Code(0, RESOLUTION_HZ, 0, [Symbol(Phase(100, MARK), Phase(100, SPACE))])

  function Recorded(): (data: seq<RawSymbol>)
    ensures |data| == RX_MEM_SYMBOLS && data[0] == SYMBOL
  {
    seq(RX_MEM_SYMBOLS, _ => SYMBOL)
  }

  /** The last state of some run. */
  ghost predicate Reachable(s: State) {
    exists states, steps :: Run(states, steps) && states[|steps|] == s
  }

  lemma Go(s: State, step: Step)
    requires Reachable(s) && Enabled(s, step)
    ensures Reachable(Apply(s, step))
  {
    hide Init, Enabled, Apply;
    var states, steps :| Run(states, steps) && states[|steps|] == s;
    assert Run(states + [Apply(s, step)], steps + [step]);
    assert (states + [Apply(s, step)])[|steps + [step]|] == Apply(s, step);
  }

  lemma OneSymbol()
    ensures Normalized(Recorded()[..1]) == Some(FRAME)
  {
    var raw := [SYMBOL];
    assert Recorded()[..1] == raw;
    var mark, space := Phase(100, MARK), Phase(100, SPACE);
    assert RawPhases(raw) == [mark, space] by {
      assert raw[..0] == [];
    }
    assert UntilZero([space]) == [space] by {
      assert [space][1..] == [];
    }
    assert [mark, space][1..] == [space];
    assert [mark] + [space] == [mark, space];
    assert Paired([mark, space]) == FRAME.symbols;
  }

  /** The caller has sent its request. */
  function Asked(): State {
    State([Request(1)], Some(Holder(0, 1, Waiting, ZERO_CODE, ZERO_CODE)), false, ESP_OK, false, false, 0, ZERO_CODE,
          [], false, false, 0, Top, 1, 0, 0, 0, None, [], [], [])
  }

  /** The owner has taken it. */
  function Begun(): State {
    Asked().(queue := [], owner := Enabling(1))
  }

  /** The receiver is armed. */
  function Listening(): State {
    Begun().(running := true, enabled := true, armed := true, armedIn := 1, deadlineUs := 1000, owner := Top)
  }

  function Arrived(): Completion {
    Completion(1, true, 0, 1, Recorded())
  }

  /** The frame has been accepted. */
  function Accepted(): State {
    Listening().(armed := false, raw := Recorded(), pending := FRAME, seen := [Arrived()], owner := Finishing(ESP_OK))
  }

  /** Disabling has failed, and the caller has been told. */
  function Told(): State {
    Accepted().(running := false, faulted := true, failure := Some(ESP_ERR_TIMEOUT), result := ESP_ERR_TIMEOUT,
                done := true, gives := 1, owner := Top)
  }

  lemma Asking()
    ensures Reachable(Asked())
  {
    var s := State([], None, false, ESP_OK, false, false, 0, ZERO_CODE, [], false, false, 0, Top,
                   0, 0, 0, 0, None, [], [], []);
    var steps: seq<Step> := [];
    assert Run([s], steps) && [s][|steps|] == s;
    s := CallerGoes(s, Enter(0, 1, ZERO_CODE));
    s := CallerGoes(s, Send);
  }

  lemma Beginning()
    ensures Reachable(Begun())
  {
    Asking();
    var s := OwnerGoes(Asked(), ComputeWait(1));
    s := OwnerGoes(s, Dequeue);
    s := OwnerGoes(s, Dispatch(ZERO_CODE));
    assert s == Begun();
  }

  lemma Arming()
    ensures Reachable(Listening())
  {
    Beginning();
    var s := OwnerGoes(Begun(), Enable(ESP_OK));
    s := OwnerGoes(s, Start);
    s := OwnerGoes(s, Arm(ESP_OK));
    assert s == Listening();
  }

  lemma Accepting()
    ensures Reachable(Accepted())
  {
    hide Normalized, WaitTicks;
    Arming();
    OneSymbol();
    var interrupt := Interrupt(Recorded(), 1, true);
    Go(Listening(), Step.World(interrupt));
    var s := ApplyWorld(Listening(), interrupt);
    assert s.queue == [Completed(Arrived())];
    s := OwnerGoes(s, ComputeWait(1));
    s := OwnerGoes(s, Dequeue);
    s := OwnerGoes(s, Dispatch(ZERO_CODE));
    assert s == Accepted();
  }

  lemma Telling()
    ensures Reachable(Told())
  {
    Accepting();
    var s := OwnerGoes(Accepted(), Finish(ESP_ERR_TIMEOUT));
    s := OwnerGoes(s, Reset);
    s := OwnerGoes(s, Store);
    s := OwnerGoes(s, Give);
    assert s == Told();
  }

  lemma OwnerGoes(s: State, step: OwnerStep) returns (s': State)
    requires Reachable(s) && OwnerEnabled(s, step)
    ensures s' == ApplyOwner(s, step) && Reachable(s')
  {
    Go(s, Owner(step));
    s' := ApplyOwner(s, step);
  }

  lemma CallerGoes(s: State, step: CallerStep) returns (s': State)
    requires Reachable(s) && CallerEnabled(s, step)
    ensures s' == ApplyCaller(s, step) && Reachable(s')
  {
    Go(s, Caller(step));
    s' := ApplyCaller(s, step);
  }

  /**
   A frame arrives in time and is accepted, then disabling fails with ESP_ERR_TIMEOUT: the caller
   gets that error, and the protocol answers NO_DATA.
   */
  lemma FrameLostToDisable() returns (s: State, r: Return)
    ensures Reachable(s) && s.finished == [r]
    ensures !NoneEligible(r.seen, r.deadlineUs) && r.returnedUs < r.deadlineUs
    ensures r.err == ESP_ERR_TIMEOUT && r.faulted && Responder.RxStatus(r.err) == NO_DATA
  {
    hide Normalized, WaitTicks, Reachable;
    Telling();
    s := CallerGoes(Told(), Take);
    s := CallerGoes(s, ReadResult);
    s := CallerGoes(s, CopyFrame);
    s := CallerGoes(s, Leave);
    r := s.finished[0];
    OneSymbol();
    assert Eligible(r.seen[0], r.deadlineUs);
  }
}
