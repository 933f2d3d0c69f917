/** What the result of a finished capture says about the completions it saw. */
module CaptureVerdict {
  import opened Bytes
  import opened Codes
  import opened Normalizing
  import opened Capture
  import opened CaptureSafety

  predicate NoneEligible(seen: seq<Completion>, deadlineUs: int) {
    forall i | 0 <= i < |seen| :: !Eligible(seen[i], deadlineUs)
  }

  /** The last completion seen, and no earlier one, makes the capture succeed with this frame. */
  predicate Success(seen: seq<Completion>, deadlineUs: int, frame: Code) {
    && seen != []
    && var last := seen[|seen| - 1];
    && Eligible(last, deadlineUs)
    && frame == Normalized(last.data[..last.count]).value
    && NoneEligible(seen[..|seen| - 1], deadlineUs)
  }

  /** A completion of the capture numbered n, made after that capture started. */
  predicate Fresh(c: Completion, n: nat, startUs: int) {
    c.capture == n && startUs <= c.completedUs
  }

  /** The result on its way to the caller, from finish_capture to the caller's return. */
  function Carried(s: State): Option<Err> {
    match s.owner
    case Finishing(e) => Some(e)
    case Resetting(e) => Some(e)
    case Storing(e) => Some(e)
    case Giving => Some(s.result)
    case _ =>
      if s.done then Some(s.result)
      else if s.lock == None then None
      else match s.lock.value.at
        case Acknowledged => Some(s.result)
        case Copying(e) => Some(e)
        case Leaving(e) => Some(e)
        case _ => None
  }

  /**
   The result a capture must have: that of the driver operation that failed, or the refusal of a
   receiver whose fault is latched, or success if an eligible completion was seen, or a timeout.
   */
  function Due(failure: Option<Failure>, faulted: bool, seen: seq<Completion>, deadlineUs: int): Err {
    if failure.Some? then failure.value
    else if faulted then ESP_ERR_INVALID_STATE
    else if NoneEligible(seen, deadlineUs) then ESP_ERR_TIMEOUT
    else ESP_OK
  }

  predicate Verdict(s: State, err: Err) {
    && (err == ESP_OK ==> Success(s.seen, s.deadlineUs, s.pending) && s.lock.Some? && Deadline(s))
    && err == Due(s.failure, s.faulted, s.seen, s.deadlineUs)
    && (err == ESP_ERR_TIMEOUT && s.failure == None ==> s.deadlineUs <= s.now && s.lock.Some? && Deadline(s))
  }

  /** The deadline is the start plus the caller's timeout. */
  predicate Deadline(s: State)
    requires s.lock.Some?
  {
    s.deadlineUs == s.startUs + s.lock.value.timeoutMs * 1000
  }

  predicate RequestOf(s: State, timeoutMs: nat) {
    s.lock.Some? && s.lock.value.timeoutMs == timeoutMs
  }

  predicate GoodEvent(s: State, e: Event) {
    match e
    case Request(t) => RequestOf(s, t)
    case Completed(c) => s.running ==> Fresh(c, s.grants, s.startUs) && c.completedUs <= s.now && c.data == s.raw
  }

  predicate TimeInv(s: State) {
    && (s.lock.Some? ==> 0 < s.lock.value.timeoutMs <= MAX_TIMEOUT_MS)
    && (forall i | 0 <= i < |s.queue| :: GoodEvent(s, s.queue[i]))
    && (s.owner.Got? ==> GoodEvent(s, s.owner.event))
    && (s.owner.Enabling? ==> RequestOf(s, s.owner.timeoutMs) && s.seen == [])
    && (s.owner.Starting? ==> RequestOf(s, s.owner.timeoutMs) && s.seen == [])
    && (s.running && !s.owner.Starting? ==> s.lock.Some? && Deadline(s) && s.startUs <= s.now)
    && (s.running && s.armed ==> s.armedIn == s.grants)
    && (s.running ==> forall i | 0 <= i < |s.seen| :: Fresh(s.seen[i], s.grants, s.startUs))
  }

  predicate ResultInv(s: State) {
    && (s.running && !s.owner.Finishing? ==> NoneEligible(s.seen, s.deadlineUs))
    && ((s.running && !s.owner.Finishing?) || s.owner.Enabling? ==> s.failure == None)
    && (Carried(s).Some? ==> Verdict(s, Carried(s).value))
    && (Carried(s) == Some(ESP_OK) ==> Fresh(s.seen[|s.seen| - 1], s.grants, s.startUs))
    && (s.lock.Some? ==> match s.lock.value.at
                         case Leaving(e) => s.lock.value.buffer == if e == ESP_OK then s.pending else s.lock.value.before
                         case _ => s.lock.value.buffer == s.lock.value.before)
  }

  /** What a finished call may be relied on for. */
  predicate Justified(r: Return) {
    && (r.err == ESP_OK ==>
          && Success(r.seen, r.deadlineUs, r.caller.buffer)
          && Fresh(r.seen[|r.seen| - 1], r.capture, r.startUs)
          && r.deadlineUs == r.startUs + r.caller.timeoutMs * 1000)
    && r.err == Due(r.failure, r.faulted, r.seen, r.deadlineUs)
    && (r.err == ESP_ERR_TIMEOUT && r.failure == None ==>
          r.deadlineUs == r.startUs + r.caller.timeoutMs * 1000 && r.deadlineUs <= r.returnedUs)
    && (r.err != ESP_OK ==> r.caller.buffer == r.caller.before)
  }

  predicate HistoryInv(s: State) {
    && (forall i | 0 <= i < |s.finished| :: Justified(s.finished[i]) && s.finished[i].capture == i + 1)
  }

  predicate FullInv(s: State) {
    Inv(s) && TimeInv(s) && ResultInv(s) && HistoryInv(s)
  }

  lemma WorldKeepsTime(s: State, step: WorldStep)
    requires FullInv(s) && WorldEnabled(s, step)
    ensures TimeInv(ApplyWorld(s, step))
  {
    hide Requests, HistoryInv, Success, NoneEligible;
  }

  lemma WorldKeepsResult(s: State, step: WorldStep)
    requires FullInv(s) && WorldEnabled(s, step)
    ensures ResultInv(ApplyWorld(s, step))
  {
    hide Requests, HistoryInv, Success, NoneEligible;
  }

  lemma CallerKeepsTime(s: State, step: CallerStep)
    requires FullInv(s) && CallerEnabled(s, step)
    ensures TimeInv(ApplyCaller(s, step))
  {
    hide HistoryInv, Success, NoneEligible;
    if TurnedAway(s, step) {
      return;
    }
  }

  lemma CallerKeepsResult(s: State, step: CallerStep)
    requires FullInv(s) && CallerEnabled(s, step)
    ensures ResultInv(ApplyCaller(s, step))
  {
    hide Requests, HistoryInv, Success, NoneEligible, Due;
    if TurnedAway(s, step) {
      return;
    }
  }

  lemma CallerKeepsHistory(s: State, step: CallerStep)
    requires FullInv(s) && CallerEnabled(s, step)
    ensures HistoryInv(ApplyCaller(s, step))
  {
    hide Requests, Success, NoneEligible, Due;
    if TurnedAway(s, step) {
      return;
    }
  }

  lemma DispatchKeepsTime(s: State, clobbered: Code)
    requires FullInv(s) && s.owner.Got?
    ensures TimeInv(Dispatched(s, s.owner.event, clobbered))
  {
    hide Requests, HistoryInv, Success, NoneEligible, Normalized;
  }

  lemma OwnerKeepsTime(s: State, step: OwnerStep)
    requires FullInv(s) && OwnerEnabled(s, step)
    ensures TimeInv(ApplyOwner(s, step))
  {
    hide Requests, HistoryInv, Success, NoneEligible, Dispatched, WaitTicks;
    if step.Dispatch? {
      DispatchKeepsTime(s, step.clobbered);
    }
  }

  lemma NoneEligibleSnoc(seen: seq<Completion>, c: Completion, deadlineUs: int)
    requires NoneEligible(seen, deadlineUs)
    ensures !Eligible(c, deadlineUs) ==> NoneEligible(seen + [c], deadlineUs)
    ensures Eligible(c, deadlineUs) ==> Success(seen + [c], deadlineUs, Normalized(c.data[..c.count]).value)
    ensures Eligible(c, deadlineUs) ==> !NoneEligible(seen + [c], deadlineUs)
  {
    assert (seen + [c])[|seen|] == c;
    assert (seen + [c])[..|seen|] == seen;
  }

  /** A completion is judged, or a new capture begins. */
  lemma DispatchKeepsResult(s: State, clobbered: Code)
    requires FullInv(s) && s.owner.Got?
    ensures ResultInv(Dispatched(s, s.owner.event, clobbered))
  {
    hide Requests, HistoryInv, Success, NoneEligible, Fresh;
    if s.owner.event.Completed? {
      if s.running {
        hide Normalized;
        NoneEligibleSnoc(s.seen, s.owner.event.completion, s.deadlineUs);
      }
    } else {
      NoneYet(s.deadlineUs);
    }
  }

  lemma NoneYet(deadlineUs: int)
    ensures NoneEligible([], deadlineUs)
  {
  }

  lemma OwnerKeepsResult(s: State, step: OwnerStep)
    requires FullInv(s) && OwnerEnabled(s, step)
    ensures ResultInv(ApplyOwner(s, step))
  {
    hide Requests, HistoryInv, Success, NoneEligible, Dispatched, Normalized, WaitTicks;
    if step.Dispatch? {
      DispatchKeepsResult(s, step.clobbered);
    }
    forall deadlineUs {
      NoneYet(deadlineUs);
    }
  }

  lemma FullInvKept(s: State, step: Step)
    requires FullInv(s) && Enabled(s, step)
    ensures FullInv(Apply(s, step))
  {
    hide Inv, TimeInv, ResultInv, ApplyOwner;
    InvKept(s, step);
    match step
    case World(w) =>
      WorldKeepsTime(s, w);
      WorldKeepsResult(s, w);
    case Caller(c) =>
      CallerKeepsTime(s, c);
      CallerKeepsResult(s, c);
      CallerKeepsHistory(s, c);
    case Owner(o) =>
      OwnerKeepsTime(s, o);
      OwnerKeepsResult(s, o);
      OwnerKeepsHistory(s, o);
  }

  lemma OwnerKeepsHistory(s: State, step: OwnerStep)
    requires OwnerEnabled(s, step) && HistoryInv(s)
    ensures HistoryInv(ApplyOwner(s, step))
  {
    hide HistoryInv, Dispatched, WaitTicks;
    assert ApplyOwner(s, step).finished == s.finished by {
      if step.Dispatch? {
        DispatchKeepsHistory(s, step.clobbered);
      }
    }
    SameHistory(s, ApplyOwner(s, step));
  }

  lemma DispatchKeepsHistory(s: State, clobbered: Code)
    requires s.owner.Got?
    ensures Dispatched(s, s.owner.event, clobbered).finished == s.finished
  {
    hide Normalized;
  }

  lemma SameHistory(s: State, s': State)
    requires HistoryInv(s) && s'.finished == s.finished
    ensures HistoryInv(s')
  {
    hide Justified;
  }

  /** Every state of every run satisfies the invariant. */
  lemma {:induction false} RunInv(states: seq<State>, steps: seq<Step>, i: nat)
    requires Run(states, steps) && i < |states|
    ensures FullInv(states[i])
  {
    hide FullInv, Enabled, Apply;
    if i == 0 {
      InitFull(states[0]);
    } else {
      RunInv(states, steps, i - 1);
      assert Enabled(states[i - 1], steps[i - 1]) && states[i - 1 + 1] == Apply(states[i - 1], steps[i - 1]);
      FullInvKept(states[i - 1], steps[i - 1]);
    }
  }

  lemma InitFull(s: State)
    requires Init(s)
    ensures FullInv(s)
  {
    InitInv(s);
  }

  /* ---- What it comes to, for every run ---- */

  /** Each granted call is acknowledged at most once, exactly once by the time it returns, and returns in turn. */
  lemma ExactlyOneAcknowledgement(states: seq<State>, steps: seq<Step>, i: nat)
    requires Run(states, steps) && i < |states|
    ensures var s := states[i];
            && s.grants - 1 <= s.gives <= s.grants
            && (s.lock == None || s.lock.value.at !in {Sending, Waiting} ==> s.gives == s.grants)
            && |s.finished| == s.grants - (if s.lock.Some? then 1 else 0)
            && forall j | 0 <= j < |s.finished| :: s.finished[j].capture == j + 1
  {
    RunInv(states, steps, i);
  }

  /** No acknowledgement is given on top of another, no reset of the queue erases a request, and no event is refused. */
  lemma NothingLost(states: seq<State>, steps: seq<Step>, i: nat)
    requires Run(states, steps) && i < |steps|
    ensures var s, step := states[i], steps[i];
            && (step == Owner(Give) ==> !s.done)
            && (step == Owner(Reset) ==> forall e | e in s.queue :: e.Completed?)
            && (step.World? && step.w.Interrupt? ==> |s.queue| < 2)
            && (CallerIs(s, Sending) ==> |s.queue| < 2)
  {
    RunInv(states, steps, i);
    hide TimeInv, ResultInv, HistoryInv, Apply;
    RequestsAbsent(states[i].queue);
    assert Enabled(states[i], steps[i]);
  }

  lemma {:induction false} RequestsAbsent(q: seq<Event>)
    ensures Requests(q) == 0 ==> forall e | e in q :: e.Completed?
  {
    if q != [] {
      RequestsAbsent(q[..|q| - 1]);
      assert q == q[..|q| - 1] + [q[|q| - 1]];
    }
  }

  /** While a caller waits, the owner can always take another step: it never sleeps without a deadline. */
  lemma NeverStuck(states: seq<State>, steps: seq<Step>, i: nat)
    requires Run(states, steps) && i < |states|
    requires CallerIs(states[i], Waiting) && !states[i].done
    ensures exists o :: OwnerEnabled(states[i], o)
  {
    RunInv(states, steps, i);
    var s := states[i];
    var o := match s.owner
      case Top => ComputeWait(1)
      case Receiving(_) => if s.queue != [] then Dequeue else TimeOut
      case NothingReceived => CheckClock
      case Got(_) => Dispatch(ZERO_CODE)
      case Enabling(_) => Enable(ESP_OK)
      case Starting(_) => Start
      case Arming => Arm(ESP_OK)
      case Invalid => Recheck
      case Finishing(_) => Finish(ESP_OK)
      case Resetting(_) => Reset
      case Storing(_) => Store
      case Giving => Give;
    assert OwnerEnabled(s, o);
  }

  /** The receiver is driven as its driver demands, and is off whenever no call is in progress. */
  lemma HardwareProtocol(states: seq<State>, steps: seq<Step>, i: nat)
    requires Run(states, steps) && i < |steps|
    ensures var s, step := states[i], steps[i];
            && (step.Owner? && step.o.Enable? ==> !s.enabled && !s.faulted)
            && (step.Owner? && step.o.Arm? ==> s.enabled && !s.armed)
            && (step.Owner? && step.o.Finish? && s.running ==> s.enabled)
            && (s.lock == None ==> !s.enabled || s.faulted)
  {
    RunInv(states, steps, i);
    hide TimeInv, ResultInv, HistoryInv, Requests;
    assert Enabled(states[i], steps[i]);
  }

  lemma OwnerKeepsFault(s: State, step: OwnerStep)
    requires HardwareInv(s) && OwnerEnabled(s, step) && s.faulted
    ensures ApplyOwner(s, step).faulted && (ApplyOwner(s, step).enabled ==> s.enabled)
  {
    hide Requests, Normalized, WaitTicks;
  }

  /** Once faulted, always faulted, and the receiver is never enabled again. */
  lemma {:induction false} FaultIsFinal(states: seq<State>, steps: seq<Step>, i: nat, j: nat)
    requires Run(states, steps) && i <= j < |states| && states[i].faulted
    ensures states[j].faulted && (states[j].enabled ==> states[i].enabled)
    ensures forall k | i <= k < j :: !(steps[k].Owner? && steps[k].o.Enable?)
    decreases j - i
  {
    hide Enabled, Apply;
    if i < j {
      FaultStays(states, steps, i);
      HardwareProtocol(states, steps, i);
      FaultIsFinal(states, steps, i + 1, j);
    }
  }

  lemma FaultStays(states: seq<State>, steps: seq<Step>, i: nat)
    requires Run(states, steps) && i < |steps| && states[i].faulted
    ensures states[i + 1].faulted && (states[i + 1].enabled ==> states[i].enabled)
  {
    RunInv(states, steps, i);
    hide TimeInv, ResultInv, HistoryInv, TokenInv, HardwareInv, ApplyOwner;
    assert Enabled(states[i], steps[i]) && states[i + 1] == Apply(states[i], steps[i]);
    if steps[i].Owner? {
      OwnerKeepsFault(states[i], steps[i].o);
    }
  }

  /** Every finished call is justified by what the hardware reported during its own capture. */
  lemma ResultsJustified(states: seq<State>, steps: seq<Step>, i: nat, r: Return)
    requires Run(states, steps) && i < |states| && r in states[i].finished
    ensures Justified(r)
  {
    RunInv(states, steps, i);
  }

  /**
   The same in full. A finished call has the error of the driver operation that failed last, if
   any did, and that of a latched fault if there was one already. Otherwise it has succeeded, with
   a completion of this very capture that was final, in time and a frame, or it has timed out, and
   then no completion it saw was all of these. No noise, and nothing else, gives another result.
   */
  lemma ResultsSpelledOut(states: seq<State>, steps: seq<Step>, i: nat, r: Return)
    requires Run(states, steps) && i < |states| && r in states[i].finished
    ensures r.failure.Some? ==> r.err == r.failure.value
    ensures r.failure == None && r.faulted ==> r.err == ESP_ERR_INVALID_STATE
    ensures r.failure == None && !r.faulted ==> r.err == ESP_OK || r.err == ESP_ERR_TIMEOUT
    ensures r.err == ESP_OK ==>
              && r.seen != []
              && var c := r.seen[|r.seen| - 1];
                 && c.isLast && c.capture == r.capture
                 && r.startUs <= c.completedUs <= r.startUs + r.caller.timeoutMs * 1000
                 && c.count <= |c.data| && Capturable(c.data[..c.count])
    ensures r.failure == None && r.err == ESP_ERR_TIMEOUT ==>
              && r.startUs + r.caller.timeoutMs * 1000 <= r.returnedUs
              && forall c | c in r.seen && c.isLast && c.completedUs <= r.startUs + r.caller.timeoutMs * 1000 ::
                   !(c.count <= |c.data| && Capturable(c.data[..c.count]))
    ensures r.err != ESP_OK ==> r.caller.buffer == r.caller.before
  {
    ResultsJustified(states, steps, i, r);
    hide FullInv;
    hide Capturable;
    if r.failure == None && r.err == ESP_ERR_TIMEOUT {
      forall c | c in r.seen
        ensures !Eligible(c, r.deadlineUs)
      {
        var k :| 0 <= k < |r.seen| && r.seen[k] == c;
      }
    }
  }

  /**
   A capture in progress is listening: whenever the owner is not busy with a completion, the
   channel is armed, or exactly one completion is on its way.
   */
  lemma Listening(states: seq<State>, steps: seq<Step>, i: nat)
    requires Run(states, steps) && i < |states| && states[i].running
    requires var o := states[i].owner; o.Top? || o.Receiving? || o.NothingReceived? || o.Got?
    ensures var s := states[i];
            var inHand := s.owner.Got? && s.owner.event.Completed?;
            && s.enabled
            && (s.armed ==> !inHand && s.queue == [])
            && (inHand ==> s.queue == [])
            && (!s.armed && !inHand ==> |s.queue| == 1 && s.queue[0].Completed?)
  {
    RunInv(states, steps, i);
    hide TimeInv, ResultInv, HistoryInv, Requests;
    var s := states[i];
    RequestsAbsent(s.queue);
    assert Requests(s.queue) == 0;
    if s.queue != [] {
      assert s.queue[0] in s.queue;
    }
  }

  /** A call is granted when its timeout is within bounds and no other is in progress; else it is refused, and why. */
  lemma Admission(states: seq<State>, steps: seq<Step>, i: nat, id: nat, timeoutMs: nat, buffer: Code)
    requires Run(states, steps) && i < |steps| && steps[i] == Caller(Enter(id, timeoutMs, buffer))
    ensures var s, s' := states[i], states[i + 1];
            if 1 <= timeoutMs <= 60_000 && s.lock == None then
              && s'.grants == s.grants + 1 && s'.refused == s.refused
              && s'.lock == Some(Holder(id, timeoutMs, Sending, buffer, buffer))
            else
              && s'.refused == s.refused + [Refusal(id, timeoutMs, if 1 <= timeoutMs <= 60_000
                                                                  then ESP_ERR_NOT_FINISHED
                                                                  else ESP_ERR_INVALID_ARG)]
              && s'.(refused := s.refused) == s
  {
    assert Enabled(states[i], steps[i]) && states[i + 1] == Apply(states[i], steps[i]);
  }

  /** A successful capture hands its caller a valid code whose phases are the signal the hardware recorded. */
  lemma CapturedFrameIsSignal(states: seq<State>, steps: seq<Step>, i: nat, r: Return)
    requires Run(states, steps) && i < |states| && r in states[i].finished && r.err == ESP_OK
    ensures ValidCode(r.caller.buffer)
    ensures r.seen != []
    ensures var last := r.seen[|r.seen| - 1];
            && last.count <= |last.data|
            && Phases(r.caller.buffer.symbols) == Padded(Signal(last.data[..last.count]))
  {
    ResultsJustified(states, steps, i, r);
    var last := r.seen[|r.seen| - 1];
    NormalizedIsValid(last.data[..last.count]);
  }

  /**
   The wait the owner computes for a running capture reaches the deadline, overshoots it by less
   than a tick, and fits a 32-bit tick count short of forever.
   */
  lemma WaitIsCeiling(states: seq<State>, steps: seq<Step>, i: nat, tickMs: nat)
    requires Run(states, steps) && i < |steps| && steps[i] == Owner(ComputeWait(tickMs))
    ensures var s, next := states[i], states[i + 1].owner;
            && next.Receiving?
            && (next.ticks.Some? <==> s.running)
            && (s.running ==>
                  var ticks, tickUs := next.ticks.value, tickMs * 1000;
                  && s.now + ticks * tickUs >= s.deadlineUs
                  && (ticks > 0 ==> s.now + (ticks - 1) * tickUs < s.deadlineUs)
                  && ticks <= 60_000 < 0xFFFF_FFFF)
  {
    RunInv(states, steps, i);
    hide HistoryInv, ResultInv, TokenInv, Requests;
    var s := states[i];
    assert Enabled(s, steps[i]) && states[i + 1] == Apply(s, steps[i]);
    if s.running {
      assert s.deadlineUs - s.now <= s.lock.value.timeoutMs * 1000;
      WaitBound(s.deadlineUs - s.now, tickMs);
    }
  }

  lemma WaitBound(remainingUs: int, tickMs: nat)
    requires tickMs > 0 && remainingUs <= MAX_TIMEOUT_MS * 1000
    ensures var ticks, tickUs := WaitTicks(remainingUs, tickMs), tickMs * 1000;
            && ticks * tickUs >= remainingUs
            && (ticks > 0 ==> (ticks - 1) * tickUs < remainingUs)
            && ticks <= MAX_TIMEOUT_MS
  {
    if remainingUs > 0 {
      var ticks, tickUs := WaitTicks(remainingUs, tickMs), tickMs * 1000;
      Ceiling(remainingUs, tickUs);
      Multiple(ticks - 1, tickUs);
    }
  }

  lemma Multiple(n: nat, tickUs: nat)
    requires tickUs >= 1000
    ensures n * tickUs >= n * 1000
  {
    assert n * tickUs == n * 1000 + n * (tickUs - 1000);
  }

  lemma Ceiling(n: nat, d: nat)
    requires n > 0 && d > 0
    ensures var q := (n + d - 1) / d; q * d >= n && (q - 1) * d < n && q > 0
  {
    var q, r := (n + d - 1) / d, (n + d - 1) % d;
    assert q * d + r == n + d - 1;
    assert (q - 1) * d == q * d - d;
  }
}
