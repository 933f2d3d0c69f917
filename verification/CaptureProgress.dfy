/**
 Requests are taken up and deadlines are met, each within a fixed number of the owner's own steps.
 */
module CaptureProgress {
  import opened Normalizing
  import opened Capture
  import opened CaptureSafety
  import opened CaptureVerdict

  const LIMIT: nat := 9

  /** The deadline of a running capture has passed, or the capture is being finished. */
  predicate Ending(s: State) {
    || (s.running && !s.owner.Starting? && s.now >= s.deadlineUs)
    || s.owner.Finishing? || s.owner.Resetting? || s.owner.Storing? || s.owner.Giving?
  }

  /** How many owner steps are left, at most, before the acknowledgement. */
  function Countdown(s: State): (n: nat)
    ensures 1 <= n <= LIMIT
  {
    match s.owner
    case Giving => 1
    case Storing(_) => 2
    case Resetting(_) => 3
    case Finishing(_) => 4
    case Invalid => 5
    case NothingReceived => 6
    case Got(_) => 6
    case Receiving(_) => 7
    case Top => 8
    case _ => LIMIT
  }

  lemma WorldDoesNotDelay(s: State, step: WorldStep)
    requires Ending(s) && WorldEnabled(s, step)
    ensures Ending(ApplyWorld(s, step)) && Countdown(ApplyWorld(s, step)) == Countdown(s)
  {
  }

  lemma CallerDoesNotDelay(s: State, step: CallerStep)
    requires Ending(s) && CallerEnabled(s, step)
    ensures Ending(ApplyCaller(s, step)) && Countdown(ApplyCaller(s, step)) == Countdown(s)
  {
  }

  lemma OwnerAdvances(s: State, step: OwnerStep)
    requires FullInv(s) && Ending(s) && OwnerEnabled(s, step) && step != Give
    ensures Ending(ApplyOwner(s, step)) && Countdown(ApplyOwner(s, step)) < Countdown(s)
  {
    hide TimeInv, ResultInv, HistoryInv, Requests, Normalized, WaitTicks;
  }

  function OwnerSteps(steps: seq<Step>): nat {
    if steps == [] then 0 else OwnerSteps(steps[1..]) + if steps[0].Owner? then 1 else 0
  }

  /**
   However the steps interleave, and whatever the hardware reports, a capture whose deadline has
   passed is acknowledged before the owner has taken ten more steps.
   */
  lemma {:induction false} AcknowledgedSoon(states: seq<State>, steps: seq<Step>, i: nat, j: nat)
    requires Run(states, steps) && i <= j <= |steps|
    requires Ending(states[i]) && OwnerSteps(steps[i..j]) >= Countdown(states[i])
    ensures exists k :: i <= k < j && steps[k] == Owner(Give)
    decreases j - i
  {
    hide FullInv, Ending, Countdown, Enabled, Apply, OwnerEnabled, ApplyOwner;
    if i < j {
      var s, step := states[i], steps[i];
      RunInv(states, steps, i);
      assert Enabled(s, step) && states[i + 1] == Apply(s, step);
      assert steps[i..j][1..] == steps[i + 1..j] && steps[i..j][0] == step;
      if step != Owner(Give) {
        StepAdvances(s, step);
        AcknowledgedSoon(states, steps, i + 1, j);
      }
    }
  }

  lemma StepAdvances(s: State, step: Step)
    requires FullInv(s) && Ending(s) && Enabled(s, step) && step != Owner(Give)
    ensures Ending(Apply(s, step))
    ensures Countdown(Apply(s, step)) + (if step.Owner? then 1 else 0) <= Countdown(s)
  {
    hide FullInv, Ending, ApplyOwner, ApplyCaller, ApplyWorld;
    match step
    case World(w) => WorldDoesNotDelay(s, w);
    case Caller(c) => CallerDoesNotDelay(s, c);
    case Owner(o) => OwnerAdvances(s, o);
  }

  /** A caller waits for an acknowledgement that has not been given. */
  predicate Unanswered(s: State) {
    CallerIs(s, Waiting) && !s.done
  }

  /** The owner has taken the request up: its capture runs with a deadline, or is being finished. */
  predicate TakenUp(s: State) {
    (s.running && !s.owner.Starting?) || Ending(s)
  }

  /** How many events are in the queue before the request. */
  function Ahead(q: seq<Event>): nat {
    if q != [] && q[0].Request? then 0 else 1
  }

  /** How many owner steps are left, at most, before the request is taken up. */
  function Approach(s: State): (n: nat)
    ensures 1 <= n <= LIMIT
  {
    match s.owner
    case Starting(_) => 1
    case Enabling(_) => 2
    case Receiving(_) => 4 + 3 * Ahead(s.queue)
    case Top => 5 + 3 * Ahead(s.queue)
    case Got(e) => if e.Request? then 3 else 6 + 3 * Ahead(s.queue)
    case _ => 6 + 3 * Ahead(s.queue)
  }

  /** A request not yet taken up is at the front of the queue, or behind one completion. */
  lemma RequestInQueue(s: State)
    requires Inv(s) && Unanswered(s) && !Busy(s)
    ensures Ahead(s.queue) < |s.queue| <= 2 && s.queue[Ahead(s.queue)].Request?
  {
    RequestsFront(s.queue);
    if |s.queue| > 1 {
      RequestsFront(s.queue[1..]);
    }
  }

  lemma OwnerApproaches(s: State, step: OwnerStep)
    requires Inv(s) && Unanswered(s) && !TakenUp(s) && OwnerEnabled(s, step)
    ensures var s' := ApplyOwner(s, step);
            Unanswered(s') && (TakenUp(s') || Approach(s') < Approach(s))
  {
    hide Requests, Normalized, WaitTicks;
    if !Busy(s) {
      RequestInQueue(s);
    }
  }

  lemma WorldDoesNotDefer(s: State, step: WorldStep)
    requires Inv(s) && Unanswered(s) && !TakenUp(s) && WorldEnabled(s, step)
    ensures var s' := ApplyWorld(s, step);
            Unanswered(s') && !TakenUp(s') && Approach(s') <= Approach(s)
  {
    hide Requests;
    if !Busy(s) {
      RequestInQueue(s);
    }
  }

  lemma CallerDoesNotDefer(s: State, step: CallerStep)
    requires Unanswered(s) && !TakenUp(s) && CallerEnabled(s, step)
    ensures var s' := ApplyCaller(s, step);
            Unanswered(s') && !TakenUp(s') && Approach(s') == Approach(s)
  {
  }

  lemma StepApproaches(s: State, step: Step)
    requires Inv(s) && Unanswered(s) && !TakenUp(s) && Enabled(s, step)
    ensures var s' := Apply(s, step);
            && Unanswered(s')
            && (TakenUp(s') || Approach(s') + (if step.Owner? then 1 else 0) <= Approach(s))
  {
    hide Inv, TakenUp, Approach, ApplyOwner, ApplyWorld, ApplyCaller;
    match step
    case World(w) => WorldDoesNotDefer(s, w);
    case Caller(c) => CallerDoesNotDefer(s, c);
    case Owner(o) => OwnerApproaches(s, o);
  }

  /**
   However the steps interleave, a request that has been sent is taken up before the owner has
   taken ten more steps.
   */
  lemma {:induction false} TakenUpSoon(states: seq<State>, steps: seq<Step>, i: nat, j: nat)
    requires Run(states, steps) && i <= j <= |steps|
    requires Unanswered(states[i]) && OwnerSteps(steps[i..j]) >= Approach(states[i])
    ensures exists k :: i <= k <= j && TakenUp(states[k])
    decreases j - i
  {
    hide FullInv, TakenUp, Approach, Enabled, Apply, Unanswered;
    if i < j && !TakenUp(states[i]) {
      var s, step := states[i], steps[i];
      RunInv(states, steps, i);
      assert Inv(s) by {
        FullIsInv(s);
      }
      assert Enabled(s, step) && states[i + 1] == Apply(s, step);
      assert steps[i..j][1..] == steps[i + 1..j] && steps[i..j][0] == step;
      StepApproaches(s, step);
      if !TakenUp(states[i + 1]) {
        TakenUpSoon(states, steps, i + 1, j);
      }
    }
  }

  lemma FullIsInv(s: State)
    requires FullInv(s)
    ensures Inv(s)
  {
    hide Inv, TimeInv, ResultInv, HistoryInv;
  }
}
