/** What every step of the capture machine keeps, and what follows for every run. */
module CaptureSafety {
  import opened Codes
  import opened Normalizing
  import opened Capture

  function Requests(q: seq<Event>): (n: nat)
    ensures n <= |q|
  {
    if q == [] then 0 else Requests(q[..|q| - 1]) + if q[|q| - 1].Request? then 1 else 0
  }

  function Completions(q: seq<Event>): nat {
    |q| - Requests(q)
  }

  lemma {:induction false} RequestsFront(q: seq<Event>)
    requires q != []
    ensures Requests(q) == (if q[0].Request? then 1 else 0) + Requests(q[1..])
  {
    if |q| > 1 {
      RequestsFront(q[..|q| - 1]);
      assert q[..|q| - 1][1..] == q[1..][..|q[1..]| - 1];
    }
  }

  function One(b: bool): nat {
    if b then 1 else 0
  }

  /** The owner is dealing with a request: the capture runs, or is being started or finished. */
  predicate Busy(s: State) {
    || s.running
    || s.owner.Enabling? || s.owner.Starting? || s.owner.Arming? || s.owner.Invalid?
    || s.owner.Finishing? || s.owner.Resetting? || s.owner.Storing? || s.owner.Giving?
    || (s.owner.Got? && s.owner.event.Request?)
  }

  /**
   A caller past its send, and no one else, has exactly one token in the system: its request
   in the queue, the owner's attention, or the acknowledgement.
   */
  predicate TokenInv(s: State) {
    && Requests(s.queue) + One(Busy(s)) + One(s.done) == One(CallerIs(s, Waiting))
    && s.grants == s.gives + One(s.lock.Some? && (s.lock.value.at == Sending || (s.lock.value.at == Waiting && !s.done)))
    && |s.finished| + One(s.lock.Some?) == s.grants
  }

  /** Completions not yet judged, in the hardware, the queue or the owner's hands. */
  function Outstanding(s: State): nat {
    One(s.armed) + Completions(s.queue) + One(s.owner.Got? && s.owner.event.Completed?)
  }

  predicate HardwareInv(s: State) {
    && (s.armed ==> s.enabled)
    && (s.running ==> s.enabled && !s.faulted)
    && (s.enabled ==> s.running || s.faulted)
    && (s.owner.Enabling? ==> !s.running && !s.faulted)
    && (s.owner.Starting? || s.owner.Arming? || s.owner.Invalid? ==> s.running)
    && (s.owner.Resetting? || s.owner.Storing? || s.owner.Giving? || (s.owner.Got? && s.owner.event.Request?) ==> !s.running)
    && (s.owner.Receiving? && s.running ==> s.owner.ticks.Some?)
    && Outstanding(s) <= 1
    && (s.running && (s.owner.Top? || s.owner.Receiving? || s.owner.NothingReceived? || s.owner.Got?) ==>
          Outstanding(s) == 1)
    && (s.owner.Starting? || s.owner.Arming? || s.owner.Invalid? ==> Outstanding(s) == 0)
    && (!s.running && !s.faulted && !s.owner.Resetting? ==> Outstanding(s) == 0)
  }

  predicate Inv(s: State) {
    TokenInv(s) && HardwareInv(s)
  }

  lemma InitInv(s: State)
    requires Init(s)
    ensures Inv(s)
  {
  }

  lemma RequestsPush(q: seq<Event>, e: Event)
    ensures Requests(q + [e]) == Requests(q) + One(e.Request?)
  {
    assert (q + [e])[..|q + [e]| - 1] == q;
  }

  lemma RequestsNone()
    ensures Requests([]) == 0
  {
  }

  lemma WorldKeeps(s: State, step: WorldStep)
    requires Inv(s) && WorldEnabled(s, step)
    ensures Inv(ApplyWorld(s, step))
  {
    hide Requests;
    if step.Interrupt? {
      RequestsPush(s.queue, Completed(Completion(step.count, step.isLast, s.now, s.armedIn, step.data)));
    }
  }

  /** The call is turned away at once, and leaves no trace but that. */
  predicate TurnedAway(s: State, step: CallerStep) {
    step.Enter? && Obstacle(s.lock, step.timeoutMs).Some?
  }

  lemma CallerKeeps(s: State, step: CallerStep)
    requires Inv(s) && CallerEnabled(s, step)
    ensures Inv(ApplyCaller(s, step))
  {
    hide Requests;
    if TurnedAway(s, step) {
      return;
    }
    if step.Send? {
      RequestsPush(s.queue, Request(s.lock.value.timeoutMs));
    }
  }

  lemma DispatchKeeps(s: State, clobbered: Code)
    requires Inv(s) && s.owner.Got?
    ensures Inv(Dispatched(s, s.owner.event, clobbered))
  {
    hide Normalized, Requests;
  }

  lemma OwnerKeepsToken(s: State, step: OwnerStep)
    requires Inv(s) && OwnerEnabled(s, step) && !step.Dispatch?
    ensures TokenInv(ApplyOwner(s, step))
  {
    hide WaitTicks, Requests;
    RequestsNone();
    if step.Dequeue? {
      RequestsFront(s.queue);
    }
  }

  lemma OwnerKeepsHardware(s: State, step: OwnerStep)
    requires Inv(s) && OwnerEnabled(s, step) && !step.Dispatch?
    ensures HardwareInv(ApplyOwner(s, step))
  {
    hide WaitTicks, Requests;
    RequestsNone();
    if step.Dequeue? {
      RequestsFront(s.queue);
    }
  }

  lemma OwnerKeeps(s: State, step: OwnerStep)
    requires Inv(s) && OwnerEnabled(s, step)
    ensures Inv(ApplyOwner(s, step))
  {
    hide TokenInv, HardwareInv, Dispatched;
    if step.Dispatch? {
      DispatchKeeps(s, step.clobbered);
    } else {
      OwnerKeepsToken(s, step);
      OwnerKeepsHardware(s, step);
    }
  }

  lemma InvKept(s: State, step: Step)
    requires Inv(s) && Enabled(s, step)
    ensures Inv(Apply(s, step))
  {
    hide Inv, ApplyWorld, ApplyCaller, ApplyOwner;
    match step
    case World(w) => WorldKeeps(s, w);
    case Caller(c) => CallerKeeps(s, c);
    case Owner(o) => OwnerKeeps(s, o);
  }
}
