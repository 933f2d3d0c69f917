/**
 On-demand capture as an interleaving of callers, the owner task, the RMT interrupt and the
 clock. Each step is one access to something another party can see: a kernel object, the
 hardware, the clock or a shared variable.
 */
module Capture {
  import opened Bytes
  import opened Codes
  import opened Normalizing

  const QUEUE_LENGTH: nat := 2
  const MAX_TIMEOUT_MS: nat := 60000

  /** What the interrupt reports, together with the capture it was armed in and the symbols it left in memory. */
  datatype Completion = Completion(count: nat, isLast: bool, completedUs: int, capture: nat, data: seq<RawSymbol>)

  datatype Event = Request(timeoutMs: nat) | Completed(completion: Completion)

  /** Where the caller holding capture_lock has got to in ir_rx_capture. */
  datatype CallerAt = Sending | Waiting | Acknowledged | Copying(err: Err) | Leaving(err: Err)

  datatype Holder = Holder(id: nat, timeoutMs: nat, at: CallerAt, before: Code, buffer: Code)

  /** Where the owner task has got to in rx_task, start_capture and finish_capture. */
  datatype OwnerAt =
    | Top
    | Receiving(ticks: Option<nat>)
    | NothingReceived
    | Got(event: Event)
    | Enabling(timeoutMs: nat)
    | Starting(timeoutMs: nat)
    | Arming
    | Invalid
    | Finishing(err: Err)
    | Resetting(err: Err)
    | Storing(err: Err)
    | Giving

  /** A finished call that had been granted, with what is known about its capture. */
  datatype Return = Return(caller: Holder, err: Err, capture: nat, startUs: int, deadlineUs: int,
                           seen: seq<Completion>, faulted: bool, failure: Option<Failure>, returnedUs: int)

  /** A call turned away at once. */
  datatype Refusal = Refusal(id: nat, timeoutMs: nat, err: Err)

  datatype State = State(
    queue: seq<Event>,
    lock: Option<Holder>,
    done: bool,
    result: Err,
    running: bool,
    faulted: bool,
    deadlineUs: int,
    pending: Code,
    raw: seq<RawSymbol>,
    enabled: bool,
    armed: bool,
    now: int,
    owner: OwnerAt,
    // History: captures granted and acknowledged, the capture last armed in, the current capture's
    // start, last driver failure and completions, calls finished and calls refused.
    grants: nat,
    gives: nat,
    armedIn: nat,
    startUs: int,
    failure: Option<Failure>,
    seen: seq<Completion>,
    finished: seq<Return>,
    refused: seq<Refusal>)

  const ZERO_CODE := Code(0, 0, 0, [])

  predicate Init(s: State) {
    && s.queue == [] && s.lock == None && !s.done
    && !s.running && !s.faulted && !s.enabled && !s.armed
    && s.owner == Top
    && s.grants == 0 && s.gives == 0 && s.finished == [] && s.refused == []
  }

  /** The remaining time in whole ticks, rounded up, or 0 when nothing remains. */
  function WaitTicks(remainingUs: int, tickMs: nat): nat
    requires tickMs > 0
  {
    if remainingUs > 0 then (remainingUs + tickMs * 1000 - 1) / (tickMs * 1000) else 0
  }

  /** A completion that makes the capture succeed. */
  predicate Eligible(c: Completion, deadlineUs: int) {
    && c.completedUs <= deadlineUs
    && c.isLast
    && c.count <= |c.data|
    && Normalized(c.data[..c.count]).Some?
  }

  /** The clock and the interrupt. */
  datatype WorldStep = Tick(us: nat) | Interrupt(data: seq<RawSymbol>, count: nat, isLast: bool)

  /** ir_rx_capture, in the order of its statements. */
  datatype CallerStep =
    | Enter(id: nat, timeoutMs: nat, buffer: Code)
    | Send
    | Take
    | ReadResult
    | CopyFrame
    | Leave

  /** rx_task, start_capture and finish_capture; err is what the hardware answers. */
  datatype OwnerStep =
    | ComputeWait(tickMs: nat)
    | Dequeue
    | TimeOut
    | CheckClock
    | Dispatch(clobbered: Code)
    | Enable(err: Err)
    | Start
    | Arm(err: Err)
    | Recheck
    | Finish(err: Err)
    | Reset
    | Store
    | Give

  datatype Step = World(w: WorldStep) | Caller(c: CallerStep) | Owner(o: OwnerStep)

  predicate CallerIs(s: State, at: CallerAt) {
    s.lock.Some? && s.lock.value.at == at
  }

  predicate WorldEnabled(s: State, step: WorldStep) {
    match step
    case Tick(_) => true
    case Interrupt(data, count, _) => s.enabled && s.armed && |data| == RX_MEM_SYMBOLS && count <= |data|
  }

  function ApplyWorld(s: State, step: WorldStep): State
    requires WorldEnabled(s, step)
  {
    match step
    case Tick(us) => s.(now := s.now + us)
    case Interrupt(data, count, isLast) =>
      var event := Completed(Completion(count, isLast, s.now, s.armedIn, data));
      // xQueueSendFromISR: a full queue loses the event, and the callback ignores that.
      s.(armed := false, raw := data, queue := if |s.queue| < QUEUE_LENGTH then s.queue + [event] else s.queue)
  }

  predicate CallerEnabled(s: State, step: CallerStep) {
    match step
    case Enter(_, _, _) => true
    case Send => CallerIs(s, Sending) && |s.queue| < QUEUE_LENGTH
    case Take => CallerIs(s, Waiting) && s.done
    case ReadResult => CallerIs(s, Acknowledged)
    case CopyFrame => s.lock.Some? && s.lock.value.at.Copying?
    case Leave => s.lock.Some? && s.lock.value.at.Leaving?
  }

  function Move(s: State, at: CallerAt): State
    requires s.lock.Some?
  {
    s.(lock := Some(s.lock.value.(at := at)))
  }

  /** Why a call is turned away at once, if it is. */
  function Obstacle(lock: Option<Holder>, timeoutMs: nat): Option<Err> {
    if timeoutMs == 0 || timeoutMs > MAX_TIMEOUT_MS then Some(ESP_ERR_INVALID_ARG)
    else if lock.Some? then Some(ESP_ERR_NOT_FINISHED)
    else None
  }

  function ApplyCaller(s: State, step: CallerStep): State
    requires CallerEnabled(s, step)
  {
    match step
    case Enter(id, timeoutMs, buffer) =>
      var obstacle := Obstacle(s.lock, timeoutMs);
      if obstacle.Some? then s.(refused := s.refused + [Refusal(id, timeoutMs, obstacle.value)])
      else s.(lock := Some(Holder(id, timeoutMs, Sending, buffer, buffer)), grants := s.grants + 1)
    case Send => Move(s, Waiting).(queue := s.queue + [Request(s.lock.value.timeoutMs)])
    case Take => Move(s, Acknowledged).(done := false)
    case ReadResult => Move(s, Copying(s.result))
    case CopyFrame =>
      var err := s.lock.value.at.err;
      var buffer := if err == ESP_OK then s.pending else s.lock.value.buffer;
      s.(lock := Some(s.lock.value.(at := Leaving(err), buffer := buffer)))
    case Leave =>
      s.(lock := None,
         finished := s.finished + [Return(s.lock.value, s.lock.value.at.err, s.grants, s.startUs, s.deadlineUs,
                                          s.seen, s.faulted, s.failure, s.now)])
  }

  predicate OwnerEnabled(s: State, step: OwnerStep) {
    match step
    case ComputeWait(tickMs) => s.owner == Top && tickMs > 0
    case Dequeue => s.owner.Receiving? && s.queue != []
    case TimeOut => s.owner.Receiving? && s.owner.ticks.Some? && s.queue == []
    case CheckClock => s.owner == NothingReceived
    case Dispatch(_) => s.owner.Got?
    case Enable(_) => s.owner.Enabling?
    case Start => s.owner.Starting?
    case Arm(_) => s.owner == Arming
    case Recheck => s.owner == Invalid
    case Finish(_) => s.owner.Finishing?
    case Reset => s.owner.Resetting?
    case Store => s.owner.Storing?
    case Give => s.owner == Giving
  }

  /** Handling a received event: start_capture up to its first hardware access, or the judgement of a completion. */
  function Dispatched(s: State, event: Event, clobbered: Code): State {
    match event
    case Request(timeoutMs) =>
      if s.faulted then s.(owner := Finishing(ESP_ERR_INVALID_STATE), failure := None, seen := [])
      else s.(owner := Enabling(timeoutMs), pending := ZERO_CODE, failure := None, seen := [])
    case Completed(c) =>
      if !s.running then s.(owner := Top)
      else
        var s' := s.(seen := s.seen + [c]);
        if c.completedUs > s.deadlineUs then s'.(owner := Finishing(ESP_ERR_TIMEOUT))
        else if c.isLast && c.count <= |s.raw| && Normalized(s.raw[..c.count]).Some?
        then s'.(owner := Finishing(ESP_OK), pending := Normalized(s.raw[..c.count]).value)
        else s'.(owner := Invalid, pending := clobbered)
  }

  function ApplyOwner(s: State, step: OwnerStep): State
    requires OwnerEnabled(s, step)
  {
    match step
    case ComputeWait(tickMs) =>
      s.(owner := Receiving(if s.running then Some(WaitTicks(s.deadlineUs - s.now, tickMs)) else None))
    case Dequeue => s.(owner := Got(s.queue[0]), queue := s.queue[1..])
    case TimeOut => s.(owner := NothingReceived)
    case CheckClock =>
      s.(owner := if s.running && s.now >= s.deadlineUs then Finishing(ESP_ERR_TIMEOUT) else Top)
    case Dispatch(clobbered) => Dispatched(s, s.owner.event, clobbered)
    case Enable(err) =>
      if err == ESP_OK then s.(enabled := true, running := true, owner := Starting(s.owner.timeoutMs))
      else s.(failure := Some(err), owner := Finishing(err))
    case Start =>
      s.(startUs := s.now, deadlineUs := s.now + s.owner.timeoutMs * 1000, owner := Arming)
    case Arm(err) =>
      if err == ESP_OK then s.(armed := true, armedIn := s.grants, owner := Top)
      else s.(failure := Some(err), owner := Finishing(err))
    case Recheck =>
      s.(owner := if s.now >= s.deadlineUs then Finishing(ESP_ERR_TIMEOUT) else Arming)
    case Finish(err) =>
      if !s.running then s.(owner := Resetting(s.owner.err))
      else if err == ESP_OK
      then s.(running := false, enabled := false, armed := false, owner := Resetting(s.owner.err))
      else s.(running := false, faulted := true, failure := Some(err), owner := Resetting(err))
    case Reset => s.(queue := [], owner := Storing(s.owner.err))
    case Store => s.(result := s.owner.err, owner := Giving)
    case Give => s.(done := true, gives := s.gives + 1, owner := Top)
  }

  /** When a step can happen: the assumed behaviour of the kernel and the hardware. */
  predicate Enabled(s: State, step: Step) {
    match step
    case World(w) => WorldEnabled(s, w)
    case Caller(c) => CallerEnabled(s, c)
    case Owner(o) => OwnerEnabled(s, o)
  }

  function Apply(s: State, step: Step): State
    requires Enabled(s, step)
  {
    match step
    case World(w) => ApplyWorld(s, w)
    case Caller(c) => ApplyCaller(s, c)
    case Owner(o) => ApplyOwner(s, o)
  }

  /** The states of a run, one step after another. */
  predicate Run(states: seq<State>, steps: seq<Step>) {
    && |states| == |steps| + 1
    && Init(states[0])
    && forall i | 0 <= i < |steps| :: Enabled(states[i], steps[i]) && states[i + 1] == Apply(states[i], steps[i])
  }
}
