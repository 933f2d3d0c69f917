/** The Linux character device: a byte stream carved out of FTDI packets. */
module FtdiDriver {
  import opened Bytes
  import opened Packets

  const FTDI_PACKET_SIZE: nat := 64
  const FTDI_STATUS_SIZE: nat := 2
  const RX_DATA_SIZE: nat := 62

  const EIO: nat := 5
  const ENOMEM: nat := 12
  const EFAULT: nat := 14
  const ENODEV: nat := 19
  const EMSGSIZE: nat := 90
  const ETIMEDOUT: nat := 110

  /** What one attempt to receive meets: a USB packet, a failed transfer, or a device that is gone. */
  datatype UsbEvent = Usb(packet: UsbPacket) | Error(errno: Errno) | Unplugged

  type UsbPacket = p: seq<byte> | |p| <= FTDI_PACKET_SIZE
  type Errno = n: nat | n > 0 witness EIO

  /** A nonnegative return value, with the bytes copied, or a negated error number. */
  datatype Result = Bytes(data: seq<byte>) | Failed(errno: Errno)

  /** A read call that has returned. */
  datatype Served = Served(count: nat, result: Result)

  /** One read system call: what it asks for, and what the kernel does to it. */
  datatype Call = Call(count: nat, memory: bool, faultAt: Option<nat>)

  function DataOf(r: Result): seq<byte> {
    if r.Bytes? then r.data else []
  }

  /** Everything a list of calls returned. */
  function Delivered(results: seq<Result>): seq<byte> {
    if results == [] then [] else Delivered(results[..|results| - 1]) + DataOf(results[|results| - 1])
  }

  /** At most what was asked for, and something if anything was. */
  predicate Fits(call: Call, r: Result) {
    |DataOf(r)| <= call.count && (call.count > 0 && r.Bytes? ==> r.data != [])
  }

  lemma NothingDelivered()
    ensures Delivered([]) == []
  {
  }

  lemma DeliveredNext(results: seq<Result>, r: Result)
    ensures Delivered(results + [r]) == Delivered(results) + DataOf(r)
  {
    assert (results + [r])[..|results + [r]| - 1] == results;
  }

  /** The UART bytes of one event: everything after the two status bytes. */
  function Content(e: UsbEvent): seq<byte> {
    if Good(e) then e.packet[FTDI_STATUS_SIZE..] else []
  }

  function Contents(es: seq<UsbEvent>): seq<byte> {
    if es == [] then [] else Contents(es[..|es| - 1]) + Content(es[|es| - 1])
  }

  /** A packet with its status bytes. */
  predicate Good(e: UsbEvent) {
    e.Usb? && |e.packet| >= FTDI_STATUS_SIZE
  }

  /** The error a transfer ends in, if it is not Good. */
  function ErrnoOf(e: UsbEvent): Errno {
    match e
    case Usb(_) => EIO
    case Error(errno) => errno
    case Unplugged => ENODEV
  }

  /** The next transfer, if there is one, fails. */
  predicate FailsAt(trace: seq<UsbEvent>, pos: nat) {
    pos >= |trace| || !Good(trace[pos])
  }

  /** The error a transfer at this point fails with. */
  function FailureAt(trace: seq<UsbEvent>, pos: nat): Errno {
    if pos >= |trace| then ETIMEDOUT else ErrnoOf(trace[pos])
  }

  /** The errors by number: 110 is ETIMEDOUT, 19 ENODEV and 5 EIO. */
  ghost predicate FailsWith(trace: seq<UsbEvent>, pos: nat, r: Result) {
    if pos >= |trace| then r == Failed(110)
    else match trace[pos]
      case Unplugged => r == Failed(19)
      case Error(errno) => r == Failed(errno)
      case Usb(packet) => |packet| < 2 ==> r == Failed(5)
  }

  lemma FailureNumber(trace: seq<UsbEvent>, pos: nat)
    ensures FailsAt(trace, pos) ==> FailsWith(trace, pos, Failed(FailureAt(trace, pos)))
    ensures !FailsAt(trace, pos) ==> forall r :: FailsWith(trace, pos, r)
  {
  }

  /** The UART bytes of a packet are all but its first two. */
  lemma ContentSpelledOut(e: UsbEvent)
    ensures Content(e) == if e.Usb? && |e.packet| >= 2 then e.packet[2..] else []
  {
  }

  /** Packets that a read goes past: one without bytes only as long as there is nothing to return. */
  ghost predicate Flowing(initial: seq<byte>, met: seq<UsbEvent>) {
    forall i | 0 <= i < |met| :: Good(met[i]) && (Content(met[i]) == [] ==> initial + Contents(met[..i]) == [])
  }

  /**
   A read of at most count bytes: what was buffered and the contents of the events it met become
   the bytes returned and what is left. It stops when it has count bytes, at the first event
   without bytes once there is something to return, at a failure, or when the device has run dry.
   */
  ghost predicate OneRead(count: nat, initial: seq<byte>, met: seq<UsbEvent>,
                          data: seq<byte>, left: seq<byte>, dry: bool) {
    && data + left == initial + Contents(met)
    && |data| <= count
    && Unplugged !in met
    && (met != [] ==> |initial + Contents(met[..|met| - 1])| < count)
    && Flowing(initial, if met == [] then met else met[..|met| - 1])
    && (|data| == count && met != [] ==> Content(met[|met| - 1]) != [])
    && (|data| < count ==> left == [] && (dry || (met != [] && Content(met[|met| - 1]) == [])))
  }

  lemma ContentsSnoc(es: seq<UsbEvent>, e: UsbEvent)
    ensures Contents(es + [e]) == Contents(es) + Content(e)
  {
    assert (es + [e])[..|es + [e]| - 1] == es;
  }

  lemma {:induction false} ContentsAppend(es: seq<UsbEvent>, fs: seq<UsbEvent>)
    ensures Contents(es + fs) == Contents(es) + Contents(fs)
  {
    if fs == [] {
      assert es + fs == es;
    } else {
      var front, last := fs[..|fs| - 1], fs[|fs| - 1];
      ContentsAppend(es, front);
      Assoc(es, front, [last]);
      assert front + [last] == fs;
      ContentsSnoc(es + front, last);
      Assoc(Contents(es), Contents(front), Content(last));
    }
  }

  class IrDevice {
    const rxData: array<byte>
    var rxLen: nat
    var rxOffset: nat

    /** The events still to come; once they run out every transfer times out. */
    const trace: seq<UsbEvent>
    var pos: nat

    /** The bytes the OUT endpoint has taken. */
    var wire: seq<byte>

    /** Every read call so far. */
    ghost var served: seq<Served>

    ghost predicate Valid()
      reads `rxLen, `rxOffset, `pos
    {
      && rxData.Length == RX_DATA_SIZE
      && rxOffset <= rxLen <= rxData.Length
      && pos <= |trace|
    }

    /** Bytes received and not yet read. */
    ghost function Pending(): seq<byte>
      requires Valid()
      reads `rxLen, `rxOffset, `pos, rxData
    {
      rxData[rxOffset..rxLen]
    }

    /** Every UART byte that has arrived or will arrive and has not been read. */
    ghost function Unread(): seq<byte>
      requires Valid()
      reads `rxLen, `rxOffset, `pos, rxData
    {
      Pending() + Contents(trace[pos..])
    }

    constructor (trace: seq<UsbEvent>)
      ensures Valid() && Pending() == [] && fresh(rxData) && this.trace == trace && pos == 0 && wire == []
      ensures served == []
    {
      this.trace := trace;
      rxData := new byte[RX_DATA_SIZE];
      rxLen, rxOffset, pos, wire, served := 0, 0, 0, [], [];
    }

    /**
     ir_read. memory says whether kmalloc succeeds; the copy numbered faultAt, if there is one,
     meets a bad user address.
     */
    method Read(count: nat, memory: bool, faultAt: Option<nat>) returns (r: Result)
      requires Valid()
      modifies `rxLen, `rxOffset, `pos, rxData, `served
      ensures served == old(served) + [Served(count, r)]
      ensures Valid() && old(pos) <= pos
      // Nothing is lost, duplicated or reordered, whatever the outcome.
      ensures DataOf(r) + Pending() == old(Pending()) + Contents(trace[old(pos)..pos])
      ensures r.Bytes? ==> |r.data| <= count
      // A positive count never reads as the end of the file.
      ensures count > 0 && r.Bytes? ==> r.data != []
      // A short count means that the line went quiet or failed.
      ensures r.Bytes? && |r.data| < count && faultAt == None ==> Quiet(old(pos))
      // Bytes already received are delivered before any error.
      ensures count > 0 && memory && faultAt != Some(0) && old(Pending()) != [] ==> r.Bytes?
      ensures r == Failed(ENODEV) ==> old(Pending()) == [] && Pending() == []
      // A failed transfer ends the call.
      ensures forall i | old(pos) <= i < pos - 1 :: Good(trace[i])
      // Without bad addresses the call takes exactly what OneRead says.
      ensures count > 0 && memory && faultAt == None ==>
                OneRead(count, old(Pending()), trace[old(pos)..pos], DataOf(r), Pending(), Dry())
      // With nothing buffered, a failure that comes first is reported.
      ensures old(Pending()) == [] && count > 0 && memory ==> FailsWith(trace, old(pos), r)
      // Failures are only the ones the events, the allocator or the copies explain.
      ensures r.Failed? ==>
                || (!memory && r.errno == ENOMEM && pos == old(pos))
                || (faultAt == Some(0) && r.errno == EFAULT)
                || (Pending() == [] && Explained(old(pos), r.errno))
    {
      hide Contents, Content, Good, Flowing, OneRead, FailsAt, FailureAt, FailsWith;
      NoContents(trace, pos);
      if count == 0 {
        r := Bytes([]);
        served := served + [Served(count, r)];
        return;
      }
      if !memory {
        r := Failed(ENOMEM);
        served := served + [Served(count, r)];
        return;
      }
      var copied, ret := CopyLoop(count, faultAt);
      FlowingIsGood(old(Pending()), trace, old(pos), pos);
      FailureNumber(trace, old(pos));
      if faultAt == None {
        LoopIsOneRead(count, old(Pending()), trace, old(pos), pos, copied, Pending(), Dry());
      }
      r := if copied != [] then Bytes(copied) else Failed(ret);
      served := served + [Served(count, r)];
    }

    /** ir_read's loop: the bytes copied, and the error that counts when there are none. */
    method CopyLoop(count: nat, faultAt: Option<nat>) returns (copied: seq<byte>, ret: nat)
      requires Valid() && count > 0
      modifies `rxLen, `rxOffset, `pos, rxData
      ensures Valid() && old(pos) <= pos && Conserved(old(pos), old(Pending()), copied)
      ensures |copied| <= count
      ensures Flowing(old(Pending()), trace[old(pos)..if pos > old(pos) then pos - 1 else pos])
      ensures old(pos) < pos ==> trace[pos - 1] != Unplugged && (|copied| == count ==> Content(trace[pos - 1]) != [])
      ensures old(pos) < pos ==> |old(Pending()) + Contents(trace[old(pos)..pos - 1])| < count
      ensures |copied| < count && faultAt == None ==> Quiet(old(pos))
      ensures copied == [] ==> old(Pending()) == [] || faultAt == Some(0)
      ensures copied == [] ==>
                ret > 0 && ((faultAt == Some(0) && ret == EFAULT) || (Pending() == [] && Explained(old(pos), ret)))
      ensures old(Pending()) == [] && FailsAt(trace, old(pos)) ==>
                copied == [] && ret == FailureAt(trace, old(pos))
    {
      hide FailsAt, FailureAt;
      hide Contents, Content, Good, Pending, Quiet, Explained, Conserved, Flowing;
      Untouched();
      var copies := 0;
      copied, ret := [], 0;
      while |copied| < count
        invariant Valid() && old(pos) <= pos && Conserved(old(pos), old(Pending()), copied)
        invariant ret == 0 && |copied| <= count
        invariant Flowing(old(Pending()), trace[old(pos)..pos])
        invariant old(pos) < pos ==> Good(trace[pos - 1]) && trace[pos - 1] != Unplugged
        invariant old(pos) < pos ==> |old(Pending()) + Contents(trace[old(pos)..pos - 1])| < count
        invariant old(pos) < pos && Content(trace[pos - 1]) == [] ==> rxOffset == rxLen && copied == []
        invariant old(Pending()) == [] && FailsAt(trace, old(pos)) ==>
                    pos == old(pos) && rxOffset == rxLen && copied == []
        invariant copied == [] ==> copies == 0 && (old(Pending()) == [] || (pos == old(pos) && rxOffset < rxLen))
        decreases |trace| - pos, count - |copied|
      {
        if rxOffset < rxLen {
          if faultAt == Some(copies) {
            FlowingFront(old(Pending()), trace, old(pos), pos);
            ret := EFAULT;
            break;
          }
          copied := CopyOut(old(pos), old(Pending()), copied, count);
          copies := copies + 1;
          continue;
        }
        ret := Refill(old(pos), old(Pending()), copied);
        if ret != 0 || (rxLen == 0 && copied != []) {
          break;
        }
      }
      FlowingFront(old(Pending()), trace, old(pos), pos);
    }

    /** A read under way: what was copied and what is buffered is what there was and what has arrived. */
    ghost predicate Conserved(start: nat, initial: seq<byte>, copied: seq<byte>)
      reads `rxLen, `rxOffset, `pos, rxData
    {
      && Valid()
      && start <= pos
      && copied + Pending() == initial + Contents(trace[start..pos])
    }

    /** Nothing is buffered, and the last event, or the next, brings nothing. */
    ghost predicate Quiet(start: nat)
      requires Valid()
      reads `rxLen, `rxOffset, `pos, rxData
    {
      && Pending() == []
      && (Dry() || (start < pos && Content(trace[pos - 1]) == []))
    }

    /** The part of ir_read's loop that empties the buffer: one copy to the user. */
    method TakePending(wanted: nat) returns (taken: seq<byte>)
      requires Valid() && rxOffset < rxLen && wanted > 0
      modifies `rxOffset
      ensures Valid() && taken + Pending() == old(Pending())
      ensures 0 < |taken| <= wanted
    {
      var available := rxLen - rxOffset;
      var take := if wanted < available then wanted else available;
      taken := rxData[rxOffset..rxOffset + take];
      rxOffset := rxOffset + take;
    }

    /** One copy in terms of the whole call. */
    method CopyOut(ghost start: nat, ghost initial: seq<byte>, copied: seq<byte>, count: nat) returns (longer: seq<byte>)
      requires Valid() && Conserved(start, initial, copied) && rxOffset < rxLen && |copied| < count
      modifies `rxOffset
      ensures Valid() && Conserved(start, initial, longer)
      ensures |copied| < |longer| <= count
    {
      hide Contents, Content, Good;
      var taken := TakePending(count - |copied|);
      Assoc(copied, taken, Pending());
      longer := copied + taken;
    }

    /** One refill in terms of the whole call. */
    method Refill(ghost start: nat, ghost initial: seq<byte>, ghost copied: seq<byte>) returns (ret: nat)
      requires Valid() && Conserved(start, initial, copied) && rxOffset == rxLen
      requires Flowing(initial, trace[start..pos]) && (start < pos ==> Good(trace[pos - 1]))
      modifies `rxLen, `rxOffset, `pos, rxData
      ensures Valid() && Conserved(start, initial, copied) && rxOffset == 0 && old(pos) <= pos <= old(pos) + 1
      ensures |initial + Contents(trace[start..old(pos)])| == |copied|
      ensures ret == 0 ==> pos == old(pos) + 1 && Good(trace[old(pos)]) && rxLen == |Content(trace[old(pos)])|
      ensures ret == 0 && (rxLen > 0 || copied == []) ==> Flowing(initial, trace[start..pos])
      ensures ret != 0 ==> Pending() == [] && Explained(start, ret)
      ensures ret != 0 || rxLen == 0 ==> Quiet(start)
      ensures pos == old(pos) + 1 ==> trace[old(pos)] != Unplugged
      ensures FailsAt(trace, old(pos)) ==> ret == FailureAt(trace, old(pos)) && ret != 0
    {
      hide Contents, Content, Good, Flowing, FailsAt, FailureAt;
      ghost var before := pos;
      assert Pending() == [] && copied + [] == copied;
      ret := Receive();
      Middle(trace, start, before, pos);
      Assoc(initial, Contents(trace[start..before]), Contents(trace[before..pos]));
      if ret == 0 && (rxLen > 0 || copied == []) {
        FlowingNext(initial, trace, start, before);
      }
    }

    lemma Untouched()
      requires Valid()
      ensures Conserved(pos, Pending(), []) && (Pending() == [] <==> rxOffset == rxLen)
      ensures Flowing(Pending(), trace[pos..pos])
    {
      NoContents(trace, pos);
      assert [] + Pending() == Pending() + [];
    }

    /** The part of ir_read's loop that refills an empty buffer: one USB transfer. */
    method Receive() returns (ret: nat)
      requires Valid() && Pending() == []
      modifies `rxLen, `rxOffset, `pos, rxData
      ensures Valid() && rxOffset == 0 && old(pos) <= pos <= old(pos) + 1
      ensures Pending() == Contents(trace[old(pos)..pos])
      ensures ret == 0 ==> pos == old(pos) + 1 && Good(trace[old(pos)])
      ensures ret != 0 ==> Pending() == [] && Explained(old(pos), ret)
      ensures pos > old(pos) ==> Pending() == Content(trace[old(pos)])
      ensures pos == old(pos) ==> pos == |trace| || trace[pos] == Unplugged
      ensures pos == old(pos) + 1 ==> trace[old(pos)] != Unplugged
      ensures FailsAt(trace, old(pos)) ==> ret == FailureAt(trace, old(pos)) && ret != 0
    {
      rxLen := 0;
      rxOffset := 0;
      if pos < |trace| && trace[pos] == Unplugged {
        return ENODEV;
      }
      if pos == |trace| {
        return ETIMEDOUT;
      }
      var event := trace[pos];
      NextEvent(trace, pos, pos);
      pos := pos + 1;
      if event.Error? {
        return event.errno;
      }
      var packet := event.packet;
      if |packet| < FTDI_STATUS_SIZE {
        return EIO;
      }
      rxLen := |packet| - FTDI_STATUS_SIZE;
      forall i | 0 <= i < rxLen {
        rxData[i] := packet[FTDI_STATUS_SIZE + i];
      }
      return 0;
    }

    /** The error number of a failure met since start: that of the last event, or that of a line gone dry. */
    ghost predicate Explained(start: nat, errno: Errno)
      requires Valid()
      reads `rxLen, `rxOffset, `pos
    {
      if start < pos && !Good(trace[pos - 1]) then errno == ErrnoOf(trace[pos - 1])
      else Dry() && errno == if pos == |trace| then ETIMEDOUT else ENODEV
    }

    /** Nothing more will come: every transfer times out, or the device is gone. */
    ghost predicate Dry()
      requires Valid()
      reads `rxLen, `rxOffset, `pos
    {
      pos == |trace| || trace[pos] == Unplugged
    }

    /** Any number of calls: what they return, one after another, is what arrived, up to what is still buffered. */
    method ReadAll(calls: seq<Call>) returns (results: seq<Result>)
      requires Valid()
      modifies `rxLen, `rxOffset, `pos, rxData, `served
      ensures Valid() && old(pos) <= pos && |results| == |calls|
      ensures Delivered(results) + Pending() == old(Pending()) + Contents(trace[old(pos)..pos])
      ensures forall i | 0 <= i < |calls| :: Fits(calls[i], results[i])
    {
      hide Contents, Pending, Fits, Flowing, Conserved, Delivered;
      results := [];
      NothingDelivered();
      Untouched();
      for i := 0 to |calls|
        invariant Valid() && |results| == i
        invariant Conserved(old(pos), old(Pending()), Delivered(results))
        invariant forall j | 0 <= j < i :: Fits(calls[j], results[j])
      {
        var r := ReadNext(calls[i], old(pos), old(Pending()), Delivered(results));
        DeliveredNext(results, r);
        results := results + [r];
      }
      Balanced(old(pos), old(Pending()), Delivered(results));
    }

    lemma Balanced(start: nat, initial: seq<byte>, copied: seq<byte>)
      requires Conserved(start, initial, copied)
      ensures Valid() && start <= pos
      ensures copied + Pending() == initial + Contents(trace[start..pos])
    {
    }

    /** One call in terms of all of them. */
    method ReadNext(call: Call, ghost start: nat, ghost initial: seq<byte>, ghost delivered: seq<byte>)
      returns (r: Result)
      requires Valid() && Conserved(start, initial, delivered)
      modifies `rxLen, `rxOffset, `pos, rxData, `served
      ensures Valid() && Conserved(start, initial, delivered + DataOf(r)) && Fits(call, r)
    {
      hide Contents, Pending, OneRead, Explained, Quiet, Dry, Good;
      ghost var before, pending := pos, Pending();
      r := Read(call.count, call.memory, call.faultAt);
      Middle(trace, start, before, pos);
      Assoc(delivered, DataOf(r), Pending());
      Assoc(delivered, pending, Contents(trace[before..pos]));
      Assoc(initial, Contents(trace[start..before]), Contents(trace[before..pos]));
    }

    /**
     ir_write: the whole buffer or an error. ret and actual are usb_bulk_msg's answers; what it took
     of the buffer is on the wire even when the call fails.
     */
    method Write(buf: seq<byte>, copyError: Option<Errno>, disconnected: bool, ret: nat, actual: nat) returns (r: Result)
      requires actual <= |buf|
      modifies `wire
      ensures r.Bytes? ==> r.data == buf && wire == old(wire) + buf
      ensures r.Bytes? <==>
                buf == [] || (|buf| <= MAX_PACKET && copyError == None && !disconnected && ret == 0 && actual == |buf|)
      ensures var attempted := buf != [] && |buf| <= MAX_PACKET && copyError == None && !disconnected;
              wire == old(wire) + if attempted then buf[..actual] else []
      // The first obstacle is the one reported.
      ensures r.Failed? ==> r.errno == if |buf| > MAX_PACKET then EMSGSIZE
                                       else if copyError.Some? then copyError.value
                                       else if disconnected then ENODEV
                                       else if ret != 0 then ret
                                       else EIO
    {
      assert wire + [] == wire;
      if |buf| == 0 {
        return Bytes(buf);
      }
      if |buf| > MAX_PACKET {
        return Failed(EMSGSIZE);
      }
      if copyError.Some? {
        return Failed(copyError.value);
      }
      if disconnected {
        return Failed(ENODEV);
      }
      wire := wire + buf[..actual];
      if ret != 0 {
        return Failed(ret);
      }
      if actual != |buf| {
        return Failed(EIO);
      }
      assert buf[..actual] == buf;
      return Bytes(buf);
    }
  }

  lemma FlowingNext(initial: seq<byte>, trace: seq<UsbEvent>, start: nat, pos: nat)
    requires start <= pos < |trace| && Flowing(initial, trace[start..pos]) && Good(trace[pos])
    requires Content(trace[pos]) == [] ==> initial + Contents(trace[start..pos]) == []
    ensures Flowing(initial, trace[start..pos + 1])
  {
    hide Content, Contents, Good;
    var met := trace[start..pos + 1];
    forall i | 0 <= i < |met|
      ensures Good(met[i]) && (Content(met[i]) == [] ==> initial + Contents(met[..i]) == [])
    {
      var before := trace[start..pos];
      assert met[..i] == before[..i];
      if i < |before| {
        assert met[i] == before[i];
      } else {
        assert before[..i] == before;
      }
    }
  }

  lemma FlowingIsGood(initial: seq<byte>, trace: seq<UsbEvent>, start: nat, pos: nat)
    requires start <= pos <= |trace|
    requires Flowing(initial, trace[start..if pos > start then pos - 1 else pos])
    ensures forall i | start <= i < pos - 1 :: Good(trace[i])
    ensures var met := trace[start..pos];
            Flowing(initial, if met == [] then met else met[..|met| - 1])
  {
    var met := trace[start..pos];
    if start < pos {
      var front := trace[start..pos - 1];
      assert met[..|met| - 1] == front;
      forall i | start <= i < pos - 1
        ensures Good(trace[i])
      {
        assert front[i - start] == trace[i];
      }
    }
  }

  lemma LoopIsOneRead(count: nat, initial: seq<byte>, trace: seq<UsbEvent>, start: nat, pos: nat,
                      copied: seq<byte>, left: seq<byte>, dry: bool)
    requires start <= pos <= |trace|
    requires copied + left == initial + Contents(trace[start..pos]) && |copied| <= count
    requires Flowing(initial, trace[start..if pos > start then pos - 1 else pos])
    requires start < pos ==> trace[pos - 1] != Unplugged && (|copied| == count ==> Content(trace[pos - 1]) != [])
    requires start < pos ==> |initial + Contents(trace[start..pos - 1])| < count
    requires |copied| < count ==> left == [] && (dry || (start < pos && Content(trace[pos - 1]) == []))
    ensures OneRead(count, initial, trace[start..pos], copied, left, dry)
  {
    hide Flowing, Contents, Content, Good;
    FlowingIsGood(initial, trace, start, pos);
    StillPlugged(trace[start..pos]);
    FrontOf(trace, start, pos);
  }

  lemma FrontOf(trace: seq<UsbEvent>, start: nat, pos: nat)
    requires start <= pos <= |trace|
    ensures start < pos ==> trace[start..pos][..pos - start - 1] == trace[start..pos - 1]
  {
  }

  lemma StillPlugged(met: seq<UsbEvent>)
    requires forall i | 0 <= i < |met| - 1 :: Good(met[i])
    requires met != [] ==> met[|met| - 1] != Unplugged
    ensures Unplugged !in met
  {
  }

  lemma FlowingFront(initial: seq<byte>, trace: seq<UsbEvent>, start: nat, pos: nat)
    requires start <= pos <= |trace|
    ensures Flowing(initial, trace[start..pos]) ==> Flowing(initial, trace[start..if pos > start then pos - 1 else pos])
  {
    hide Content, Contents, Good;
    if start < pos {
      var met, front := trace[start..pos], trace[start..pos - 1];
      forall i | 0 <= i < |front|
        ensures front[i] == met[i] && front[..i] == met[..i]
      {
      }
    }
  }

  lemma NoContents(trace: seq<UsbEvent>, pos: nat)
    requires pos <= |trace|
    ensures Contents(trace[pos..pos]) == []
  {
  }

  lemma Middle(trace: seq<UsbEvent>, start: nat, mid: nat, end: nat)
    requires start <= mid <= end <= |trace|
    ensures Contents(trace[start..end]) == Contents(trace[start..mid]) + Contents(trace[mid..end])
  {
    ContentsAppend(trace[start..mid], trace[mid..end]);
    Join(trace, start, mid, end);
  }

  lemma NextEvent(trace: seq<UsbEvent>, start: nat, pos: nat)
    requires start <= pos < |trace|
    ensures Contents(trace[start..pos + 1]) == Contents(trace[start..pos]) + Content(trace[pos])
  {
    hide Contents, Content;
    ContentsSnoc(trace[start..pos], trace[pos]);
    assert trace[start..pos + 1] == trace[start..pos] + [trace[pos]];
  }
}
