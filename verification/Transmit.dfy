/** ir_tx_send: one transmission, and the buffer it lends to the driver. */
module Transmit {
  import opened Bytes
  import opened Codes
  import opened Codec
  import opened Packets
  import opened Responder
  import opened Normalizing

  /** What the kernel and the driver answer during one call. */
  datatype Answers = Answers(lockFree: bool, applyCarrier: Err, transmit: Err, waitAllDone: Err)

  /** One transmission accepted by the driver. */
  datatype Transmission = Transmission(carrierHz: u32, symbols: seq<RawSymbol>)

  function RawOf(s: Symbol): RawSymbol
    requires s.phase0.duration <= MAX_DURATION && s.phase1.duration <= MAX_DURATION
    requires s.phase0.level < 2 && s.phase1.level < 2
  {
    RawSymbol(s.phase0.duration, s.phase0.level, s.phase1.duration, s.phase1.level)
  }

  /** The hardware words for a valid code. */
  function RawSymbols(c: Code): (raw: seq<RawSymbol>)
    requires ValidCode(c)
    ensures |raw| == |c.symbols|
  {
    assert forall i | 0 <= i < |c.symbols| :: ValidSymbol(c.symbols[i], i + 1 == |c.symbols|);
    seq(|c.symbols|, i requires 0 <= i < |c.symbols| => RawOf(c.symbols[i]))
  }

  function Carrier(c: Code): u32 {
    if c.carrierHz != 0 then c.carrierHz else DEFAULT_CARRIER_HZ
  }

  /** The signal the transmitter emits for hardware words: active high, no inversion. */
  function Emitted(raw: seq<RawSymbol>): (ps: seq<Phase>)
    ensures |ps| == 2 * |raw|
  {
    if raw == [] then []
    else
      var r := raw[|raw| - 1];
      Emitted(raw[..|raw| - 1]) + [Phase(r.duration0, r.level0), Phase(r.duration1, r.level1)]
  }

  class Transmitter {
    const txSymbols: array<RawSymbol>
    var ready: bool
    var faulted: bool

    /** The driver is still reading txSymbols. */
    var lent: bool
    var transmissions: seq<Transmission>

    ghost predicate Valid()
      reads this
    {
      && txSymbols.Length == MAX_SYMBOLS
      && lent == faulted
      && forall t | t in transmissions :: 20_000 <= t.carrierHz <= 60_000
    }

    constructor ()
      ensures Valid() && fresh(txSymbols) && ready && !faulted && transmissions == []
    {
      txSymbols := new RawSymbol[MAX_SYMBOLS];
      ready, faulted, lent, transmissions := true, false, false, [];
    }

    /** Everything up to the driver taking the buffer goes well. */
    ghost predicate Starts(code: IrCode, wasFaulted: bool, answers: Answers)
      requires code.symbols.Length == MAX_SYMBOLS
      reads `ready, code, code.symbols
    {
      && code.symbolCount <= MAX_SYMBOLS && ValidCode(code.Value())
      && ready && answers.lockFree && !wasFaulted
      && answers.applyCarrier == ESP_OK && answers.transmit == ESP_OK
    }

    method Send(code: IrCode, answers: Answers) returns (err: Err)
      requires Valid() && code.symbols.Length == MAX_SYMBOLS
      modifies `faulted, `lent, `transmissions, txSymbols
      ensures Valid()
      // The driver keeps the buffer for good, and the fault is latched, when it took a transmission and did not end it.
      ensures faulted == lent ==
              (old(lent) || (Starts(code, old(faulted), answers) && answers.waitAllDone != ESP_OK))
      // A buffer that the driver or another sender may be using is never written.
      ensures old(lent) || !answers.lockFree ==>
                txSymbols[..] == old(txSymbols[..]) && transmissions == old(transmissions)
      // What the driver takes is what the buffer holds until the call returns.
      ensures Starts(code, old(faulted), answers) ==>
                RawSymbols(code.Value()) <= txSymbols[..]
      // Otherwise exactly this code is handed to the driver, at its carrier, when nothing fails before that.
      ensures Starts(code, old(faulted), answers) ==>
                transmissions == old(transmissions)
                                 + [Transmission(if code.carrierHz != 0 then code.carrierHz else 38_000,
                                                 RawSymbols(code.Value()))]
      ensures !Starts(code, old(faulted), answers) ==> transmissions == old(transmissions)
      ensures err == ESP_OK <==> Starts(code, old(faulted), answers) && answers.waitAllDone == ESP_OK
      // The first obstacle is the one reported.
      ensures err == if !(code.symbolCount <= MAX_SYMBOLS && ValidCode(code.Value())) then ESP_ERR_INVALID_ARG
                     else if !ready then ESP_ERR_INVALID_STATE
                     else if !answers.lockFree then ESP_ERR_TIMEOUT
                     else if old(faulted) then ESP_ERR_INVALID_STATE
                     else if answers.applyCarrier != ESP_OK then answers.applyCarrier
                     else if answers.transmit != ESP_OK then answers.transmit
                     else answers.waitAllDone
      // BUSY, in the protocol's terms, means another sender, or the driver's own timeout.
      ensures err == ESP_ERR_TIMEOUT ==>
                !answers.lockFree || ESP_ERR_TIMEOUT in {answers.applyCarrier, answers.transmit, answers.waitAllDone}
      ensures faulted && !old(faulted) ==> err == answers.waitAllDone
    {
      var ok := code.IsValid();
      if !ok {
        return ESP_ERR_INVALID_ARG;
      }
      if !ready {
        return ESP_ERR_INVALID_STATE;
      }
      if !answers.lockFree {
        return ESP_ERR_TIMEOUT;
      }
      if faulted {
        return ESP_ERR_INVALID_STATE;
      }
      var carrier := if code.carrierHz != 0 then code.carrierHz else DEFAULT_CARRIER_HZ;
      err := answers.applyCarrier;
      if err == ESP_OK {
        ghost var c := code.Value();
        assert forall i | 0 <= i < |c.symbols| :: ValidSymbol(c.symbols[i], i + 1 == |c.symbols|);
        for i := 0 to code.symbolCount
          invariant txSymbols[..i] == RawSymbols(c)[..i]
          modifies txSymbols
        {
          var s := code.symbols[i];
          assert s == c.symbols[i];
          txSymbols[i] := RawSymbol(s.phase0.duration, s.phase0.level, s.phase1.duration, s.phase1.level);
        }
        assert RawSymbols(c)[..code.symbolCount] == RawSymbols(c);
        err := answers.transmit;
        if err == ESP_OK {
          lent := true;
          transmissions := transmissions + [Transmission(carrier, txSymbols[..code.symbolCount])];
          err := answers.waitAllDone;
          if err != ESP_OK {
            faulted := true;
          } else {
            lent := false;
          }
        }
      }
    }
  }

  lemma {:induction false} EmittedPhases(raw: seq<RawSymbol>, ss: seq<Symbol>)
    requires |raw| == |ss|
    requires forall i | 0 <= i < |raw| :: Phase(raw[i].duration0, raw[i].level0) == ss[i].phase0
    requires forall i | 0 <= i < |raw| :: Phase(raw[i].duration1, raw[i].level1) == ss[i].phase1
    ensures Emitted(raw) == Phases(ss)
  {
    if raw != [] {
      EmittedPhases(raw[..|raw| - 1], ss[..|ss| - 1]);
    }
  }

  /** The hardware words of a valid code emit its signal. */
  lemma EmitsCode(c: Code)
    requires ValidCode(c)
    ensures Emitted(RawSymbols(c)) == Phases(c.symbols)
  {
    assert forall i | 0 <= i < |c.symbols| :: ValidSymbol(c.symbols[i], i + 1 == |c.symbols|);
    EmittedPhases(RawSymbols(c), c.symbols);
  }

  /**
   Capture, READ, WRITE, transmit: when a capture succeeds its READ response always carries a
   payload; sending that payload back as a WRITE is accepted, and what is emitted is the signal
   that was captured.
   */
  lemma ReplayPreservesSignal(o: Oracle, w: World, read: Framed, raw: seq<RawSymbol>,
                              o': Oracle, w': World, write: Framed)
    requires Normalized(raw).Some? && o.rx(w.captures) == Captured(Normalized(raw).value)
    requires PayloadOf(read) == []
    requires DoRead(o, w, read).Answer? && PayloadOf(write) == DoRead(o, w, read).payload
    ensures DoRead(o, w, read).status == OK && DoRead(o, w, read).payload != []
    ensures var sent := DoWrite(o', w', write).sent;
            && |sent| == 1 && ValidCode(sent[0])
            && Emitted(RawSymbols(sent[0])) == Padded(Signal(raw))
            && Carrier(sent[0]) == DEFAULT_CARRIER_HZ
    ensures o'.tx(|w'.sent|) == ESP_OK ==> DoWrite(o', w', write).status == OK
  {
    hide Signal, Padded, Encode, Decode;
    var c := Normalized(raw).value;
    NormalizedIsValid(raw);
    DecodeOfEncode(c);
    assert forall i | 0 <= i < |c.symbols| :: ValidSymbol(c.symbols[i], i + 1 == |c.symbols|);
    EmittedPhases(RawSymbols(c), c.symbols);
  }

  /** INTERNAL_ERROR for a READ comes only from a failed capture, never from encoding a captured frame. */
  lemma ReadNeverFailsToEncode(o: Oracle, w: World, read: Framed, raw: seq<RawSymbol>)
    requires PayloadOf(read) == []
    requires o.rx(w.captures).Captured? ==>
               Normalized(raw).Some? && Normalized(raw).value == o.rx(w.captures).code
    requires DoRead(o, w, read).Answer? && DoRead(o, w, read).status == INTERNAL_ERROR
    ensures o.rx(w.captures).RxFailed?
  {
    if o.rx(w.captures).Captured? {
      NormalizedIsValid(raw);
    }
  }
}
