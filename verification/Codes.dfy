/** Application-level infrared codes and the validity test every component shares. */
module Codes {
  import opened Bytes

  const MAX_SYMBOLS: nat := 256
  const RESOLUTION_HZ: u32 := 1_000_000
  const DEFAULT_CARRIER_HZ: u32 := 38_000
  const MIN_CARRIER_HZ: u32 := 20_000
  const MAX_CARRIER_HZ: u32 := 60_000
  const MAX_DURATION: u16 := 32767

  const MARK: byte := 1
  const SPACE: byte := 0

  datatype Phase = Phase(duration: u16, level: byte)

  datatype Symbol = Symbol(phase0: Phase, phase1: Phase)

  /** A code by value: its metadata and the symbols in use. */
  datatype Code = Code(flags: u16, resolutionHz: u32, carrierHz: u32, symbols: seq<Symbol>)

  /** ESP-IDF error codes, as far as the firmware distinguishes them. */
  datatype Err = ESP_OK | ESP_FAIL | ESP_ERR_INVALID_ARG | ESP_ERR_INVALID_STATE | ESP_ERR_INVALID_SIZE
               | ESP_ERR_TIMEOUT | ESP_ERR_NOT_FINISHED

  type Failure = e: Err | e != ESP_OK witness ESP_FAIL

  predicate ValidMetadata(flags: u16, resolutionHz: u32, carrierHz: u32) {
    && flags == 0
    && resolutionHz == RESOLUTION_HZ
    && (carrierHz == 0 || MIN_CARRIER_HZ <= carrierHz <= MAX_CARRIER_HZ)
  }

  predicate ValidSymbol(s: Symbol, last: bool) {
    && s.phase0.level == MARK
    && s.phase1.level == SPACE
    && 1 <= s.phase0.duration <= MAX_DURATION
    && s.phase1.duration <= MAX_DURATION
    && (s.phase1.duration == 0 ==> last)
  }

  predicate ValidCode(c: Code) {
    && 1 <= |c.symbols| <= MAX_SYMBOLS
    && ValidMetadata(c.flags, c.resolutionHz, c.carrierHz)
    && forall i | 0 <= i < |c.symbols| :: ValidSymbol(c.symbols[i], i + 1 == |c.symbols|)
  }

  /** The signal a sequence of symbols stands for. */
  function Phases(symbols: seq<Symbol>): (ps: seq<Phase>)
    ensures |ps| == 2 * |symbols|
  {
    if symbols == [] then []
    else Phases(symbols[..|symbols| - 1]) + [symbols[|symbols| - 1].phase0, symbols[|symbols| - 1].phase1]
  }

  lemma {:induction false} PhasesAt(symbols: seq<Symbol>, i: nat)
    requires i < |symbols|
    ensures Phases(symbols)[2 * i] == symbols[i].phase0
    ensures Phases(symbols)[2 * i + 1] == symbols[i].phase1
  {
    if i < |symbols| - 1 {
      PhasesAt(symbols[..|symbols| - 1], i);
    }
  }

  /** The k-th of n phases: a MARK when k is even, 1 to 32767 long, or of no length at the very end. */
  predicate ValidPhase(p: Phase, k: nat, n: nat) {
    && p.level == (if k % 2 == 0 then 1 else 0)
    && p.duration <= 32767
    && (p.duration >= 1 || k + 1 == n)
  }

  predicate ValidSignal(ps: seq<Phase>) {
    forall k | 0 <= k < |ps| :: ValidPhase(ps[k], k, |ps|)
  }

  lemma SymbolIsPhases(s: Symbol, i: nat, n: nat)
    ensures ValidSymbol(s, i + 1 == n) <==>
            ValidPhase(s.phase0, 2 * i, 2 * n) && ValidPhase(s.phase1, 2 * i + 1, 2 * n)
  {
  }

  lemma SymbolsAreSignal(ss: seq<Symbol>)
    ensures ValidSignal(Phases(ss)) <==> forall i | 0 <= i < |ss| :: ValidSymbol(ss[i], i + 1 == |ss|)
  {
    hide Phases, ValidSymbol, ValidPhase;
    var ps, n := Phases(ss), |ss|;
    forall i | 0 <= i < n
      ensures ps[2 * i] == ss[i].phase0 && ps[2 * i + 1] == ss[i].phase1
      ensures ValidSymbol(ss[i], i + 1 == n) <==>
              ValidPhase(ss[i].phase0, 2 * i, 2 * n) && ValidPhase(ss[i].phase1, 2 * i + 1, 2 * n)
    {
      PhasesAt(ss, i);
      SymbolIsPhases(ss[i], i, n);
    }
    if ValidSignal(ps) {
      forall i | 0 <= i < n
        ensures ValidSymbol(ss[i], i + 1 == n)
      {
        assert ValidPhase(ps[2 * i], 2 * i, |ps|) && ValidPhase(ps[2 * i + 1], 2 * i + 1, |ps|);
      }
    }
    if forall i | 0 <= i < n :: ValidSymbol(ss[i], i + 1 == n) {
      forall k | 0 <= k < |ps|
        ensures ValidPhase(ps[k], k, |ps|)
      {
        var i := k / 2;
        assert ValidSymbol(ss[i], i + 1 == n);
        assert k == 2 * i || k == 2 * i + 1;
      }
    }
  }

  /**
   A code is valid when its signal alternates from a MARK, every phase has a length that fits 15
   bits, except that the last may have none, and the metadata is what the hardware plays.
   */
  lemma ValidCodeSpelledOut(c: Code)
    ensures ValidCode(c) <==>
            && 1 <= |c.symbols| <= 256
            && c.flags == 0 && c.resolutionHz == 1_000_000
            && (c.carrierHz == 0 || 20_000 <= c.carrierHz <= 60_000)
            && ValidSignal(Phases(c.symbols))
  {
    hide ValidSignal, Phases, ValidSymbol;
    SymbolsAreSignal(c.symbols);
  }

  /** A code in memory: a fixed table of symbols, the first symbolCount of them in use. */
  class IrCode {
    var symbolCount: u16
    var flags: u16
    var resolutionHz: u32
    var carrierHz: u32
    const symbols: array<Symbol>

    constructor ()
      ensures fresh(this.symbols) && symbols.Length == MAX_SYMBOLS
      ensures symbolCount == 0
    {
      symbols := new Symbol[MAX_SYMBOLS];
      symbolCount, flags, resolutionHz, carrierHz := 0, 0, 0, 0;
    }

    ghost function Value(): (c: Code)
      requires symbolCount <= symbols.Length
      reads this, symbols
    {
      Code(flags, resolutionHz, carrierHz, symbols[..symbolCount])
    }

    method IsValid() returns (ok: bool)
      requires symbols.Length == MAX_SYMBOLS
      ensures ok <==> symbolCount <= MAX_SYMBOLS && ValidCode(Value())
    {
      if symbolCount == 0 || symbolCount > MAX_SYMBOLS || flags != 0 || resolutionHz != RESOLUTION_HZ ||
         (carrierHz != 0 && (carrierHz < MIN_CARRIER_HZ || carrierHz > MAX_CARRIER_HZ)) {
        return false;
      }
      for i := 0 to symbolCount
        invariant forall j | 0 <= j < i :: ValidSymbol(symbols[j], j + 1 == symbolCount)
      {
        var s := symbols[i];
        if s.phase0.level != 1 || s.phase1.level != 0 ||
           s.phase0.duration == 0 || s.phase0.duration > MAX_DURATION ||
           s.phase1.duration > MAX_DURATION ||
           (s.phase1.duration == 0 && i + 1 != symbolCount) {
          assert !ValidSymbol(Value().symbols[i], i + 1 == symbolCount);
          return false;
        }
      }
      return true;
    }

    /** memset to zero. */
    method Clear()
      requires symbols.Length == MAX_SYMBOLS
      modifies this, symbols
      ensures symbolCount == 0 && flags == 0 && resolutionHz == 0 && carrierHz == 0
      ensures forall i | 0 <= i < symbols.Length :: symbols[i] == Symbol(Phase(0, 0), Phase(0, 0))
    {
      symbolCount, flags, resolutionHz, carrierHz := 0, 0, 0, 0;
      forall i | 0 <= i < symbols.Length {
        symbols[i] := Symbol(Phase(0, 0), Phase(0, 0));
      }
    }

    /** Structure assignment from a value. */
    method Assign(c: Code)
      requires symbols.Length == MAX_SYMBOLS && |c.symbols| <= MAX_SYMBOLS
      modifies this, symbols
      ensures symbolCount == |c.symbols| && Value() == c
    {
      symbolCount, flags, resolutionHz, carrierHz := |c.symbols|, c.flags, c.resolutionHz, c.carrierHz;
      forall i | 0 <= i < |c.symbols| {
        symbols[i] := c.symbols[i];
      }
      assert symbols[..symbolCount] == c.symbols;
    }
  }
}
