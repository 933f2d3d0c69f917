/** From the raw symbols of the infrared receiver to a code: normalize_frame. */
module Normalizing {
  import opened Bytes
  import opened Codes

  const RX_MEM_SYMBOLS: nat := 320

  type u15 = n: int | 0 <= n < 0x8000
  type bit = n: int | 0 <= n < 2

  /** One word of the RMT peripheral's memory. */
  datatype RawSymbol = RawSymbol(duration0: u15, level0: bit, duration1: u15, level1: bit)

  /** The phases of a raw capture with the receiver's active-low levels inverted. */
  function RawPhases(raw: seq<RawSymbol>): (ps: seq<Phase>)
    ensures |ps| == 2 * |raw|
  {
    if raw == [] then []
    else
      var r := raw[|raw| - 1];
      RawPhases(raw[..|raw| - 1]) + [Phase(r.duration0, 1 - r.level0), Phase(r.duration1, 1 - r.level1)]
  }

  function UntilZero(ps: seq<Phase>): seq<Phase> {
    if ps == [] || ps[0].duration == 0 then [] else [ps[0]] + UntilZero(ps[1..])
  }

  function FromMark(ps: seq<Phase>): seq<Phase> {
    if ps != [] && ps[0].level == SPACE then FromMark(ps[1..]) else ps
  }

  /** The signal in a raw capture: cut at the terminator, electrical idle stripped from the front. */
  function Signal(raw: seq<RawSymbol>): seq<Phase> {
    FromMark(UntilZero(RawPhases(raw)))
  }

  predicate Alternates(ps: seq<Phase>) {
    forall i | 0 <= i < |ps| :: ps[i].level == if i % 2 == 0 then MARK else SPACE
  }

  predicate Capturable(raw: seq<RawSymbol>) {
    && 0 < |raw| < RX_MEM_SYMBOLS
    && 0 < |Signal(raw)| <= 2 * MAX_SYMBOLS
    && Alternates(Signal(raw))
  }

  /** A final MARK is paired with a SPACE of no length. */
  function Padded(ps: seq<Phase>): seq<Phase> {
    if |ps| % 2 == 1 then ps + [Phase(0, SPACE)] else ps
  }

  function Paired(ps: seq<Phase>): (ss: seq<Symbol>)
    requires |ps| % 2 == 0
    ensures |ss| == |ps| / 2
  {
    seq(|ps| / 2, i requires 0 <= i < |ps| / 2 => Symbol(ps[2 * i], ps[2 * i + 1]))
  }

  /** The frame a raw capture stands for, if any. */
  function Normalized(raw: seq<RawSymbol>): Option<Code> {
    if Capturable(raw) then Some(Code(0, RESOLUTION_HZ, 0, Paired(Padded(Signal(raw))))) else None
  }

  function TotalDuration(ps: seq<Phase>): nat {
    if ps == [] then 0 else TotalDuration(ps[..|ps| - 1]) + ps[|ps| - 1].duration
  }

  lemma {:induction false} PhasesOfPaired(ps: seq<Phase>)
    requires |ps| % 2 == 0
    ensures Phases(Paired(ps)) == ps
  {
    if ps == [] {
    } else {
      var n := |ps| - 2;
      PhasesOfPaired(ps[..n]);
      assert Paired(ps)[..|Paired(ps)| - 1] == Paired(ps[..n]);
      assert ps == ps[..n] + [ps[n], ps[n + 1]];
    }
  }

  lemma {:induction false} UntilZeroNonzero(ps: seq<Phase>, i: nat)
    requires i < |UntilZero(ps)|
    ensures i < |ps| && UntilZero(ps)[i] == ps[i] && ps[i].duration > 0
  {
    if i > 0 {
      UntilZeroNonzero(ps[1..], i - 1);
    }
  }

  lemma {:induction false} FromMarkSuffix(ps: seq<Phase>)
    ensures |FromMark(ps)| <= |ps| && FromMark(ps) == ps[|ps| - |FromMark(ps)|..]
  {
    if ps != [] && ps[0].level == SPACE {
      FromMarkSuffix(ps[1..]);
    }
  }

  lemma {:induction false} RawPhaseBound(raw: seq<RawSymbol>, i: nat)
    requires i < 2 * |raw|
    ensures RawPhases(raw)[i].duration <= MAX_DURATION
  {
    if i < 2 * (|raw| - 1) {
      RawPhaseBound(raw[..|raw| - 1], i);
    }
  }

  lemma SignalDurations(raw: seq<RawSymbol>, i: nat)
    requires i < |Signal(raw)|
    ensures 1 <= Signal(raw)[i].duration <= MAX_DURATION
  {
    var cut := UntilZero(RawPhases(raw));
    FromMarkSuffix(cut);
    var j := |cut| - |Signal(raw)| + i;
    UntilZeroNonzero(RawPhases(raw), j);
    RawPhaseBound(raw, j);
  }

  /** A normalised frame is valid, and its phases are the signal, padded to whole symbols. */
  lemma NormalizedIsValid(raw: seq<RawSymbol>)
    requires Normalized(raw).Some?
    ensures ValidCode(Normalized(raw).value)
    ensures Phases(Normalized(raw).value.symbols) == Padded(Signal(raw))
  {
    var c, s, ps := Normalized(raw).value, Signal(raw), Padded(Signal(raw));
    PhasesOfPaired(ps);
    forall i | 0 <= i < |c.symbols|
      ensures ValidSymbol(c.symbols[i], i + 1 == |c.symbols|)
    {
      assert c.symbols[i] == Symbol(ps[2 * i], ps[2 * i + 1]);
      assert ps[2 * i] == s[2 * i];
      SignalDurations(raw, 2 * i);
      if 2 * i + 1 < |s| {
        assert ps[2 * i + 1] == s[2 * i + 1];
        SignalDurations(raw, 2 * i + 1);
      }
    }
  }

  /** Normalising keeps the length of the signal. */
  lemma DurationConserved(raw: seq<RawSymbol>)
    requires Normalized(raw).Some?
    ensures TotalDuration(Phases(Normalized(raw).value.symbols)) == TotalDuration(Signal(raw))
  {
    NormalizedIsValid(raw);
    var s := Signal(raw);
    if |s| % 2 == 1 {
      assert Padded(s)[..|Padded(s)| - 1] == s;
    }
  }

  /** The m-th phase of a raw capture, with the receiver's level inverted. */
  function RawPhaseAt(raw: seq<RawSymbol>, m: nat): Phase
    requires m < 2 * |raw|
  {
    var r := raw[m / 2];
    if m % 2 == 0 then Phase(r.duration0, 1 - r.level0) else Phase(r.duration1, 1 - r.level1)
  }

  lemma {:induction false} RawPhasesAt(raw: seq<RawSymbol>, m: nat)
    requires m < 2 * |raw|
    ensures RawPhases(raw)[m] == RawPhaseAt(raw, m)
  {
    if m < 2 * (|raw| - 1) {
      RawPhasesAt(raw[..|raw| - 1], m);
    }
  }

  lemma {:induction false} UntilZeroEnds(ps: seq<Phase>)
    ensures |UntilZero(ps)| <= |ps|
    ensures |UntilZero(ps)| < |ps| ==> ps[|UntilZero(ps)|].duration == 0
  {
    if ps != [] && ps[0].duration != 0 {
      UntilZeroEnds(ps[1..]);
    }
  }

  lemma {:induction false} FromMarkStarts(ps: seq<Phase>)
    ensures |FromMark(ps)| <= |ps|
    ensures forall m | 0 <= m < |ps| - |FromMark(ps)| :: ps[m].level == SPACE
    ensures FromMark(ps) != [] ==> FromMark(ps)[0].level != SPACE
  {
    if ps != [] && ps[0].level == SPACE {
      FromMarkStarts(ps[1..]);
      forall m | 0 <= m < |ps| - |FromMark(ps)|
        ensures ps[m].level == SPACE
      {
        assert m > 0 ==> ps[m] == ps[1..][m - 1];
      }
    }
  }

  /** The signal is the raw phases from the first MARK up to the first phase of no length. */
  lemma SignalSpelledOut(raw: seq<RawSymbol>) returns (lo: nat, hi: nat)
    ensures lo <= hi <= 2 * |raw|
    ensures forall m | 0 <= m < hi :: RawPhaseAt(raw, m).duration > 0
    ensures hi < 2 * |raw| ==> RawPhaseAt(raw, hi).duration == 0
    ensures forall m | 0 <= m < lo :: RawPhaseAt(raw, m).level == 0
    ensures lo < hi ==> RawPhaseAt(raw, lo).level == 1
    ensures |Signal(raw)| == hi - lo
    ensures forall k | 0 <= k < hi - lo :: Signal(raw)[k] == RawPhaseAt(raw, lo + k)
  {
    hide RawPhases, UntilZero, FromMark;
    var ps := RawPhases(raw);
    var cut := UntilZero(ps);
    UntilZeroEnds(ps);
    FromMarkStarts(cut);
    hi, lo := |cut|, |cut| - |Signal(raw)|;
    FromMarkSuffix(cut);
    forall m | 0 <= m < |ps|
      ensures ps[m] == RawPhaseAt(raw, m)
    {
      RawPhasesAt(raw, m);
    }
    forall m | 0 <= m < hi
      ensures cut[m] == RawPhaseAt(raw, m) && cut[m].duration > 0
    {
      UntilZeroNonzero(ps, m);
    }
  }

  /** Which captures are frames, and what frame each is. */
  lemma NormalizedSpelledOut(raw: seq<RawSymbol>)
    ensures Normalized(raw).Some? <==>
            && 0 < |raw| < 320 && 1 <= |Signal(raw)| <= 512
            && forall k | 0 <= k < |Signal(raw)| :: Signal(raw)[k].level == 1 - k % 2
    ensures Normalized(raw).Some? ==>
              var c, n := Normalized(raw).value, |Signal(raw)|;
              && c.flags == 0 && c.resolutionHz == 1_000_000 && c.carrierHz == 0
              && |Phases(c.symbols)| == n + n % 2
              && Phases(c.symbols)[..n] == Signal(raw)
              && (n % 2 == 1 ==> Phases(c.symbols)[n] == Phase(0, 0))
  {
    hide Signal;
    if Normalized(raw).Some? {
      NormalizedIsValid(raw);
    }
  }

  predicate NoZero(ps: seq<Phase>) {
    forall i | 0 <= i < |ps| :: ps[i].duration > 0
  }

  lemma {:induction false} UntilZeroAppend(a: seq<Phase>, b: seq<Phase>)
    requires NoZero(a)
    ensures UntilZero(a + b) == a + UntilZero(b)
  {
    if a == [] {
      assert a + b == b;
    } else {
      UntilZeroAppend(a[1..], b);
      assert (a + b)[1..] == a[1..] + b;
    }
  }

  lemma {:induction false} FromMarkAppend(a: seq<Phase>, b: seq<Phase>)
    ensures FromMark(a + b) == if FromMark(a) == [] then FromMark(b) else FromMark(a) + b
  {
    if a == [] {
      assert a + b == b;
    } else if a[0].level == SPACE {
      FromMarkAppend(a[1..], b);
      assert (a + b)[1..] == a[1..] + b;
    }
  }

  lemma FromMarkNext(a: seq<Phase>, x: Phase)
    ensures FromMark(a + [x]) == if FromMark(a) == [] && x.level == SPACE then [] else FromMark(a) + [x]
  {
    FromMarkAppend(a, [x]);
  }

  lemma {:induction false} RawPhasesPrefix(raw: seq<RawSymbol>, i: nat)
    requires i < |raw|
    ensures var r := raw[i];
            RawPhases(raw[..i]) + [Phase(r.duration0, 1 - r.level0), Phase(r.duration1, 1 - r.level1)]
            == RawPhases(raw[..i + 1]) <= RawPhases(raw)
  {
    assert raw[..i + 1][..i] == raw[..i];
    if i + 1 < |raw| {
      var front := raw[..|raw| - 1];
      RawPhasesPrefix(front, i);
      assert front[..i + 1] == raw[..i + 1] && front[..i] == raw[..i];
    } else {
      assert raw[..i + 1] == raw;
    }
  }

  /** Once a phase that breaks the pattern has been seen, no continuation makes the capture a frame. */
  lemma BrokenStaysBroken(raw: seq<RawSymbol>, seen: seq<Phase>, x: Phase)
    requires seen + [x] <= RawPhases(raw)
    requires NoZero(seen) && x.duration > 0
    requires FromMark(seen) != [] || x.level != SPACE
    requires var k := |FromMark(seen)|; k >= 2 * MAX_SYMBOLS || x.level != (if k % 2 == 0 then MARK else SPACE)
    ensures !Capturable(raw)
  {
    var all, k := RawPhases(raw), |FromMark(seen)|;
    var tail := all[|seen|..];
    assert all == seen + tail && tail[0] == x;
    UntilZeroAppend(seen, tail);
    FromMarkAppend(seen, UntilZero(tail));
    assert UntilZero(tail)[0] == x;
    assert |Signal(raw)| > k && Signal(raw)[k] == x;
  }

  lemma NextPhase(before: seq<Phase>, pair: seq<Phase>, j: nat, all: seq<Phase>)
    requires j < |pair| && before + pair <= all
    ensures before + pair[..j + 1] == (before + pair[..j]) + [pair[j]] <= all
  {
  }

  lemma EndsAt(raw: seq<RawSymbol>, seen: seq<Phase>, x: Phase)
    requires seen + [x] <= RawPhases(raw) && NoZero(seen) && x.duration == 0
    ensures UntilZero(RawPhases(raw)) == seen
  {
    var tail := RawPhases(raw)[|seen|..];
    assert RawPhases(raw) == seen + tail && tail[0] == x;
    UntilZeroAppend(seen, tail);
  }

  lemma EndsWith(raw: seq<RawSymbol>)
    ensures NoZero(RawPhases(raw)) ==> UntilZero(RawPhases(raw)) == RawPhases(raw)
  {
    if NoZero(RawPhases(raw)) {
      UntilZeroAppend(RawPhases(raw), []);
      assert RawPhases(raw) + [] == RawPhases(raw);
    }
  }

  lemma TableIsPaired(table: array<Symbol>, ps: seq<Phase>)
    requires table.Length == MAX_SYMBOLS && Holds(table, ps) && |ps| <= 2 * MAX_SYMBOLS
    ensures table[..(|ps| + 1) / 2] == Paired(Padded(ps))
  {
    forall t | 0 <= t < (|ps| + 1) / 2
      ensures table[t] == Paired(Padded(ps))[t]
    {
      assert table[t] == Symbol(PhaseAt(ps, 2 * t), PhaseAt(ps, 2 * t + 1));
    }
  }

  /** The t-th phase, or the zero phase beyond the end. */
  function PhaseAt(ps: seq<Phase>, t: nat): Phase {
    if t < |ps| then ps[t] else Phase(0, 0)
  }

  /** The table holds the list of phases, two to a symbol, and zeros after it. */
  ghost predicate Holds(table: array<Symbol>, ps: seq<Phase>)
    reads table
  {
    forall t | 0 <= t < table.Length :: table[t] == Symbol(PhaseAt(ps, 2 * t), PhaseAt(ps, 2 * t + 1))
  }

  lemma EmptyStart(table: array<Symbol>)
    ensures RawPhases([]) == [] && FromMark([]) == []
    ensures (forall i | 0 <= i < table.Length :: table[i] == Symbol(Phase(0, 0), Phase(0, 0))) ==> Holds(table, [])
  {
  }

  /** Writing the next phase into the table. */
  method Store(frame: IrCode, ghost ps: seq<Phase>, phases: nat, x: Phase)
    requires frame.symbols.Length == MAX_SYMBOLS
    requires Holds(frame.symbols, ps) && phases == |ps| < 2 * MAX_SYMBOLS
    modifies frame.symbols
    ensures Holds(frame.symbols, ps + [x])
  {
    var s := frame.symbols[phases / 2];
    frame.symbols[phases / 2] := if phases % 2 == 1 then s.(phase1 := x) else s.(phase0 := x);
  }

  /** normalize_frame over raw[..count], filling the pending frame. */
  method NormalizeFrame(raw: array<RawSymbol>, count: nat, frame: IrCode) returns (ok: bool)
    requires raw.Length == RX_MEM_SYMBOLS && frame.symbols.Length == MAX_SYMBOLS
    modifies frame, frame.symbols
    ensures ok <==> count < RX_MEM_SYMBOLS && Normalized(raw[..count]).Some?
    ensures ok ==> frame.symbolCount <= MAX_SYMBOLS && Normalized(raw[..count]) == Some(frame.Value())
  {
    hide Holds, RawPhases, UntilZero, FromMark;
    if count == 0 || count >= RX_MEM_SYMBOLS {
      return false;
    }
    frame.Clear();
    EmptyStart(frame.symbols);
    frame.resolutionHz := RESOLUTION_HZ;
    frame.carrierHz := 0;
    var phases, ended := 0, false;
    ghost var captured, seen := raw[..count], [];
    assert captured[..0] == [];
    for i := 0 to count
      invariant frame.flags == 0 && frame.resolutionHz == RESOLUTION_HZ && frame.carrierHz == 0
      invariant !ended && seen == RawPhases(captured[..i]) && NoZero(seen)
      invariant phases == |FromMark(seen)| <= 2 * MAX_SYMBOLS && Alternates(FromMark(seen))
      invariant Holds(frame.symbols, FromMark(seen))
    {
      var durations := [raw[i].duration0, raw[i].duration1];
      var levels := [1 - raw[i].level0, 1 - raw[i].level1];
      ghost var before, pair := seen, [Phase(durations[0], levels[0]), Phase(durations[1], levels[1])];
      RawPhasesPrefix(captured, i);
      assert before + pair[..0] == before;
      for j := 0 to 2
        invariant frame.flags == 0 && frame.resolutionHz == RESOLUTION_HZ && frame.carrierHz == 0
        invariant !ended && NoZero(seen)
        invariant seen == before + pair[..j]
        invariant phases == |FromMark(seen)| <= 2 * MAX_SYMBOLS && Alternates(FromMark(seen))
        invariant Holds(frame.symbols, FromMark(seen))
      {
        ghost var x := pair[j];
        NextPhase(before, pair, j, RawPhases(captured));
        if durations[j] == 0 {
          ended := true;
          EndsAt(captured, seen, x);
          break;
        }
        FromMarkNext(seen, x);
        if phases == 0 && levels[j] == 0 {
          seen := seen + [x];
          continue;
        }
        if phases >= 2 * MAX_SYMBOLS || levels[j] != (if phases % 2 == 0 then 1 else 0) {
          BrokenStaysBroken(captured, seen, x);
          return false;
        }
        Store(frame, FromMark(seen), phases, Phase(durations[j], levels[j]));
        phases := phases + 1;
        seen := seen + [x];
      }
      if ended {
        break;
      }
      assert pair[..2] == pair;
    }
    if !ended {
      assert captured[..count] == captured;
      EndsWith(captured);
    }
    ok := Conclude(frame, captured, phases);
  }

  /** The end of normalize_frame: the symbol count, then the shared validity test. */
  method Conclude(frame: IrCode, ghost captured: seq<RawSymbol>, phases: nat) returns (ok: bool)
    requires frame.symbols.Length == MAX_SYMBOLS && 0 < |captured| < RX_MEM_SYMBOLS
    requires frame.flags == 0 && frame.resolutionHz == RESOLUTION_HZ && frame.carrierHz == 0
    requires phases == |Signal(captured)| <= 2 * MAX_SYMBOLS && Alternates(Signal(captured))
    requires Holds(frame.symbols, Signal(captured))
    modifies frame`symbolCount
    ensures ok <==> Normalized(captured).Some?
    ensures ok ==> frame.symbolCount <= MAX_SYMBOLS && Normalized(captured) == Some(frame.Value())
  {
    hide Signal, Holds;
    frame.symbolCount := (phases + 1) / 2;
    TableIsPaired(frame.symbols, Signal(captured));
    if Normalized(captured).Some? {
      NormalizedIsValid(captured);
    }
    ok := frame.IsValid();
  }
}
