/** The infrared payload of READ responses and WRITE requests. */
module Codec {
  import opened Bytes
  import opened Codes

  const PREFIX_SIZE: nat := 12
  const MAX_PAYLOAD: nat := 1036

  /** Wire status values. */
  datatype Status = OK | INVALID_COMMAND | INVALID_LENGTH | INVALID_PAYLOAD | CRC_ERROR
                  | NO_DATA | BUSY | TX_ERROR | INTERNAL_ERROR
  {
    function Wire(): byte {
      match this
      case OK => 0
      case INVALID_COMMAND => 1
      case INVALID_LENGTH => 2
      case INVALID_PAYLOAD => 3
      case CRC_ERROR => 4
      case NO_DATA => 5
      case BUSY => 6
      case TX_ERROR => 7
      case INTERNAL_ERROR => 8
    }
  }

  datatype Decoded = Decoded(code: Code) | Refused(status: Status)

  /** One phase on the wire: level in bit 15, duration in bits 14 to 0. */
  function PhaseOfWord(w: u16): Phase {
    Phase(w % 0x8000, w / 0x8000)
  }

  /** The level in bit 15 above the duration, in 16 bits; a duration long enough to reach that bit sets it. */
  function WordOfPhase(p: Phase): u16 {
    if p.duration >= 0x8000 then p.duration else p.level % 2 * 0x8000 + p.duration
  }

  predicate Encodable(s: Symbol) {
    && s.phase0.duration <= MAX_DURATION && s.phase0.level <= 1
    && s.phase1.duration <= MAX_DURATION && s.phase1.level <= 1
  }

  function SymbolAt(p: seq<byte>, i: nat): Symbol
    requires PREFIX_SIZE + 4 * i + 4 <= |p|
  {
    Symbol(PhaseOfWord(U16(p, 12 + 4 * i)), PhaseOfWord(U16(p, 14 + 4 * i)))
  }

  function SymbolsAt(p: seq<byte>, n: nat): (ss: seq<Symbol>)
    requires PREFIX_SIZE + 4 * n <= |p|
    ensures |ss| == n
  {
    if n == 0 then [] else SymbolsAt(p, n - 1) + [SymbolAt(p, n - 1)]
  }

  lemma {:induction false} SymbolsAtIndex(p: seq<byte>, n: nat, i: nat)
    requires PREFIX_SIZE + 4 * n <= |p| && i < n
    ensures SymbolsAt(p, n)[i] == SymbolAt(p, i)
  {
    if i < n - 1 {
      SymbolsAtIndex(p, n - 1, i);
    }
  }

  /** The code a payload of the right size spells, valid or not. */
  function Unpack(p: seq<byte>): (c: Code)
    requires PREFIX_SIZE <= |p| && |p| == PREFIX_SIZE + 4 * U16(p, 0)
    ensures |c.symbols| == U16(p, 0)
  {
    Code(U16(p, 2), U32(p, 4), U32(p, 8), SymbolsAt(p, U16(p, 0)))
  }

  function Decode(p: seq<byte>): Decoded {
    if |p| < PREFIX_SIZE || |p| > MAX_PAYLOAD then Refused(INVALID_LENGTH)
    else
      var count := U16(p, 0);
      if count == 0 || count > MAX_SYMBOLS then Refused(INVALID_PAYLOAD)
      else if |p| != PREFIX_SIZE + 4 * count then Refused(INVALID_LENGTH)
      else if ValidCode(Unpack(p)) then Decoded(Unpack(p))
      else Refused(INVALID_PAYLOAD)
  }

  /** The k-th word of a payload stands for the k-th phase: level in bit 15, duration below it. */
  lemma PayloadPhases(p: seq<byte>, k: nat)
    requires 12 <= |p| && |p| == 12 + 4 * U16(p, 0) && k < 2 * U16(p, 0)
    ensures |Unpack(p).symbols| == U16(p, 0)
    ensures Phases(Unpack(p).symbols)[k] == Phase(U16(p, 12 + 2 * k) % 0x8000, U16(p, 12 + 2 * k) / 0x8000)
  {
    var i := k / 2;
    SymbolsAtIndex(p, U16(p, 0), i);
    PhasesAt(Unpack(p).symbols, i);
    assert k == 2 * i || k == 2 * i + 1;
  }

  /** The k-th of n words stands for a MARK or a SPACE of some length, or for an empty SPACE at the end. */
  predicate ValidWord(p: seq<byte>, k: nat, n: nat)
    requires 14 + 2 * k <= |p|
  {
    var w := U16(p, 12 + 2 * k);
    (w >= 0x8000 <==> k % 2 == 0) && (w % 0x8000 >= 1 || k + 1 == n)
  }

  predicate ValidWords(p: seq<byte>, n: nat)
    requires 12 + 2 * n <= |p|
  {
    forall k | 0 <= k < n :: ValidWord(p, k, n)
  }

  /** Which payloads the firmware accepts, byte by byte, and how it refuses the others. */
  lemma DecodeSpelledOut(p: seq<byte>)
    ensures Decode(p).Decoded? <==>
            && 12 <= |p| <= 1036
            && 1 <= U16(p, 0) <= 256 && |p| == 12 + 4 * U16(p, 0)
            && U16(p, 2) == 0 && U32(p, 4) == 1_000_000
            && (U32(p, 8) == 0 || 20_000 <= U32(p, 8) <= 60_000)
            && ValidWords(p, 2 * U16(p, 0))
    ensures Decode(p) == Refused(INVALID_LENGTH) <==>
            || |p| < 12 || |p| > 1036
            || (1 <= U16(p, 0) <= 256 && |p| != 12 + 4 * U16(p, 0))
    ensures Decode(p).Refused? ==> Decode(p).status in {INVALID_LENGTH, INVALID_PAYLOAD}
  {
    hide ValidCode, Unpack, U16, U32;
    if 12 <= |p| && |p| == 12 + 4 * U16(p, 0) {
      UnpackedValid(p);
    }
  }

  lemma UnpackedValid(p: seq<byte>)
    requires 12 <= |p| && |p| == 12 + 4 * U16(p, 0)
    ensures ValidCode(Unpack(p)) <==>
            && 1 <= U16(p, 0) <= 256
            && U16(p, 2) == 0 && U32(p, 4) == 1_000_000
            && (U32(p, 8) == 0 || 20_000 <= U32(p, 8) <= 60_000)
            && ValidWords(p, 2 * U16(p, 0))
  {
    hide Phases, ValidCode, U16, U32, ValidWords, ValidSignal;
    ValidCodeSpelledOut(Unpack(p));
    WordsAreSignal(p);
  }

  lemma WordsAreSignal(p: seq<byte>)
    requires 12 <= |p| && |p| == 12 + 4 * U16(p, 0)
    ensures ValidSignal(Phases(Unpack(p).symbols)) <==> ValidWords(p, 2 * U16(p, 0))
  {
    hide Unpack, Phases, U16, ValidPhase, ValidWord;
    var ps, n := Phases(Unpack(p).symbols), 2 * U16(p, 0);
    assert |ps| == n;
    forall k | 0 <= k < n
      ensures ValidPhase(ps[k], k, n) <==> ValidWord(p, k, n)
    {
      PayloadPhases(p, k);
      WordIsPhase(p, k, n);
    }
  }

  lemma WordIsPhase(p: seq<byte>, k: nat, n: nat)
    requires 14 + 2 * k <= |p|
    ensures var w := U16(p, 12 + 2 * k);
            ValidPhase(Phase(w % 0x8000, w / 0x8000), k, n) <==> ValidWord(p, k, n)
  {
  }

  function SymbolBytes(s: Symbol): (b: seq<byte>)
    ensures |b| == 4
  {
    Le16(WordOfPhase(s.phase0)) + Le16(WordOfPhase(s.phase1))
  }

  function SymbolsBytes(ss: seq<Symbol>): (b: seq<byte>)
    ensures |b| == 4 * |ss|
  {
    if ss == [] then [] else SymbolsBytes(ss[..|ss| - 1]) + SymbolBytes(ss[|ss| - 1])
  }

  function Prefix(count: u16, c: Code): (b: seq<byte>)
    ensures |b| == PREFIX_SIZE
  {
    Le16(count) + Le16(c.flags) + Le32(c.resolutionHz) + Le32(c.carrierHz)
  }

  lemma PrefixSame(count: u16, c: Code, d: Code)
    requires c.flags == d.flags && c.resolutionHz == d.resolutionHz && c.carrierHz == d.carrierHz
    ensures Prefix(count, c) == Prefix(count, d)
  {
  }

  function Encode(c: Code): (b: seq<byte>)
    requires ValidCode(c)
    ensures |b| == PREFIX_SIZE + 4 * |c.symbols| <= MAX_PAYLOAD
  {
    Prefix(|c.symbols|, c) + SymbolsBytes(c.symbols)
  }

  lemma WordPhaseRoundTrip(w: u16)
    ensures WordOfPhase(PhaseOfWord(w)) == w
  {
  }

  lemma {:induction false} SymbolsBytesAt(ss: seq<Symbol>, i: nat)
    requires i < |ss|
    ensures SymbolsBytes(ss)[4 * i..4 * i + 4] == SymbolBytes(ss[i])
  {
    if i < |ss| - 1 {
      SymbolsBytesAt(ss[..|ss| - 1], i);
    }
  }

  /** What the decoder reads back from the encoder's prefix. */
  lemma PrefixFields(count: u16, c: Code, rest: seq<byte>)
    ensures var b := Prefix(count, c) + rest;
            U16(b, 0) == count && U16(b, 2) == c.flags && U32(b, 4) == c.resolutionHz && U32(b, 8) == c.carrierHz
  {
    U32OfLe32(c.resolutionHz);
    U32OfLe32(c.carrierHz);
    var b := Prefix(count, c) + rest;
    U32Local(b, 4, Le32(c.resolutionHz), 0);
    U32Local(b, 8, Le32(c.carrierHz), 0);
  }

  lemma SymbolAtOfBytes(b: seq<byte>, i: nat, s: Symbol)
    requires Encodable(s)
    requires PREFIX_SIZE + 4 * i + 4 <= |b|
    requires b[12 + 4 * i..16 + 4 * i] == SymbolBytes(s)
    ensures SymbolAt(b, i) == s
  {
    var four := b[12 + 4 * i..16 + 4 * i];
    assert four[0] == b[12 + 4 * i] && four[1] == b[13 + 4 * i] && four[2] == b[14 + 4 * i] && four[3] == b[15 + 4 * i];
  }

  /** The bytes of a code, valid or not, are unpacked to that code. */
  lemma UnpackOfBytes(c: Code)
    requires |c.symbols| <= MAX_SYMBOLS && forall i | 0 <= i < |c.symbols| :: Encodable(c.symbols[i])
    ensures var b := Prefix(|c.symbols|, c) + SymbolsBytes(c.symbols);
            U16(b, 0) == |c.symbols| && Unpack(b) == c
  {
    var b := Prefix(|c.symbols|, c) + SymbolsBytes(c.symbols);
    PrefixFields(|c.symbols|, c, SymbolsBytes(c.symbols));
    forall i | 0 <= i < |c.symbols|
      ensures SymbolsAt(b, |c.symbols|)[i] == c.symbols[i]
    {
      SymbolsBytesAt(c.symbols, i);
      assert b[12 + 4 * i..16 + 4 * i] == SymbolsBytes(c.symbols)[4 * i..4 * i + 4];
      SymbolAtOfBytes(b, i, c.symbols[i]);
      SymbolsAtIndex(b, |c.symbols|, i);
    }
    assert Unpack(b).symbols == c.symbols;
  }

  /** Decoding what was encoded gives the code back. */
  lemma DecodeOfEncode(c: Code)
    requires ValidCode(c)
    ensures Decode(Encode(c)) == Decoded(c)
  {
    assert forall i | 0 <= i < |c.symbols| :: ValidSymbol(c.symbols[i], i + 1 == |c.symbols|) && Encodable(c.symbols[i]);
    UnpackOfBytes(c);
  }

  lemma BytesOfWords(w: u16, v: u16)
    ensures var s := Symbol(PhaseOfWord(w), PhaseOfWord(v));
            SymbolBytes(s) == Le16(w) + Le16(v)
  {
    WordPhaseRoundTrip(w);
    WordPhaseRoundTrip(v);
  }

  lemma BytesOfSymbolAt(p: seq<byte>, i: nat, at: nat)
    requires at == PREFIX_SIZE + 4 * i && at + 4 <= |p|
    ensures SymbolBytes(SymbolAt(p, i)) == p[at..at + 4]
  {
    var w, v := U16(p, at), U16(p, at + 2);
    BytesOfWords(w, v);
    assert SymbolAt(p, i) == Symbol(PhaseOfWord(w), PhaseOfWord(v));
    Le16OfU16(p, at);
    Le16OfU16(p, at + 2);
    Join(p, at, at + 2, at + 4);
  }

  lemma SymbolsBytesSnoc(ss: seq<Symbol>, s: Symbol)
    ensures SymbolsBytes(ss + [s]) == SymbolsBytes(ss) + SymbolBytes(s)
  {
    assert (ss + [s])[..|ss + [s]| - 1] == ss;
  }

  lemma {:induction false} BytesOfSymbols(p: seq<byte>, n: nat, at: nat)
    requires at == PREFIX_SIZE + 4 * n && at <= |p|
    ensures SymbolsBytes(SymbolsAt(p, n)) == p[12..at]
  {
    if n > 0 {
      BytesOfSymbols(p, n - 1, at - 4);
      BytesOfSymbolAt(p, n - 1, at - 4);
      SymbolsBytesSnoc(SymbolsAt(p, n - 1), SymbolAt(p, n - 1));
      Join(p, 12, at - 4, at);
    }
  }

  lemma PrefixOfFields(p: seq<byte>, c: Code)
    requires PREFIX_SIZE <= |p|
    requires c.flags == U16(p, 2) && c.resolutionHz == U32(p, 4) && c.carrierHz == U32(p, 8)
    ensures Prefix(U16(p, 0), c) == p[..12]
  {
    Le16OfU16(p, 0);
    Le16OfU16(p, 2);
    Le32OfU32(p, 4);
    Le32OfU32(p, 8);
    assert p[0..2] + p[2..4] + p[4..8] + p[8..12] == p[..12];
  }

  /** Re-encoding an accepted payload reproduces it byte for byte. */
  lemma EncodeOfDecode(p: seq<byte>)
    requires Decode(p).Decoded?
    ensures ValidCode(Decode(p).code)
    ensures Encode(Decode(p).code) == p
  {
    var c, count := Unpack(p), U16(p, 0);
    assert ValidCode(c);
    assert SymbolsBytes(c.symbols) == p[12..] by {
      BytesOfSymbols(p, count, |p|);
    }
    assert Prefix(count, c) == p[..12] by {
      PrefixOfFields(p, c);
    }
    assert p == p[..12] + p[12..];
  }

  /** The accepted payloads are exactly the encodings of valid codes. */
  lemma DecodedIffEncoding(p: seq<byte>)
    ensures Decode(p).Decoded? <==> exists c :: ValidCode(c) && p == Encode(c)
  {
    if Decode(p).Decoded? {
      EncodeOfDecode(p);
    }
    forall c | ValidCode(c) && p == Encode(c) {
      DecodeOfEncode(c);
    }
  }

  /** ir_protocol_decode_code on payload[at..at + len]. */
  method DecodeCode(payload: array<byte>, at: nat, len: nat, code: IrCode) returns (status: Status)
    requires at + len <= payload.Length && code.symbols.Length == MAX_SYMBOLS
    modifies code, code.symbols
    ensures status == OK ==> code.symbolCount <= MAX_SYMBOLS
                             && Decode(old(payload[at..at + len])) == Decoded(code.Value())
    ensures status != OK ==> Decode(old(payload[at..at + len])) == Refused(status)
  {
    hide SymbolsAt, ValidCode, U16, U32;
    ghost var p, all, end := payload[at..at + len], payload[..], at + len;
    assert p == all[at..end];
    if len < PREFIX_SIZE || len > MAX_PAYLOAD {
      return INVALID_LENGTH;
    }
    var count := ReadU16(payload, at);
    U16InSlice(all, at, end, 0);
    if count == 0 || count > MAX_SYMBOLS {
      return INVALID_PAYLOAD;
    }
    if len != PREFIX_SIZE + 4 * count {
      return INVALID_LENGTH;
    }
    code.symbolCount := count;
    code.flags := ReadU16(payload, at + 2);
    code.resolutionHz := ReadU32(payload, at + 4);
    code.carrierHz := ReadU32(payload, at + 8);
    U16InSlice(all, at, end, 2);
    U32InSlice(all, at, end, 4);
    U32InSlice(all, at, end, 8);
    ReadSymbols(payload, at, count, code);
    assert code.symbols[..count] == SymbolsAt(p, count);
    assert code.Value() == Unpack(p);
    var ok := code.IsValid();
    return if ok then OK else INVALID_PAYLOAD;
  }

  /** The decoder's loop. */
  method ReadSymbols(payload: array<byte>, at: nat, count: nat, code: IrCode)
    requires at + PREFIX_SIZE + 4 * count <= payload.Length && count <= code.symbols.Length
    modifies code.symbols
    ensures code.symbols[..count] == SymbolsAt(payload[at..at + PREFIX_SIZE + 4 * count], count)
  {
    ghost var p := payload[at..at + PREFIX_SIZE + 4 * count];
    for i := 0 to count
      invariant code.symbols[..i] == SymbolsAt(p, i)
    {
      var a := ReadU16(payload, at + 12 + 4 * i);
      var b := ReadU16(payload, at + 14 + 4 * i);
      code.symbols[i] := Symbol(Phase(a % 0x8000, a / 0x8000), Phase(b % 0x8000, b / 0x8000));
      assert code.symbols[i] == SymbolAt(p, i);
    }
  }

  /** ir_protocol_encode_code into payload[at..at + capacity]. */
  method EncodeCode(code: IrCode, payload: array<byte>, at: nat, capacity: nat) returns (err: Err, len: nat)
    requires at + capacity <= payload.Length && code.symbols.Length == MAX_SYMBOLS
    modifies payload
    ensures err == ESP_ERR_INVALID_ARG <==> !(code.symbolCount <= MAX_SYMBOLS && ValidCode(code.Value()))
    ensures err == ESP_OK <==> code.symbolCount <= MAX_SYMBOLS && ValidCode(code.Value())
                               && |Encode(code.Value())| <= capacity
    ensures err == ESP_OK || err == ESP_ERR_INVALID_ARG || err == ESP_ERR_INVALID_SIZE
    ensures err == ESP_OK ==> at + len <= payload.Length
                              && payload[..] == old(payload[..at]) + Encode(code.Value()) + old(payload[at + len..])
    ensures err != ESP_OK ==> payload[..] == old(payload[..]) && len == 0
  {
    len := 0;
    var ok := code.IsValid();
    if !ok {
      return ESP_ERR_INVALID_ARG, 0;
    }
    var size := PREFIX_SIZE + 4 * code.symbolCount;
    if capacity < size {
      return ESP_ERR_INVALID_SIZE, 0;
    }
    hide Prefix, SymbolsBytes, ValidCode;
    WriteCode(code, payload, at);
    return ESP_OK, size;
  }

  /** The encoder once it knows that the code is valid and fits: the prefix, then the symbols. */
  method WriteCode(code: IrCode, payload: array<byte>, at: nat)
    requires code.symbols.Length == MAX_SYMBOLS && code.symbolCount <= MAX_SYMBOLS && ValidCode(code.Value())
    requires at + PREFIX_SIZE + 4 * code.symbolCount <= payload.Length
    modifies payload
    ensures payload[..] == old(payload[..at]) + Encode(code.Value())
                           + old(payload[at + PREFIX_SIZE + 4 * code.symbolCount..])
  {
    hide Prefix, SymbolsBytes, ValidCode;
    ghost var was, c := payload[..], code.Value();
    ghost var head, prefix, body := payload[..at], Prefix(code.symbolCount, c), SymbolsBytes(c.symbols);
    ghost var rest := payload[at + PREFIX_SIZE..];
    WritePrefix(payload, at, code.symbolCount, Code(code.flags, code.resolutionHz, code.carrierHz, []));
    PrefixSame(code.symbolCount, Code(code.flags, code.resolutionHz, code.carrierHz, []), c);
    assert payload[..] == (head + prefix) + rest;
    Overwrite(head + prefix, body, rest);
    WriteSymbols(code, payload, at + PREFIX_SIZE);
    assert payload[..] == ((head + prefix) + body) + rest[4 * code.symbolCount..];
    Assoc(head, prefix, body);
    DropDrop(was, at + PREFIX_SIZE, 4 * code.symbolCount);
    assert Encode(c) == prefix + body;
  }

  lemma NoSymbols(ss: seq<Symbol>)
    ensures SymbolsBytes(ss[..0]) == []
  {
  }

  /** The encoder's loop. */
  method WriteSymbols(code: IrCode, payload: array<byte>, at: nat)
    requires code.symbolCount <= code.symbols.Length && at + 4 * code.symbolCount <= payload.Length
    modifies payload
    ensures payload[..] == old(payload[..at]) + SymbolsBytes(code.symbols[..code.symbolCount])
                           + old(payload[at + 4 * code.symbolCount..])
  {
    hide SymbolBytes, SymbolsBytes;
    ghost var head, tail, ss := payload[..at], payload[at..], code.symbols[..code.symbolCount];
    NoSymbols(ss);
    assert payload[..] == head + tail;
    for i := 0 to code.symbolCount
      invariant payload[..] == (head + SymbolsBytes(ss[..i])) + tail[4 * i..]
    {
      AppendSymbol(payload, at + 4 * i, code.symbols[i], head + SymbolsBytes(ss[..i]), tail[4 * i..]);
      OneMoreSymbol(head, ss, i);
      DropDrop(tail, 4 * i, 4);
    }
    assert ss[..code.symbolCount] == ss;
  }

  /** Writing a symbol after a finished front part. */
  method AppendSymbol(payload: array<byte>, at: nat, s: Symbol, ghost front: seq<byte>, ghost tail: seq<byte>)
    requires payload[..] == front + tail && at == |front| && 4 <= |tail|
    modifies payload
    ensures payload[..] == (front + SymbolBytes(s)) + tail[4..]
  {
    hide SymbolBytes;
    Overwrite(front, SymbolBytes(s), tail);
    WriteSymbol(payload, at, s);
  }

  lemma OneMoreSymbol(head: seq<byte>, ss: seq<Symbol>, i: nat)
    requires i < |ss|
    ensures (head + SymbolsBytes(ss[..i])) + SymbolBytes(ss[i]) == head + SymbolsBytes(ss[..i + 1])
  {
    hide SymbolBytes, SymbolsBytes;
    SymbolsBytesSnoc(ss[..i], ss[i]);
    assert ss[..i + 1] == ss[..i] + [ss[i]];
    Assoc(head, SymbolsBytes(ss[..i]), SymbolBytes(ss[i]));
  }

  /** The prefix of a payload with `count` symbols; only the metadata of c is used. */
  method WritePrefix(payload: array<byte>, at: nat, count: u16, c: Code)
    requires at + PREFIX_SIZE <= payload.Length
    modifies payload
    ensures payload[..] == old(payload[..at]) + Prefix(count, c) + old(payload[at + 12..])
  {
    ghost var head, tail := payload[..at], payload[at..];
    ghost var n, flags, res, carrier := Le16(count), Le16(c.flags), Le32(c.resolutionHz), Le32(c.carrierHz);
    assert payload[..] == head + tail;
    Overwrite(head, n, tail);
    WriteU16(payload, at, count);
    Overwrite(head + n, flags, tail[2..]);
    WriteU16(payload, at + 2, c.flags);
    Overwrite(head + n + flags, res, tail[2..][2..]);
    WriteU32(payload, at + 4, c.resolutionHz);
    Overwrite(head + n + flags + res, carrier, tail[2..][2..][4..]);
    WriteU32(payload, at + 8, c.carrierHz);
    Assoc(head, n, flags);
    Assoc(head, n + flags, res);
    Assoc(head, n + flags + res, carrier);
  }

  method WriteSymbol(payload: array<byte>, at: nat, s: Symbol)
    requires at + 4 <= payload.Length
    modifies payload
    ensures payload[..] == old(payload[..at]) + SymbolBytes(s) + old(payload[at + 4..])
  {
    WriteU16(payload, at, WordOfPhase(s.phase0));
    WriteU16(payload, at + 2, WordOfPhase(s.phase1));
  }

  datatype RawDetails = RawDetails(symbolCount: u16, flags: u16, resolutionHz: u32, carrierHz: u32, symbols: seq<(u16, u16)>)
  datatype Parsed = Parsed(details: RawDetails) | ValueError

  /** parse_raw_payload: the Python client's looser check of a payload. */
  function ParseRawPayload(p: seq<byte>): Parsed {
    if |p| < 12 then ValueError
    else
      var count := U16(p, 0);
      if count == 0 || |p| != 12 + 4 * count || U32(p, 4) == 0 then ValueError
      else Parsed(RawDetails(count, U16(p, 2), U32(p, 4), U32(p, 8),
                             seq(count, i requires 0 <= i < count => (U16(p, 12 + 4 * i), U16(p, 14 + 4 * i)))))
  }

  /** Whatever the firmware accepts, the client accepts too, and reads as the same code. */
  lemma AcceptedPayloadParses(p: seq<byte>)
    requires Decode(p).Decoded?
    ensures ParseRawPayload(p).Parsed?
    ensures var c, d := Decode(p).code, ParseRawPayload(p).details;
            && d.symbolCount == |c.symbols| == |d.symbols|
            && d.flags == c.flags && d.resolutionHz == c.resolutionHz && d.carrierHz == c.carrierHz
            && forall i | 0 <= i < |c.symbols| ::
                 c.symbols[i] == Symbol(PhaseOfWord(d.symbols[i].0), PhaseOfWord(d.symbols[i].1))
  {
    var c := Decode(p).code;
    forall i | 0 <= i < |c.symbols|
      ensures c.symbols[i] == SymbolAt(p, i)
    {
      SymbolsAtIndex(p, |c.symbols|, i);
    }
  }
}
