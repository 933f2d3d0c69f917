/** CRC-32/ISO-HDLC, written as the firmware and the HAL write it: a bitwise loop. */
module Crc {
  import opened Bytes
  import opened Bitwise

  const POLYNOMIAL: u32 := 0xEDB8_8320
  const ALL_ONES: u32 := 0xFFFF_FFFF

  function XorWord(a: u32, b: u32): (x: u32) {
    Pow2Word();
    XorBound(a, b, 32);
    Xor(a, b)
  }

  /** One turn of the inner loop. */
  function BitStep(c: u32): u32 {
    XorWord(c / 2, if c % 2 == 1 then POLYNOMIAL else 0)
  }

  function BitSteps(c: u32, n: nat): u32
    decreases n
  {
    if n == 0 then c else BitSteps(BitStep(c), n - 1)
  }

  function ByteStep(c: u32, b: byte): u32 {
    BitSteps(XorWord(c, b), 8)
  }

  function Update(c: u32, s: seq<byte>): u32 {
    if s == [] then c else ByteStep(Update(c, s[..|s| - 1]), s[|s| - 1])
  }

  function Crc32(s: seq<byte>): u32 {
    XorWord(Update(ALL_ONES, s), ALL_ONES)
  }

  lemma {:induction false} UpdateAppend(c: u32, s: seq<byte>, t: seq<byte>)
    ensures Update(c, s + t) == Update(Update(c, s), t)
  {
    if t == [] {
      assert s + t == s;
    } else {
      UpdateAppend(c, s, t[..|t| - 1]);
      assert (s + t)[..|s + t| - 1] == s + t[..|t| - 1];
    }
  }

  lemma UpdateSnoc(c: u32, s: seq<byte>, b: byte)
    ensures Update(c, s + [b]) == ByteStep(Update(c, s), b)
  {
    assert (s + [b])[..|s + [b]| - 1] == s;
  }

  lemma {:induction false} BitStepsAdd(c: u32, m: nat, n: nat)
    ensures BitSteps(c, m + n) == BitSteps(BitSteps(c, m), n)
    decreases m
  {
    if m > 0 {
      BitStepsAdd(BitStep(c), m - 1, n);
    }
  }

  lemma BitStepsStart(c: u32)
    ensures BitSteps(c, 0) == c
  {
  }

  lemma BitStepsNext(c: u32, n: nat)
    ensures BitSteps(c, n + 1) == BitStep(BitSteps(c, n))
  {
    hide BitStep;
    BitStepsAdd(c, n, 1);
  }

  lemma UpdateNone(c: u32)
    ensures Update(c, []) == c
  {
  }

  /** The two nested loops over bytes[at..at + len]. */
  method CrcUpdate(crc: u32, bytes: array<byte>, at: nat, len: nat) returns (r: u32)
    requires at + len <= bytes.Length
    ensures r == Update(crc, bytes[at..at + len])
  {
    hide Xor, BitSteps, Update;
    UpdateNone(crc);
    assert bytes[at..at + 0] == [];
    r := crc;
    for i := 0 to len
      invariant r == Update(crc, bytes[at..at + i])
    {
      r := XorWord(r, bytes[at + i]);
      ghost var mixed := r;
      BitStepsStart(mixed);
      for bit := 0 to 8
        invariant r == BitSteps(mixed, bit)
      {
        BitStepsNext(mixed, bit);
        r := XorWord(r / 2, if r % 2 == 1 then POLYNOMIAL else 0);
      }
      UpdateSnoc(crc, bytes[at..at + i], bytes[at + i]);
      assert bytes[at..at + i + 1] == bytes[at..at + i] + [bytes[at + i]];
    }
  }

  /** The checksum of a packet held in an array: header[0..12], then the payload. */
  method PacketCrc(packet: array<byte>, len: nat) returns (r: u32)
    requires 16 + len <= packet.Length
    ensures r == Crc32(packet[..12] + packet[16..16 + len])
  {
    var c := CrcUpdate(ALL_ONES, packet, 0, 12);
    c := CrcUpdate(c, packet, 16, len);
    UpdateAppend(ALL_ONES, packet[..12], packet[16..16 + len]);
    r := XorWord(c, ALL_ONES);
  }

  /* ---- Algebra of the bit step ---- */

  /** The polynomial's top bit records the bit shifted out. */
  lemma BitStepTop(c: u32)
    ensures BitStep(c) >= 0x8000_0000 <==> c % 2 == 1
    ensures c % 2 == 0 ==> BitStep(c) == c / 2
  {
    Pow2Word();
    if c % 2 == 1 {
      XorTop(c / 2, POLYNOMIAL, 31);
    } else {
      XorZero(c / 2);
    }
  }

  /** The bit step loses nothing. */
  lemma BitStepInjective(a: u32, b: u32)
    requires BitStep(a) == BitStep(b)
    ensures a == b
  {
    BitStepTop(a);
    BitStepTop(b);
    if a % 2 == 1 {
      XorComm(a / 2, POLYNOMIAL);
      XorComm(b / 2, POLYNOMIAL);
      XorCancel(POLYNOMIAL, a / 2, b / 2);
    }
  }

  lemma {:induction false} BitStepsInjective(a: u32, b: u32, n: nat)
    requires BitSteps(a, n) == BitSteps(b, n)
    ensures a == b
    decreases n
  {
    if n > 0 {
      BitStepsInjective(BitStep(a), BitStep(b), n - 1);
      BitStepInjective(a, b);
    }
  }

  /** The bit step is linear: it distributes over exclusive or. */
  lemma BitStepLinear(a: u32, b: u32)
    ensures BitStep(XorWord(a, b)) == XorWord(BitStep(a), BitStep(b))
  {
    XorBits(a, b);
    var p := if a % 2 == 1 then POLYNOMIAL else 0;
    var q := if b % 2 == 1 then POLYNOMIAL else 0;
    XorSwap(a / 2, p, b / 2, q);
    XorSelf(p);
    XorZero(p);
    XorZero(q);
  }

  /** Zeros at the low end are shifted out without touching the polynomial. */
  lemma {:induction false} ShiftOut(c: u32, n: nat)
    requires c * Pow2(n) < 0x1_0000_0000
    ensures BitSteps(c * Pow2(n), n) == c
    decreases n
  {
    hide Xor, BitStep, Pow2;
    TimesPow2(c, n);
    if n > 0 {
      var half := c * Pow2(n - 1);
      BitStepTop(2 * half);
      ShiftOut(c, n - 1);
    }
  }

  lemma TimesPow2(c: nat, n: nat)
    ensures c * Pow2(n) == if n == 0 then c else 2 * (c * Pow2(n - 1))
  {
    if n > 0 {
      assert Pow2(n) == 2 * Pow2(n - 1);
    }
  }

  lemma Pow2Eight(n: nat)
    ensures Pow2(n + 8) == 0x100 * Pow2(n) && Pow2(8) == 0x100
  {
    assert Pow2(n + 2) == 4 * Pow2(n);
    assert Pow2(n + 4) == 4 * Pow2(n + 2);
    assert Pow2(n + 6) == 4 * Pow2(n + 4);
    assert Pow2(n + 8) == 4 * Pow2(n + 6);
    assert Pow2(8) == 0x100;
  }

  /** A byte of ones eats eight ones of the register. */
  lemma OnesStep(n: nat)
    requires n <= 24
    ensures Pow2(n + 8) <= 0x1_0000_0000
    ensures ByteStep(Pow2(n + 8) - 1, 0xFF) == Pow2(n) - 1
  {
    hide Xor, BitSteps;
    Pow2Word();
    Pow2Grows(n + 8, 32);
    Pow2Eight(n);
    XorOnes(n + 8, 0xFF);
    hide Pow2;
    assert Pow2(n + 8) - 1 - 0xFF == (Pow2(n) - 1) * Pow2(8);
    ShiftOut(Pow2(n) - 1, 8);
  }

  lemma {:induction false} Pow2Grows(m: nat, n: nat)
    requires m <= n
    ensures Pow2(m) <= Pow2(n)
  {
    if m < n {
      Pow2Grows(m, n - 1);
    }
  }

  /** Four bytes of ones empty the register. */
  lemma OnesEmpty()
    ensures Update(ALL_ONES, [0xFF, 0xFF, 0xFF, 0xFF]) == 0
  {
    hide Xor, BitSteps, ByteStep, Update;
    Pow2Word();
    Pow2Eight(0);
    Pow2Eight(8);
    Pow2Eight(16);
    OnesStep(24);
    OnesStep(16);
    OnesStep(8);
    OnesStep(0);
    UpdateSnoc(ALL_ONES, [], 0xFF);
    UpdateSnoc(ALL_ONES, [0xFF], 0xFF);
    UpdateSnoc(ALL_ONES, [0xFF, 0xFF], 0xFF);
    UpdateSnoc(ALL_ONES, [0xFF, 0xFF, 0xFF], 0xFF);
    UpdateNone(ALL_ONES);
    assert [] + [0xFF] == [0xFF] && [0xFF] + [0xFF] == [0xFF, 0xFF];
    assert [0xFF, 0xFF] + [0xFF] == [0xFF, 0xFF, 0xFF] && [0xFF, 0xFF, 0xFF] + [0xFF] == [0xFF, 0xFF, 0xFF, 0xFF];
    assert Pow2(0) == 1;
  }

  /** A test vector that fixes the polynomial, the initial value, the bit order and the final complement. */
  lemma KnownVector()
    ensures Crc32([0xFF, 0xFF, 0xFF, 0xFF, 0x80]) == 0x1247_7CDF
  {
    hide Xor, Update;
    OnesEmpty();
    UpdateSnoc(ALL_ONES, [0xFF, 0xFF, 0xFF, 0xFF], 0x80);
    assert [0xFF, 0xFF, 0xFF, 0xFF] + [0x80] == [0xFF, 0xFF, 0xFF, 0xFF, 0x80];
    assert ByteStep(0, 0x80) == POLYNOMIAL by {
      XorZero(0x80);
      BitStepsAdd(0x80, 7, 1);
      ShiftToOne();
      OddStep();
    }
    Pow2Word();
    XorComm(POLYNOMIAL, ALL_ONES);
    XorOnes(32, POLYNOMIAL);
  }

  lemma ShiftToOne()
    ensures BitSteps(0x80, 7) == 1
  {
    assert Pow2(7) == 0x80;
    ShiftOut(1, 7);
  }

  lemma OddStep()
    ensures BitSteps(1, 1) == POLYNOMIAL
  {
    XorZero(POLYNOMIAL);
  }
}
