/**
 Error detection. The checksum is first shown to be the bit-serial one (least significant
 bit of each byte first), then to tell apart any two strings that differ, and differ only
 inside 32 consecutive bits.
 */
module CrcBurst {
  import opened Bytes
  import opened Bitwise
  import opened Crc

  function Bit(b: bool): u32 {
    if b then 1 else 0
  }

  function BitsOf(b: nat, n: nat): (bits: seq<bool>)
    ensures |bits| == n
    decreases n
  {
    if n == 0 then [] else [b % 2 == 1] + BitsOf(b / 2, n - 1)
  }

  /** The bits of a string in the order the shift register sees them. */
  function Bits(s: seq<byte>): (bits: seq<bool>)
    ensures |bits| == 8 * |s|
  {
    if s == [] then [] else Bits(s[..|s| - 1]) + BitsOf(s[|s| - 1], 8)
  }

  /** The number whose bits are given, least significant first. */
  function Pack(bits: seq<bool>): (n: nat)
    ensures n < Pow2(|bits|)
  {
    if bits == [] then 0 else Bit(bits[0]) + 2 * Pack(bits[1..])
  }

  /** The bit-serial checksum register. */
  function Serial(c: u32, bits: seq<bool>): u32
    decreases |bits|
  {
    if bits == [] then c else Serial(BitStep(XorWord(c, Bit(bits[0]))), bits[1..])
  }

  lemma {:induction false} PackBitsOf(b: nat, n: nat)
    requires b < Pow2(n)
    ensures Pack(BitsOf(b, n)) == b
    decreases n
  {
    if n > 0 {
      PackBitsOf(b / 2, n - 1);
      assert BitsOf(b, n)[1..] == BitsOf(b / 2, n - 1);
    }
  }

  lemma {:induction false} PackInjective(x: seq<bool>, y: seq<bool>)
    requires |x| == |y| && Pack(x) == Pack(y)
    ensures x == y
  {
    if x != [] {
      PackInjective(x[1..], y[1..]);
      assert x == [x[0]] + x[1..] && y == [y[0]] + y[1..];
    }
  }

  lemma {:induction false} SerialAppend(c: u32, x: seq<bool>, y: seq<bool>)
    ensures Serial(c, x + y) == Serial(Serial(c, x), y)
    decreases |x|
  {
    hide XorWord, BitStep;
    if x == [] {
      assert x + y == y;
    } else {
      SerialAppend(BitStep(XorWord(c, Bit(x[0]))), x[1..], y);
      assert (x + y)[1..] == x[1..] + y;
    }
  }

  lemma XorDisjoint(b: nat, y: nat)
    requires b < 2
    ensures Xor(b, 2 * y) == 2 * y + b
  {
    XorBits(b, 2 * y);
    XorZero(y);
  }

  /** Feeding a bit now and the rest afterwards is feeding the whole word now. */
  lemma BitStepShift(c: u32, b: bool, y: u32)
    requires 2 * y + Bit(b) < 0x1_0000_0000
    ensures BitStep(XorWord(c, 2 * y + Bit(b))) == XorWord(BitStep(XorWord(c, Bit(b))), y)
  {
    var b' := Bit(b);
    assert XorWord(XorWord(c, b'), 2 * y) == XorWord(c, 2 * y + b') by {
      XorAssoc(c, b', 2 * y);
      XorDisjoint(b', y);
    }
    BitStepLinear(XorWord(c, b'), 2 * y);
    BitStepTop(2 * y);
  }

  lemma {:induction false} SerialIsPacked(c: u32, bits: seq<bool>)
    requires |bits| <= 32
    ensures Pack(bits) < 0x1_0000_0000
    ensures Serial(c, bits) == BitSteps(XorWord(c, Pack(bits)), |bits|)
    decreases |bits|
  {
    Pow2Word();
    Pow2Grows(|bits|, 32);
    if bits == [] {
      XorZero(c);
    } else {
      SerialIsPacked(BitStep(XorWord(c, Bit(bits[0]))), bits[1..]);
      BitStepShift(c, bits[0], Pack(bits[1..]));
    }
  }

  /** The byte-wise loop computes the bit-serial checksum. */
  lemma {:induction false} UpdateIsSerial(c: u32, s: seq<byte>)
    ensures Update(c, s) == Serial(c, Bits(s))
  {
    if s != [] {
      var front, b := s[..|s| - 1], s[|s| - 1];
      UpdateIsSerial(c, front);
      SerialAppend(c, Bits(front), BitsOf(b, 8));
      SerialIsPacked(Serial(c, Bits(front)), BitsOf(b, 8));
      ByteBits(b);
    }
  }

  lemma {:induction false} SerialInjective(c: u32, d: u32, bits: seq<bool>)
    requires Serial(c, bits) == Serial(d, bits)
    ensures c == d
    decreases |bits|
  {
    if bits != [] {
      var b := Bit(bits[0]);
      SerialInjective(BitStep(XorWord(c, b)), BitStep(XorWord(d, b)), bits[1..]);
      BitStepInjective(XorWord(c, b), XorWord(d, b));
      XorComm(c, b);
      XorComm(d, b);
      XorCancel(b, c, d);
    }
  }

  lemma SerialSeparates(c: u32, x: seq<bool>, y: seq<bool>)
    requires |x| == |y| <= 32
    requires Serial(c, x) == Serial(c, y)
    ensures x == y
  {
    SerialIsPacked(c, x);
    SerialIsPacked(c, y);
    BitStepsInjective(XorWord(c, Pack(x)), XorWord(c, Pack(y)), |x|);
    XorCancel(c, Pack(x), Pack(y));
    PackInjective(x, y);
  }

  lemma {:induction false} BitsInjective(a: seq<byte>, b: seq<byte>)
    requires |a| == |b| && Bits(a) == Bits(b)
    ensures a == b
  {
    if a != [] {
      hide Bits, BitsOf, Pack;
      var n := |a| - 1;
      BitsLast(a);
      BitsLast(b);
      Split(Bits(a[..n]), BitsOf(a[n], 8), Bits(b[..n]), BitsOf(b[n], 8));
      BitsInjective(a[..n], b[..n]);
      ByteBits(a[n]);
      ByteBits(b[n]);
      SameParts(a, b, n);
    }
  }

  lemma SameParts(a: seq<byte>, b: seq<byte>, n: nat)
    requires |a| == |b| == n + 1 && a[..n] == b[..n] && a[n] == b[n]
    ensures a == b
  {
    assert a == a[..n] + [a[n]] && b == b[..n] + [b[n]];
  }

  lemma BitsLast(s: seq<byte>)
    requires s != []
    ensures Bits(s) == Bits(s[..|s| - 1]) + BitsOf(s[|s| - 1], 8)
  {
    hide BitsOf;
  }

  lemma ByteBits(b: byte)
    ensures Pack(BitsOf(b, 8)) == b
  {
    assert Pow2(8) == 0x100;
    PackBitsOf(b, 8);
  }

  /** Equal outside the bits numbered lo..lo + 32. */
  predicate BurstApart(a: seq<byte>, b: seq<byte>, lo: nat) {
    && |a| == |b|
    && lo <= 8 * |a|
    && Bits(a)[..lo] == Bits(b)[..lo]
    && (lo + 32 <= 8 * |a| ==> Bits(a)[lo + 32..] == Bits(b)[lo + 32..])
  }

  /** Every error burst of at most 32 bits changes the checksum. */
  lemma BurstDetected(a: seq<byte>, b: seq<byte>, lo: nat)
    requires BurstApart(a, b, lo)
    requires a != b
    ensures Crc32(a) != Crc32(b)
  {
    if Crc32(a) == Crc32(b) {
      var c, d := Update(ALL_ONES, a), Update(ALL_ONES, b);
      XorComm(c, ALL_ONES);
      XorComm(d, ALL_ONES);
      XorCancel(ALL_ONES, c, d);
      UpdateIsSerial(ALL_ONES, a);
      UpdateIsSerial(ALL_ONES, b);
      var hi := if lo + 32 <= 8 * |a| then lo + 32 else 8 * |a|;
      SerialWindow(Bits(a), Bits(b), lo, hi);
      BitsInjective(a, b);
    }
  }

  lemma SerialWindow(x: seq<bool>, y: seq<bool>, lo: nat, hi: nat)
    requires lo <= hi <= |x| == |y| && hi <= lo + 32
    requires x[..lo] == y[..lo] && x[hi..] == y[hi..]
    requires Serial(ALL_ONES, x) == Serial(ALL_ONES, y)
    ensures x == y
  {
    hide Serial, XorWord;
    ThreeParts(x, lo, hi);
    ThreeParts(y, lo, hi);
    SerialAppend(ALL_ONES, x[..lo] + x[lo..hi], x[hi..]);
    SerialAppend(ALL_ONES, y[..lo] + y[lo..hi], y[hi..]);
    SerialInjective(Serial(ALL_ONES, x[..lo] + x[lo..hi]), Serial(ALL_ONES, y[..lo] + y[lo..hi]), x[hi..]);
    SerialAppend(ALL_ONES, x[..lo], x[lo..hi]);
    SerialAppend(ALL_ONES, y[..lo], y[lo..hi]);
    SerialSeparates(Serial(ALL_ONES, x[..lo]), x[lo..hi], y[lo..hi]);
  }

  /** Damage confined to four consecutive bytes is such a burst. */
  lemma BytesApart(a: seq<byte>, b: seq<byte>, at: nat)
    requires |a| == |b| && at <= |a|
    requires a[..at] == b[..at]
    requires at + 4 <= |a| ==> a[at + 4..] == b[at + 4..]
    ensures BurstApart(a, b, 8 * at)
  {
    hide Bits;
    BitsAgree(a, b, at, 8 * at);
    if at + 4 <= |a| {
      BitsAgree(a, b, at + 4, 8 * at + 32);
    }
  }

  lemma BitsAgree(a: seq<byte>, b: seq<byte>, at: nat, bit: nat)
    requires |a| == |b| && at <= |a| && bit == 8 * at
    ensures a[..at] == b[..at] ==> Bits(a)[..bit] == Bits(b)[..bit]
    ensures a[at..] == b[at..] ==> Bits(a)[bit..] == Bits(b)[bit..]
  {
    BitsSplit(a, at);
    BitsSplit(b, at);
  }

  lemma BitsSnoc(s: seq<byte>, b: byte)
    ensures Bits(s + [b]) == Bits(s) + BitsOf(b, 8)
  {
    hide BitsOf;
    assert (s + [b])[..|s + [b]| - 1] == s;
  }

  lemma BitsNone()
    ensures Bits([]) == []
  {
  }

  lemma {:induction false} BitsAppend(s: seq<byte>, t: seq<byte>)
    ensures Bits(s + t) == Bits(s) + Bits(t)
  {
    hide Bits, BitsOf;
    if t == [] {
      BitsNone();
      assert s + t == s;
      assert Bits(s) + [] == Bits(s);
    } else {
      var front, b := t[..|t| - 1], t[|t| - 1];
      BitsAppend(s, front);
      BitsSnoc(s + front, b);
      BitsSnoc(front, b);
      Assoc(s, front, [b]);
      assert front + [b] == t;
      Assoc(Bits(s), Bits(front), BitsOf(b, 8));
    }
  }

  lemma BitsSplit(s: seq<byte>, at: nat)
    requires at <= |s|
    ensures Bits(s)[..8 * at] == Bits(s[..at])
    ensures Bits(s)[8 * at..] == Bits(s[at..])
  {
    hide Bits, BitsOf;
    BitsAppend(s[..at], s[at..]);
    assert s == s[..at] + s[at..];
    Parts(Bits(s[..at]), Bits(s[at..]));
  }
}
