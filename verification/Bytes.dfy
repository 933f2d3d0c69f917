/** Bytes, little-endian integers and byte strings, shared by every component. */
module Bytes {

  type byte = b: int | 0 <= b < 0x100
  type u16 = n: int | 0 <= n < 0x1_0000
  type u32 = n: int | 0 <= n < 0x1_0000_0000

  datatype Option<T> = None | Some(value: T)

  /** The 16-bit integer stored at s[at..at + 2], least significant byte first. */
  function U16(s: seq<byte>, at: nat): (n: u16)
    requires at + 2 <= |s|
  {
    s[at] as int + 0x100 * s[at + 1] as int
  }

  /** The 32-bit integer stored at s[at..at + 4], least significant byte first. */
  function U32(s: seq<byte>, at: nat): (n: u32)
    requires at + 4 <= |s|
  {
    s[at] as int + 0x100 * s[at + 1] as int + 0x1_0000 * s[at + 2] as int + 0x100_0000 * s[at + 3] as int
  }

  function Le16(n: u16): (s: seq<byte>)
    ensures |s| == 2
  {
    [n % 0x100, n / 0x100]
  }

  function Le32(n: u32): (s: seq<byte>)
    ensures |s| == 4
  {
    [n % 0x100, n / 0x100 % 0x100, n / 0x1_0000 % 0x100, n / 0x100_0000]
  }

  lemma U32OfLe32(n: u32)
    ensures U32(Le32(n), 0) == n
  {
    assert n / 0x1_0000 == n / 0x100 / 0x100;
    assert n / 0x100_0000 == n / 0x1_0000 / 0x100;
  }

  lemma Le16OfU16(s: seq<byte>, at: nat)
    requires at + 2 <= |s|
    ensures Le16(U16(s, at)) == s[at..at + 2]
  {
  }

  lemma Le32OfU32(s: seq<byte>, at: nat)
    requires at + 4 <= |s|
    ensures Le32(U32(s, at)) == s[at..at + 4]
  {
    Le32Digits(s[at], s[at + 1], s[at + 2], s[at + 3]);
    assert s[at..at + 4] == [s[at], s[at + 1], s[at + 2], s[at + 3]];
  }

  lemma Le32Digits(a: byte, b: byte, c: byte, d: byte)
    ensures Le32(a as int + 0x100 * b as int + 0x1_0000 * c as int + 0x100_0000 * d as int) == [a, b, c, d]
  {
    var n := a as int + 0x100 * b as int + 0x1_0000 * c as int + 0x100_0000 * d as int;
    assert n / 0x100 == b as int + 0x100 * c as int + 0x1_0000 * d as int;
    assert n / 0x1_0000 == c as int + 0x100 * d as int;
  }

  /** Reading an integer depends on the bytes it occupies and on nothing else. */
  lemma U32Local(s: seq<byte>, at: nat, t: seq<byte>, at': nat)
    requires at + 4 <= |s| && at' + 4 <= |t|
    requires s[at..at + 4] == t[at'..at' + 4]
    ensures U32(s, at) == U32(t, at')
  {
    var a, b := s[at..at + 4], t[at'..at' + 4];
    assert a[0] == s[at] && a[1] == s[at + 1] && a[2] == s[at + 2] && a[3] == s[at + 3];
    assert b[0] == t[at'] && b[1] == t[at' + 1] && b[2] == t[at' + 2] && b[3] == t[at' + 3];
  }

  lemma U16InSlice(s: seq<byte>, lo: nat, hi: nat, at: nat)
    requires lo + at + 2 <= hi <= |s|
    ensures U16(s[lo..hi], at) == U16(s, lo + at)
  {
  }

  lemma U32InSlice(s: seq<byte>, lo: nat, hi: nat, at: nat)
    requires lo + at + 4 <= hi <= |s|
    ensures U32(s[lo..hi], at) == U32(s, lo + at)
  {
  }

  function ReadU16(a: array<byte>, at: nat): (n: u16)
    requires at + 2 <= a.Length
    reads a
    ensures n == U16(a[..], at)
  {
    a[at] as int + 0x100 * a[at + 1] as int
  }

  function ReadU32(a: array<byte>, at: nat): (n: u32)
    requires at + 4 <= a.Length
    reads a
    ensures n == U32(a[..], at)
  {
    a[at] as int + 0x100 * a[at + 1] as int + 0x1_0000 * a[at + 2] as int + 0x100_0000 * a[at + 3] as int
  }

  method WriteU16(a: array<byte>, at: nat, value: u16)
    requires at + 2 <= a.Length
    modifies a
    ensures a[..] == old(a[..at]) + Le16(value) + old(a[at + 2..])
  {
    a[at] := value % 0x100;
    a[at + 1] := value / 0x100 % 0x100;
  }

  method WriteU32(a: array<byte>, at: nat, value: u32)
    requires at + 4 <= a.Length
    modifies a
    ensures a[..] == old(a[..at]) + Le32(value) + old(a[at + 4..])
  {
    ghost var was := a[..];
    var rest: u32 := value;
    for i := 0 to 4
      invariant a[..] == was[..at] + Le32(value)[..i] + was[at + i..]
      invariant rest == match i case 0 => value case 1 => value / 0x100 case 2 => value / 0x1_0000
                                case 3 => value / 0x100_0000 case _ => 0
    {
      a[at + i] := rest % 0x100;
      rest := rest / 0x100;
    }
    assert Le32(value)[..4] == Le32(value);
  }

  lemma Assoc<T>(a: seq<T>, b: seq<T>, c: seq<T>)
    ensures (a + b) + c == a + (b + c)
  {
  }

  lemma DropAppend<T>(s: seq<T>, t: seq<T>, n: nat)
    requires n <= |s|
    ensures (s + t)[n..] == s[n..] + t
  {
  }

  lemma DropDrop<T>(s: seq<T>, m: nat, n: nat)
    requires m + n <= |s|
    ensures s[m..][n..] == s[m + n..]
  {
  }

  lemma Join<T>(s: seq<T>, lo: nat, mid: nat, hi: nat)
    requires lo <= mid <= hi <= |s|
    ensures s[lo..mid] + s[mid..hi] == s[lo..hi]
  {
  }

  lemma ThreeParts<T>(s: seq<T>, lo: nat, hi: nat)
    requires lo <= hi <= |s|
    ensures s == s[..lo] + s[lo..hi] + s[hi..]
  {
  }

  lemma Parts<T>(a: seq<T>, b: seq<T>)
    ensures (a + b)[..|a|] == a && (a + b)[|a|..] == b
  {
  }

  /** A concatenation determines its parts once their lengths are known. */
  lemma Split<T>(a: seq<T>, b: seq<T>, c: seq<T>, d: seq<T>)
    requires |a| == |c| && a + b == c + d
    ensures a == c && b == d
  {
    assert a == (a + b)[..|a|] == (c + d)[..|c|] == c;
    assert b == (a + b)[|a|..] == (c + d)[|c|..] == d;
  }

  /** Writing `next` just after a finished part extends that part. */
  lemma Overwrite<T>(done: seq<T>, next: seq<T>, tail: seq<T>)
    requires |next| <= |tail|
    ensures var s := done + tail;
            s[..|done|] + next + s[|done| + |next|..] == (done + next) + tail[|next|..]
  {
  }

  /** All the strings of ss, one after another. */
  function Concat(ss: seq<seq<byte>>): seq<byte> {
    if ss == [] then [] else ss[0] + Concat(ss[1..])
  }

  lemma {:induction false} ConcatAppend(ss: seq<seq<byte>>, ts: seq<seq<byte>>)
    ensures Concat(ss + ts) == Concat(ss) + Concat(ts)
  {
    if ss == [] {
      assert ss + ts == ts;
      assert Concat(ss) + Concat(ts) == Concat(ts);
    } else {
      ConcatAppend(ss[1..], ts);
      assert (ss + ts)[1..] == ss[1..] + ts;
      Assoc(ss[0], Concat(ss[1..]), Concat(ts));
    }
  }

  lemma ConcatSnoc(ss: seq<seq<byte>>, s: seq<byte>)
    ensures Concat(ss + [s]) == Concat(ss) + s
  {
    ConcatAppend(ss, [s]);
    assert [s][1..] == [] && s + [] == s;
  }
}
