/**
 The stream scanner shared by the firmware and its three clients, as one recursive function
 over the whole stream.
 */
module Scanner {
  import opened Bytes
  import opened Codec
  import opened Crc
  import opened Packets

  /** What a scanner hands to its handler. */
  datatype Candidate =
    | TooLong(header: Framed)
    | CrcFailed(header: Framed)
    | Received(packet: Framed)

  /** The verdict on the bytes at the front of a buffer. */
  datatype Verdict =
    | Wait
    | Noise
    | Rejected(candidate: Candidate)
    | Whole(packet: Framed)

  function Judge(buf: seq<byte>): (v: Verdict)
    ensures v.Whole? ==> |v.packet| <= |buf| && v.packet == buf[..|v.packet|]
    ensures v.Noise? || v.Rejected? ==> buf != []
    ensures v == Wait ==> |buf| < MAX_PACKET
  {
    if |buf| < 2 then Wait
    else if buf[0] != MAGIC_0 || buf[1] != MAGIC_1 then Noise
    else if |buf| < HEADER_SIZE then Wait
    else
      var len := U32(buf, 8);
      if len > MAX_PAYLOAD then Rejected(TooLong(buf[..HEADER_SIZE]))
      else if |buf| < HEADER_SIZE + len then Wait
      else if U32(buf, 12) != Crc32(buf[..12] + buf[HEADER_SIZE..HEADER_SIZE + len])
      then Rejected(CrcFailed(buf[..HEADER_SIZE]))
      else
        Whole(buf[..HEADER_SIZE + len])
  }

  /** The verdicts in terms of the bytes themselves. */
  lemma VerdictSpelledOut(buf: seq<byte>)
    ensures var v := Judge(buf);
            && (v == Noise <==> |buf| >= 2 && !(buf[0] == 0x49 && buf[1] == 0x52))
            && (v == Wait <==>
                  || |buf| < 2
                  || (buf[0] == 0x49 && buf[1] == 0x52 &&
                      (|buf| < 16 || (U32(buf, 8) <= 1036 && |buf| < 16 + U32(buf, 8)))))
            && (|buf| >= 16 && buf[0] == 0x49 && buf[1] == 0x52 ==>
                  && (v == Rejected(TooLong(buf[..16])) <==> U32(buf, 8) > 1036)
                  && (U32(buf, 8) <= 1036 && |buf| >= 16 + U32(buf, 8) ==>
                        var size := 16 + U32(buf, 8);
                        if U32(buf, 12) == Crc32(buf[..12] + buf[16..size]) then v == Whole(buf[..size])
                        else v == Rejected(CrcFailed(buf[..16]))))
  {
    hide Crc32, U32;
  }

  lemma CoveredByFront(buf: seq<byte>, n: nat)
    requires HEADER_SIZE <= n <= |buf|
    ensures Covered(buf[..n]) == buf[..12] + buf[HEADER_SIZE..n]
  {
  }

  lemma WholeIsWellFormed(buf: seq<byte>)
    requires Judge(buf).Whole?
    ensures WellFormed(Judge(buf).packet)
  {
    hide Crc32, U32;
    var p := Judge(buf).packet;
    U32InSlice(buf, 0, |p|, 8);
    U32InSlice(buf, 0, |p|, 12);
    assert buf[0..|p|] == p;
    CoveredByFront(buf, |p|);
  }

  /** How many bytes a verdict consumes, and what it hands to the handler. */
  function Taken(v: Verdict): nat {
    match v
    case Wait => 0
    case Noise => 1
    case Rejected(_) => 1
    case Whole(p) => |p|
  }

  function Handed(v: Verdict): seq<Candidate> {
    match v
    case Wait => []
    case Noise => []
    case Rejected(c) => [c]
    case Whole(p) => [Received(p)]
  }

  datatype Scanned = Scanned(found: seq<Candidate>, rest: seq<byte>)

  /** Everything found in a stream, and the bytes still waiting for more. */
  function Scan(buf: seq<byte>): Scanned
    decreases |buf|
  {
    var v := Judge(buf);
    if v == Wait then Scanned([], buf)
    else
      var s := Scan(buf[Taken(v)..]);
      Scanned(Handed(v) + s.found, s.rest)
  }

  /** The scan of a stream known to be over: an incomplete candidate drops one byte. */
  function ScanEnd(buf: seq<byte>): seq<Candidate>
    decreases |buf|
  {
    if buf == [] then []
    else
      var v := Judge(buf);
      Handed(v) + ScanEnd(buf[if v == Wait then 1 else Taken(v)..])
  }

  /** A verdict other than Wait does not depend on what follows. */
  lemma JudgeStable(s: seq<byte>, t: seq<byte>)
    requires Judge(s) != Wait
    ensures Judge(s + t) == Judge(s)
  {
    hide Crc32, U32;
    var st := s + t;
    if HEADER_SIZE <= |s| {
      SliceAppend(s, t, 8, 12);
      U32Local(s, 8, st, 8);
      SliceAppend(s, t, 12, 16);
      U32Local(s, 12, st, 12);
      var len := U32(s, 8);
      SliceAppend(s, t, 0, HEADER_SIZE);
      if HEADER_SIZE + len <= |s| {
        SliceAppend(s, t, 0, 12);
        SliceAppend(s, t, HEADER_SIZE, HEADER_SIZE + len);
        SliceAppend(s, t, 0, HEADER_SIZE + len);
      }
    }
  }

  lemma SliceAppend(s: seq<byte>, t: seq<byte>, lo: nat, hi: nat)
    requires lo <= hi <= |s|
    ensures (s + t)[lo..hi] == s[lo..hi]
    ensures lo == 0 ==> (s + t)[..hi] == s[..hi]
  {
  }

  /** Scanning in two pieces, carrying the rest over, is scanning the whole. */
  lemma {:induction false} ScanAppend(s: seq<byte>, t: seq<byte>)
    ensures var first := Scan(s);
            var second := Scan(first.rest + t);
            Scan(s + t) == Scanned(first.found + second.found, second.rest)
    decreases |s|
  {
    var v := Judge(s);
    var second := Scan(Scan(s).rest + t);
    if v == Wait {
      assert [] + second.found == second.found;
    } else {
      var n := Taken(v);
      JudgeStable(s, t);
      ScanAppend(s[n..], t);
      DropAppend(s, t, n);
      Assoc(Handed(v), Scan(s[n..]).found, second.found);
    }
  }

  /** What is left waits, fits the receiver's buffer with room to spare, and is the end of the stream. */
  lemma {:induction false} ScanRest(s: seq<byte>)
    ensures var r := Scan(s).rest;
            Judge(r) == Wait && |r| < MAX_PACKET && |r| <= |s| && r == s[|s| - |r|..]
    decreases |s|
  {
    hide Judge;
    var v := Judge(s);
    if v != Wait {
      var n, r := Taken(v), Scan(s).rest;
      ScanRest(s[n..]);
      DropDrop(s, n, |s| - n - |r|);
    }
  }

  /** Expiry continues where feeding stopped. */
  lemma {:induction false} ScanEndSplit(s: seq<byte>)
    ensures ScanEnd(s) == Scan(s).found + ScanEnd(Scan(s).rest)
    decreases |s|
  {
    var v := Judge(s);
    if v != Wait {
      ScanEndSplit(s[Taken(v)..]);
      Assoc(Handed(v), Scan(s[Taken(v)..]).found, ScanEnd(Scan(s).rest));
    }
  }

  /** What ScanEnd finds after dropping the byte an incomplete candidate starts with. */
  lemma ScanEndDrop(s: seq<byte>)
    requires s != [] && Judge(s) == Wait
    ensures ScanEnd(s) == Scan(s[1..]).found + ScanEnd(Scan(s[1..]).rest)
  {
    ScanEndSplit(s[1..]);
  }

  /**
   What expiry is for: a whole packet is found behind anything that does not hold a whole packet
   itself, such as a header with a damaged length.
   */
  lemma {:induction false} ScanEndRecovers(junk: seq<byte>, p: Framed, t: seq<byte>)
    requires WellFormed(p)
    requires forall i | 0 <= i < |junk| :: !Judge((junk + p + t)[i..]).Whole?
    ensures Received(p) in ScanEnd(junk + p + t)
    decreases |junk|
  {
    hide Judge, WellFormed;
    var s := junk + p + t;
    if junk == [] {
      assert s == p + t;
      JudgeWhole(p, t);
    } else {
      assert s[0..] == s;
      var rest := junk[1..];
      assert s[1..] == rest + p + t;
      forall i | 0 <= i < |rest|
        ensures !Judge((rest + p + t)[i..]).Whole?
      {
        DropDrop(s, 1, i);
      }
      ScanEndRecovers(rest, p, t);
    }
  }

  /**
   The scanner resynchronises: a whole packet is found behind anything whose bytes neither hold a
   whole packet nor wait for more.
   */
  lemma {:induction false} ScanRecovers(junk: seq<byte>, p: Framed, t: seq<byte>)
    requires WellFormed(p)
    requires forall i | 0 <= i < |junk| :: Judge((junk + p + t)[i..]).Noise? || Judge((junk + p + t)[i..]).Rejected?
    ensures Received(p) in Scan(junk + p + t).found
    decreases |junk|
  {
    hide Judge, WellFormed;
    var s := junk + p + t;
    if junk == [] {
      assert s == p + t;
      JudgeWhole(p, t);
    } else {
      assert s[0..] == s;
      var rest := junk[1..];
      assert s[1..] == rest + p + t;
      forall i | 0 <= i < |rest|
        ensures Judge((rest + p + t)[i..]).Noise? || Judge((rest + p + t)[i..]).Rejected?
      {
        DropDrop(s, 1, i);
      }
      ScanRecovers(rest, p, t);
    }
  }

  function AllReceived(ps: seq<Framed>): seq<Candidate> {
    if ps == [] then [] else [Received(ps[0])] + AllReceived(ps[1..])
  }

  lemma JudgeWhole(p: Framed, t: seq<byte>)
    requires WellFormed(p)
    ensures Judge(p + t) == Whole(p)
  {
    assert Judge(p) == Whole(p) by {
      var len := U32(p, 8);
      assert p[..HEADER_SIZE + len] == p;
      assert p[..12] + p[HEADER_SIZE..HEADER_SIZE + len] == Covered(p);
    }
    JudgeStable(p, t);
  }

  /** Whole packets are found one after another, and the bytes after them are scanned afresh. */
  lemma {:induction false} ScanPackets(ps: seq<Framed>, t: seq<byte>)
    requires forall p | p in ps :: WellFormed(p)
    ensures Scan(Concat(ps) + t) == Scanned(AllReceived(ps) + Scan(t).found, Scan(t).rest)
  {
    if ps == [] {
      assert Concat(ps) + t == t;
    } else {
      hide Judge, WellFormed;
      var p := ps[0];
      assert p in ps;
      var more: seq<byte> := Concat(ps[1..]) + t;
      Assoc(p, Concat(ps[1..]), t);
      JudgeWhole(p, more);
      Parts(p, more);
      ScanPackets(ps[1..], t);
      Assoc([Received(p)], AllReceived(ps[1..]), Scan(t).found);
    }
  }

  lemma ScanNothing()
    ensures Scan([]) == Scanned([], [])
  {
  }

  lemma ScanWait(buf: seq<byte>)
    requires Judge(buf) == Wait
    ensures Scan(buf) == Scanned([], buf) && |buf| < MAX_PACKET
  {
  }

  /** A whole packet on its own is found once, with nothing left over. */
  lemma ScanAlone(p: Framed)
    requires WellFormed(p)
    ensures Scan(p) == Scanned([Received(p)], [])
  {
    hide Judge, WellFormed;
    ScanPackets([p], []);
    ScanNothing();
    assert Concat([p]) + [] == p;
    assert AllReceived([p]) + [] == [Received(p)];
  }

  /** A packet cut short waits for the rest. */
  lemma PartWaits(p: Framed, part: seq<byte>)
    requires WellFormed(p) && part <= p && part != p
    ensures Judge(part) == Wait
  {
    hide Judge, WellFormed;
    var rest := p[|part|..];
    assert part + rest == p && p + [] == p;
    JudgeWhole(p, []);
    if Judge(part) != Wait {
      JudgeStable(part, rest);
    }
  }

  /** No 'I' is directly followed by an 'R'. */
  predicate NoMagic(s: seq<byte>) {
    forall i | 0 <= i < |s| - 1 :: s[i] == MAGIC_0 ==> s[i + 1] != MAGIC_1
  }

  lemma {:induction false} ScanNoise(noise: seq<byte>, t: seq<byte>)
    requires NoMagic(noise)
    requires |t| >= 2 && t[0] == MAGIC_0
    ensures Scan(noise + t) == Scan(t)
    decreases |noise|
  {
    if noise == [] {
      assert noise + t == t;
    } else {
      hide Judge;
      DropAppend(noise, t, 1);
      NoiseFront(noise + t);
      ScanNoise(noise[1..], t);
    }
  }

  lemma NoiseFront(s: seq<byte>)
    requires |s| >= 2 && !(s[0] == MAGIC_0 && s[1] == MAGIC_1)
    ensures Judge(s) == Noise
  {
  }

  /** Noise without the magic, then any number of whole packets: exactly those are found. */
  lemma NoiseThenPackets(noise: seq<byte>, ps: seq<Framed>)
    requires NoMagic(noise) && ps != []
    requires forall p | p in ps :: WellFormed(p)
    ensures Scan(noise + Concat(ps)) == Scanned(AllReceived(ps), [])
  {
    assert WellFormed(ps[0]);
    assert Concat(ps)[0] == ps[0][0];
    ScanNoise(noise, Concat(ps));
    ScanPackets(ps, []);
    assert Concat(ps) + [] == Concat(ps);
    assert AllReceived(ps) + [] == AllReceived(ps);
  }

  predicate Within(p: seq<byte>, s: seq<byte>) {
    exists i: nat | i <= |s| :: p <= s[i..]
  }

  /** No packet is ever assembled from pieces: each one found is a run of the stream. */
  lemma {:induction false} FoundWithin(s: seq<byte>, c: Candidate)
    requires c in Scan(s).found && c.Received?
    ensures WellFormed(c.packet) && Within(c.packet, s)
    decreases |s|
  {
    var v := Judge(s);
    if c in Handed(v) {
      WholeIsWellFormed(s);
      assert s[0..] == s;
    } else {
      var n := Taken(v);
      FoundWithin(s[n..], c);
      var i: nat :| i <= |s[n..]| && c.packet <= s[n..][i..];
      DropDrop(s, n, i);
    }
  }
}
