/** Damaged packets: what the checksum promises to the parser. */
module Damage {
  import opened Bytes
  import opened CrcBurst
  import opened Packets
  import opened Scanner

  /**
   A packet whose magic, length and checksum fields arrive intact, and whose other bytes are
   hit by one burst of at most 32 bits, is rejected and never processed.
   */
  lemma DamageRejected(p: Framed, q: Framed, lo: nat, rest: seq<byte>)
    requires WellFormed(p) && |q| == |p| && q != p
    requires q[..2] == p[..2] && q[8..16] == p[8..16]
    requires BurstApart(Covered(p), Covered(q), lo)
    ensures Judge(q + rest) == Rejected(CrcFailed(q[..HEADER_SIZE]))
  {
    hide BurstApart, Judge;
    FieldsKept(p, q);
    if Covered(p) == Covered(q) {
      CoveredDetermines(p, q);
    }
    BurstDetected(Covered(p), Covered(q), lo);
    BadChecksum(q, rest);
  }

  lemma FieldsKept(p: Framed, q: Framed)
    requires |q| == |p| && q[..2] == p[..2] && q[8..16] == p[8..16]
    ensures q[0] == p[0] && q[1] == p[1] && U32(q, 8) == U32(p, 8) && U32(q, 12) == U32(p, 12)
    ensures q[12..16] == p[12..16]
  {
    assert q[0] == q[..2][0] == p[..2][0] == p[0] && q[1] == q[..2][1] == p[..2][1] == p[1];
    assert q[8..12] == q[8..16][..4] == p[8..16][..4] == p[8..12];
    assert q[12..16] == q[8..16][4..] == p[8..16][4..] == p[12..16];
    U32Local(q, 8, p, 8);
    U32Local(q, 12, p, 12);
  }

  lemma BadChecksum(q: Framed, rest: seq<byte>)
    requires |q| <= MAX_PACKET && q[0] == MAGIC_0 && q[1] == MAGIC_1 && U32(q, 8) == |q| - HEADER_SIZE
    requires U32(q, 12) != Crc.Crc32(Covered(q))
    ensures Judge(q + rest) == Rejected(CrcFailed(q[..HEADER_SIZE]))
  {
    hide Crc.Crc32;
    assert q[HEADER_SIZE..|q|] == q[HEADER_SIZE..];
    JudgeStable(q, rest);
  }

  lemma CoveredDetermines(p: Framed, q: Framed)
    requires |q| == |p| && p[12..16] == q[12..16] && Covered(p) == Covered(q)
    ensures p == q
  {
    Split(p[..12], p[HEADER_SIZE..], q[..12], q[HEADER_SIZE..]);
    assert p == p[..12] + p[12..16] + p[HEADER_SIZE..];
    assert q == q[..12] + q[12..16] + q[HEADER_SIZE..];
  }

  /** In particular damage to any four consecutive covered bytes. */
  lemma FourBytesRejected(p: Framed, q: Framed, at: nat, rest: seq<byte>)
    requires WellFormed(p) && |q| == |p| && q != p
    requires q[..2] == p[..2] && q[8..16] == p[8..16]
    requires at + 4 <= |Covered(p)|
    requires Covered(p)[..at] == Covered(q)[..at] && Covered(p)[at + 4..] == Covered(q)[at + 4..]
    ensures Judge(q + rest) == Rejected(CrcFailed(q[..HEADER_SIZE]))
  {
    hide BurstApart, Judge, WellFormed;
    BytesApart(Covered(p), Covered(q), at);
    DamageRejected(p, q, 8 * at, rest);
  }
}
