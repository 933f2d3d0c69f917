/** Which answer each candidate earns, in terms of the bytes of the request and of the response. */
module Replies {
  import opened Bytes
  import opened Codes
  import opened Codec
  import opened Packets
  import opened Scanner
  import opened Responder

  /** An intact version 1 request without flags or status. */
  predicate Intact(c: Candidate) {
    c.Received? && c.packet[2] == 1 && c.packet[4] == 0 && c.packet[5] == 0
  }

  /** The response to a candidate that is not itself a response. */
  function ResponseTo(o: Oracle, w: World, c: Candidate): (r: Framed)
    requires Head(c)[4] % 2 == 0
  {
    OneAnswer(o, w, c);
    Handle(o, w, c).replies[|w.replies|]
  }

  lemma ResponseIsReply(o: Oracle, w: World, c: Candidate)
    requires Head(c)[4] % 2 == 0
    ensures var d := Judged(o, w, c);
            && d.Answer? && ResponseTo(o, w, c) == Reply(Head(c), d.status, d.payload)
            && ResponseTo(o, w, c)[5] == d.status.Wire() && ResponseTo(o, w, c)[16..] == d.payload
            && ResponseTo(o, w, c)[3] == Head(c)[3] && ResponseTo(o, w, c)[4] == 1
  {
    hide Packet, DoRead, DoWrite, WellFormed;
    OneAnswer(o, w, c);
    ReadsAnswer(o, w, Head(c));
    var d := Judged(o, w, c);
    PacketFields(Head(c)[3], RESPONSE, d.status.Wire(), U16(Head(c), 6), d.payload);
  }

  lemma ReadsAnswer(o: Oracle, w: World, p: Framed)
    ensures DoRead(o, w, p).Answer? && DoWrite(o, w, p).Answer?
  {
  }

  /** Why a candidate is refused before its command is looked at. */
  lemma RefusalStatus(o: Oracle, w: World, c: Candidate)
    requires Head(c)[4] % 2 == 0
    ensures var r := ResponseTo(o, w, c);
            && (c.TooLong? ==> r[5] == 2 && |r| == 16)
            && (c.CrcFailed? ==> r[5] == 4 && |r| == 16)
            && (c.Received? && !Intact(c) ==> r[5] == 3 && |r| == 16)
            && (Intact(c) && c.packet[3] !in {1, 2, 3} ==> r[5] == 1 && |r| == 16)
  {
    hide Packet, DoRead, DoWrite;
    ResponseIsReply(o, w, c);
  }

  /** A PING is answered OK if it carries no payload. */
  lemma PingStatus(o: Oracle, w: World, c: Candidate)
    requires Intact(c) && c.packet[3] == 3
    ensures var r := ResponseTo(o, w, c);
            r[5] == (if |c.packet| == 16 then 0 else 2) && |r| == 16
  {
    hide Packet, DoRead, DoWrite;
    ResponseIsReply(o, w, c);
  }

  /** A READ is answered with the next captured code, or with what kept it from being captured. */
  lemma ReadStatus(o: Oracle, w: World, c: Candidate)
    requires Intact(c) && c.packet[3] == 1
    ensures var r := ResponseTo(o, w, c);
            if |c.packet| > 16 then r[5] == 2 && |r| == 16
            else match o.rx(w.captures)
              case Captured(code) =>
                if ValidCode(code) then r[5] == 0 && r[16..] == Encode(code) else r[5] == 8 && |r| == 16
              case RxFailed(err) =>
                && |r| == 16
                && r[5] == if err == ESP_ERR_TIMEOUT then 5 else if err == ESP_ERR_NOT_FINISHED then 6 else 8
  {
    hide Packet, DoWrite, Encode, ValidCode;
    ResponseIsReply(o, w, c);
  }

  /** A WRITE is answered with the outcome of its transmission, or with what is wrong with its payload. */
  lemma WriteStatus(o: Oracle, w: World, c: Candidate)
    requires Intact(c) && c.packet[3] == 2
    ensures var r, payload := ResponseTo(o, w, c), c.packet[16..];
            && |r| == 16
            && ((exists code :: ValidCode(code) && payload == Encode(code)) ==>
                  var err := o.tx(|w.sent|);
                  r[5] == if err == ESP_OK then 0 else if err == ESP_ERR_TIMEOUT then 6 else 7)
            && (!(exists code :: ValidCode(code) && payload == Encode(code)) ==>
                  r[5] == if |payload| < 12 || |payload| > 1036
                             || (1 <= U16(payload, 0) <= 256 && |payload| != 12 + 4 * U16(payload, 0)) then 2 else 3)
  {
    hide Packet, DoRead, Decode, Encode, ValidCode;
    ResponseIsReply(o, w, c);
    DecodedIffEncoding(c.packet[16..]);
    DecodeSpelledOut(c.packet[16..]);
  }

  /** Exactly these requests are answered OK. */
  lemma OkStatus(o: Oracle, w: World, c: Candidate)
    requires Head(c)[4] % 2 == 0
    ensures ResponseTo(o, w, c)[5] == 0 <==>
            && Intact(c)
            && var p := c.packet;
               || (p[3] == 3 && |p| == 16)
               || (p[3] == 1 && |p| == 16 && o.rx(w.captures).Captured? && ValidCode(o.rx(w.captures).code))
               || (p[3] == 2 && o.tx(|w.sent|) == ESP_OK
                   && exists code :: ValidCode(code) && p[16..] == Encode(code))
  {
    hide ResponseTo, ValidCode, Encode, DoRead;
    RefusalStatus(o, w, c);
    if Intact(c) {
      if c.packet[3] == 1 {
        ReadStatus(o, w, c);
      } else if c.packet[3] == 2 {
        WriteStatus(o, w, c);
      } else if c.packet[3] == 3 {
        PingStatus(o, w, c);
      }
    }
  }
}
