/**
 * The reply the work thread of the server builds for one queued request:
 * it decodes the request, answers as a stratum-2 server (version 3, mode 4,
 * poll 10), reports a reference time five seconds before the receive time,
 * echoes the client's transmit timestamp word for word as the origin
 * timestamp, and stamps the transmit time from the (offset) clock.
 * The receive time, the clock reading and the offset are parameters; the
 * queue and the socket are outside the model.
 */
module Responder {
  import opened Wrappers
  import opened FixedPoint
  import opened Struct
  import opened TimeSource
  import opened Packet

  /** The reply packs only when its three timestamps are inside NTP era 0. */
  predicate ReplyFits(recvTimestamp: real, txTimestamp: real)
  {
    TimestampFits(recvTimestamp - 5.0) && TimestampFits(recvTimestamp) && TimestampFits(txTimestamp)
  }

  /** The 48 bytes of the reply to `data`, received at `recvTimestamp` and sent at `txTimestamp`. */
  predicate IsReply(bs: seq<Byte>, data: seq<Byte>, recvTimestamp: real, txTimestamp: real)
    requires |data| >= PACKET_SIZE && ReplyFits(recvTimestamp, txTimestamp)
  {
    && |bs| == PACKET_SIZE
    && bs[0] == 0x1C                       // leap 0, version 3, mode 4 (server)
    && bs[1] == 2 && bs[2] == 10 && bs[3] == 0
    && bs[4..16] == seq(12, _ => 0)        // root delay, root dispersion, reference id
    && bs[16..24] == TimestampBytes(recvTimestamp - 5.0)
    && bs[24..32] == data[40..48]          // the request's transmit timestamp, unchanged
    && bs[32..40] == TimestampBytes(recvTimestamp)
    && bs[40..48] == TimestampBytes(txTimestamp)
  }

  /** The fields of the reply packet once the work thread has set them. */
  predicate ReplyFields(p: NTPPacket, high: int, low: int, recvTimestamp: real, txTimestamp: real)
    reads p
  {
    && p.leap == 0 && p.version == 3 && p.mode == 4
    && p.stratum == 2 && p.poll == 10 && p.precision == 0
    && p.rootDelay == 0.0 && p.rootDispersion == 0.0 && p.refId == 0
    && p.refTimestamp == recvTimestamp - 5.0
    && p.origTimestamp == 0.0 && p.origTimestampHigh == high && p.origTimestampLow == low
    && p.recvTimestamp == recvTimestamp && p.txTimestamp == txTimestamp
    && p.txTimestampHigh == 0 && p.txTimestampLow == 0
  }

  /** One pass of the work thread's loop for a request `data` that arrived at
      `recvTimestamp` (NTP time), with the system clock reading `clock` and the
      operator's offset `offsetMinutes`: the bytes sent back, or the exception
      that ends the thread instead. */
  method BuildResponse(data: seq<Byte>, recvTimestamp: real, clock: real, offsetMinutes: real)
    returns (r: Result<seq<Byte>, NTPException>)
    ensures |data| < PACKET_SIZE ==> r == Err(InvalidPacket)
    ensures |data| >= PACKET_SIZE ==>
              (r.Ok? <==> ReplyFits(recvTimestamp, SystemToNtpTime(clock, offsetMinutes)))
    ensures |data| >= PACKET_SIZE && r.Err? ==> r.error == InvalidPacketFields
    ensures r.Ok? ==> |data| >= PACKET_SIZE && ReplyFits(recvTimestamp, SystemToNtpTime(clock, offsetMinutes))
    ensures r.Ok? ==> IsReply(r.value, data, recvTimestamp, SystemToNtpTime(clock, offsetMinutes))
  {
    var request := new NTPPacket();
    var decoded := request.FromData(data);
    if decoded.Err? {
      return Err(InvalidPacket);
    }
    request.FromDataFields(data);
    var high, low := request.GetTxTimeStamp();
    var reply := NewReply(high, low, recvTimestamp, SystemToNtpTime(clock, offsetMinutes));
    ReplyLayout(reply, data, recvTimestamp, SystemToNtpTime(clock, offsetMinutes));
    r := reply.ToData();
  }

  /** The reply packet: `NTPPacket(version=3, mode=4)` with stratum, poll and the
      reference, origin, receive and transmit timestamps set. */
  method NewReply(high: int, low: int, recvTimestamp: real, txTimestamp: real) returns (reply: NTPPacket)
    ensures fresh(reply)
    ensures ReplyFields(reply, high, low, recvTimestamp, txTimestamp)
  {
    reply := new NTPPacket(3, 4);
    reply.stratum := 2;
    reply.poll := 10;
    reply.refTimestamp := recvTimestamp - 5.0;
    reply.SetOriginTimeStamp(high, low);
    reply.recvTimestamp := recvTimestamp;
    reply.txTimestamp := txTimestamp;
  }

  /** A packet holding the reply fields packs exactly when its timestamps fit, and
      then into the reply bytes. */
  lemma ReplyLayout(p: NTPPacket, data: seq<Byte>, recvTimestamp: real, txTimestamp: real)
    requires |data| >= PACKET_SIZE
    requires ReplyFields(p, WordAt(data, 40), WordAt(data, 44), recvTimestamp, txTimestamp)
    ensures p.ToData().Ok? <==> ReplyFits(recvTimestamp, txTimestamp)
    ensures p.ToData().Ok? ==> IsReply(p.ToData().value, data, recvTimestamp, txTimestamp)
  {
    if ReplyFits(recvTimestamp, txTimestamp) {
      assert p.Encodable();
      p.ToDataHeader();
      p.ToDataOrigin();
      p.ToDataTimestamps();
      var bs := p.ToData().value;
      ByteZeroOfFields(0, 3, 4);
      ShortWordZero();
      ZeroWords(bs);
      EchoedWords(data);
    }
  }

  /** Three zero words from byte 4 on are twelve zero bytes. */
  lemma ZeroWords(bs: seq<Byte>)
    requires |bs| >= 16 && WordAt(bs, 4) == 0 && WordAt(bs, 8) == 0 && WordAt(bs, 12) == 0
    ensures bs[4..16] == seq(12, _ => 0)
  {
    EncodeAfterDecode(UInt, bs[4..8]);
    EncodeAfterDecode(UInt, bs[8..12]);
    EncodeAfterDecode(UInt, bs[12..16]);
    assert bs[4..16] == bs[4..8] + bs[8..12] + bs[12..16];
  }

  /** Packing the two transmit words of a request gives back its bytes 40 to 47. */
  lemma EchoedWords(data: seq<Byte>)
    requires |data| >= PACKET_SIZE
    ensures EncodeValue(UInt, WordAt(data, 40)) + EncodeValue(UInt, WordAt(data, 44)) == data[40..48]
  {
    EncodeAfterDecode(UInt, data[40..44]);
    EncodeAfterDecode(UInt, data[44..48]);
    assert data[40..48] == data[40..44] + data[44..48];
  }

  /** From 2036-02-07 06:28:16 UTC on (with no offset) the transmit time no longer
      fits a timestamp, so no reply can be packed. */
  lemma EraZeroReplyFails(recvTimestamp: real)
    ensures !TimestampFits(SystemToNtpTime(2085978496.0, 0.0))
    ensures !ReplyFits(recvTimestamp, SystemToNtpTime(2085978496.0, 0.0))
  {
    EraZeroEnd();
  }

  /** A zero root delay or dispersion packs as the zero word. */
  lemma ShortWordZero()
    ensures ShortWord(0.0) == 0
  {
    ShortWordValue(0.0);
    ToFracScaled(0.0, SHORT_FRAC_BITS);
  }

  /** A request whose transmit timestamp is 0x12345678.9ABCDEF0, received at NTP
      time 3900000000 and answered with the clock at 1700000000 and an offset of
      60 minutes: the reply echoes the eight timestamp bytes and its transmit time
      lies one hour behind the clock. */
  method EchoExample() returns (r: Result<seq<Byte>, NTPException>)
    ensures r.Ok? && |r.value| == PACKET_SIZE
    ensures r.value[0] == 0x1C && r.value[1] == 2 && r.value[2] == 10
    ensures r.value[24..32] == [0x12, 0x34, 0x56, 0x78, 0x9A, 0xBC, 0xDE, 0xF0]
    ensures r.value[40..48] == TimestampBytes(1700000000.0 - 3600.0 + 2208988800.0)
  {
    var request := seq(40, _ => 0) + [0x12, 0x34, 0x56, 0x78, 0x9A, 0xBC, 0xDE, 0xF0];
    NtpDeltaValue();
    r := BuildResponse(request, 3900000000.0, 1700000000.0, 60.0);
    assert request[40..48] == [0x12, 0x34, 0x56, 0x78, 0x9A, 0xBC, 0xDE, 0xF0];
  }
}
