/**
  The handshake's acceptance test for the device's answer: after a poll
  that reports data, one read(2) into a 4096-byte buffer, which must hold
  at least 4 received bytes, the inbound marker at byte 0 and the
  self-info response code at byte 3 (the first payload byte of an
  inbound frame; the length field is not checked).
 */
module Handshake {

  import opened Bytes
  import opened Protocol
  import Frame
  import Transport

  /**
    The answer of read(2): its return value (-1, or the number of bytes
    received) and the buffer afterwards, the received bytes first and then
    whatever the buffer held before.
   */
  datatype ReadAnswer = ReadAnswer(rv: int, buf: seq<uint8>)

  predicate ValidRead(a: ReadAnswer) {
    -1 <= a.rv <= READ_BUF_LEN && |a.buf| == READ_BUF_LEN
  }

  /** The bytes the device actually sent: none when read(2) failed. */
  function Received(a: ReadAnswer): (b: seq<uint8>)
    requires ValidRead(a)
    ensures |b| == if a.rv < 0 then 0 else a.rv
  {
    if a.rv < 0 then [] else a.buf[..a.rv]
  }

  /** Whether received bytes start with a self-info response as the handshake parses it. */
  predicate IsSelfInfoResponse(b: seq<uint8>): (r: bool)
    ensures r && Frame.DecodeFrame(b).Some? ==>
      var f := Frame.DecodeFrame(b).value;
      f.marker == FRAME_IN && (|f.payload| >= 1 ==> f.payload[0] == RESP_SELF_INFO)
  {
    |b| >= 4 && b[0] == FRAME_IN && b[3] == RESP_SELF_INFO
  }

  /** Every complete inbound frame whose payload starts with the self-info code passes the test. */
  lemma SelfInfoFrameAccepted(b: seq<uint8>)
    requires Frame.DecodeFrame(b).Some?
    requires Frame.DecodeFrame(b).value.marker == FRAME_IN
    requires |Frame.DecodeFrame(b).value.payload| >= 1 && Frame.DecodeFrame(b).value.payload[0] == RESP_SELF_INFO
    ensures IsSelfInfoResponse(b)
  {
  }

  /**
    The test reads only the first four bytes, never the length field: the
    first four bytes of a self-info frame whose rest has not arrived pass,
    and so does an empty inbound frame followed by a stray 5; fewer than
    four bytes, or other traffic first, fail.
   */
  lemma HeaderBytesDecide(b: seq<uint8>)
    ensures |b| < 4 || b[0] != FRAME_IN ==> !IsSelfInfoResponse(b)
    ensures IsSelfInfoResponse([0x3e, 10, 0, 5]) && Frame.DecodeFrame([0x3e, 10, 0, 5]).None?
    ensures IsSelfInfoResponse([0x3e, 0, 0, 5]) && Frame.DecodeFrame([0x3e, 0, 0, 5]).Some? && Frame.DecodeFrame([0x3e, 0, 0, 5]).value == Frame.Frame(0x3e, [])
  {
    assert [0x3e, 10, 0, 5][1..3] == [10, 0];
    assert [0x3e, 0, 0, 5][1..3] == [0, 0];
  }

  /**
    cmeshcore_wait_for_self_info as written: read(2)'s result is stored in
    an unsigned 32-bit variable, so -1 becomes 0xFFFFFFFF and passes the
    "fewer than 4 bytes" test.
   */
  function WaitForSelfInfoAsWritten(poll: Transport.PollAnswer, a: ReadAnswer): (r: int)
    requires poll.rv >= -1 && ValidRead(a)
    ensures r == 0 || r == -1
    ensures r == 0 ==> Transport.Poll(poll) == 1 && a.buf[0] == FRAME_IN && a.buf[3] == RESP_SELF_INFO
  {
    if Transport.Poll(poll) <= 0 then -1
    else
      var n: uint32 := a.rv % 0x1_0000_0000;
      if n < 4 then -1
      else if a.buf[0] != FRAME_IN then -1
      else if a.buf[3] != RESP_SELF_INFO then -1
      else 0
  }

  /**
    As written, a failed read is taken for a self-info response whenever
    the buffer's stale bytes look like one: the outcome depends on bytes
    the device never sent.
   */
  lemma ReadErrorPassesAsWritten(poll: Transport.PollAnswer, stale: seq<uint8>)
    requires poll.rv >= -1 && Transport.Poll(poll) == 1
    requires |stale| == READ_BUF_LEN && stale[0] == FRAME_IN && stale[3] == RESP_SELF_INFO
    ensures Received(ReadAnswer(-1, stale)) == []
    ensures WaitForSelfInfoAsWritten(poll, ReadAnswer(-1, stale)) == 0
    ensures WaitForSelfInfoAsWritten(poll, ReadAnswer(-1, seq(READ_BUF_LEN, _ => 0))) == -1
  {
  }

  /**
    cmeshcore_wait_for_self_info with read(2)'s result kept signed: 0
    exactly when the poll reported data and the bytes received form a
    self-info response, -1 otherwise.
   */
  function WaitForSelfInfo(poll: Transport.PollAnswer, a: ReadAnswer): (r: int)
    requires poll.rv >= -1 && ValidRead(a)
    ensures r == 0 || r == -1
    ensures r == 0 <==> Transport.Poll(poll) == 1 && IsSelfInfoResponse(Received(a))
  {
    if Transport.Poll(poll) <= 0 then -1
    else if a.rv < 4 then -1
    else if a.buf[0] != FRAME_IN then -1
    else if a.buf[3] != RESP_SELF_INFO then -1
    else 0
  }

  /** Only the bytes the device sent decide the handshake: the rest of the buffer never matters. */
  lemma OnlyReceivedBytesMatter(poll: Transport.PollAnswer, a: ReadAnswer, b: ReadAnswer)
    requires poll.rv >= -1 && ValidRead(a) && ValidRead(b)
    requires a.rv == b.rv && Received(a) == Received(b)
    ensures WaitForSelfInfo(poll, a) == WaitForSelfInfo(poll, b)
  {
  }

  /** Where the read succeeded the corrected test agrees with the one written. */
  lemma WaitForSelfInfoAgrees(poll: Transport.PollAnswer, a: ReadAnswer)
    requires poll.rv >= -1 && ValidRead(a) && a.rv >= 0
    ensures WaitForSelfInfo(poll, a) == WaitForSelfInfoAsWritten(poll, a)
  {
  }
}
