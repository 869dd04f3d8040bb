/**
  The command payloads the host sends: the fixed app-start payload of the
  handshake and the send-text payload. ParseSendText reads a send-text
  payload back and is the reference the builder is checked against.
 */
module Commands {

  import opened Bytes
  import opened Protocol
  import opened Wrappers
  import Frame

  /** The bytes of an ASCII string. */
  function Ascii(s: string): (b: seq<uint8>)
    requires forall i :: 0 <= i < |s| ==> s[i] as int < 0x80
    ensures |b| == |s| && forall i :: 0 <= i < |s| ==> b[i] == s[i] as int
  {
    seq(|s|, i requires 0 <= i < |s| => s[i] as int)
  }

  /** App-start: command, protocol version 3, six reserved zero bytes, then the application name. */
  const APP_START_PAYLOAD: seq<uint8> :=
    [CMD_APP_START, APP_VERSION_3, 0, 0, 0, 0, 0, 0, 0x63, 0x6d, 0x65, 0x73, 0x68, 0x63, 0x6f, 0x72, 0x65]

  /** The app-start payload is 17 bytes naming the application "cmeshcore", framed behind `3c 11 00`. */
  lemma AppStartLayout()
    ensures |APP_START_PAYLOAD| == 17
    ensures APP_START_PAYLOAD == [CMD_APP_START, APP_VERSION_3] + seq(6, _ => 0) + Ascii("cmeshcore")
    ensures Frame.FrameBytes(APP_START_PAYLOAD)[..3] == [0x3c, 0x11, 0x00]
  {
    assert Frame.FrameBytes(APP_START_PAYLOAD)[..3] == Frame.Header(17);
  }

  /** A send-text command as the device reads it. */
  datatype TextMessage = TextMessage(
    txtType: uint8,
    attempt: uint8,
    timestamp: uint32,
    pubKeyPrefix: seq<uint8>,
    text: seq<uint8>)

  /**
    The send-text payload for message bytes `msg` (the string without its
    terminator) to the contact with key prefix `pk`, stamped `ts`: plain
    text, attempt 0.
   */
  function SendTextPayload(ts: uint32, pk: seq<uint8>, msg: seq<uint8>): (p: seq<uint8>)
    requires |pk| == PUB_KEY_PREFIX_LEN
    ensures |p| == TXT_HEADER_LEN + |msg| && p[0] == CMD_SEND_TXT_MSG
    ensures p[TXT_HEADER_LEN..] == msg
  {
    [CMD_SEND_TXT_MSG, TXT_TYPE_PLAIN, 0] + LE32(ts) + pk + msg
  }

  /** A send-text payload read back as the device reads it; None when it is too short or not send-text. */
  function ParseSendText(p: seq<uint8>): (r: Option<TextMessage>)
    ensures r.Some? ==> |p| >= TXT_HEADER_LEN && |r.value.pubKeyPrefix| == PUB_KEY_PREFIX_LEN
    ensures r.Some? ==> |r.value.text| == |p| - TXT_HEADER_LEN
  {
    if |p| < TXT_HEADER_LEN || p[0] != CMD_SEND_TXT_MSG then None
    else Some(TextMessage(p[1], p[2], FromLE32(p[3..7]), p[7..13], p[13..]))
  }

  /**
    The byte layout of a send-text payload: 13 + |msg| bytes; command 2,
    plain text, attempt 0; bytes 3..6 read little-endian give `ts`; bytes
    7..12 are the key prefix and the message follows unchanged.
   */
  lemma SendTextLayout(ts: uint32, pk: seq<uint8>, msg: seq<uint8>)
    requires |pk| == PUB_KEY_PREFIX_LEN
    ensures var p := SendTextPayload(ts, pk, msg);
      && |p| == TXT_HEADER_LEN + |msg|
      && p[0] == CMD_SEND_TXT_MSG && p[1] == TXT_TYPE_PLAIN && p[2] == 0
      && p[3] as int + 0x100 * (p[4] as int) + 0x1_0000 * (p[5] as int) + 0x100_0000 * (p[6] as int) == ts
      && p[7..13] == pk && p[13..] == msg
  {
    var p := SendTextPayload(ts, pk, msg);
    assert p[3..7] == LE32(ts);
  }

  /** Reading back a built send-text payload recovers every field. */
  lemma SendTextRoundTrip(ts: uint32, pk: seq<uint8>, msg: seq<uint8>)
    requires |pk| == PUB_KEY_PREFIX_LEN
    ensures ParseSendText(SendTextPayload(ts, pk, msg)) == Some(TextMessage(TXT_TYPE_PLAIN, 0, ts, pk, msg))
  {
    var p := SendTextPayload(ts, pk, msg);
    assert p[3..7] == LE32(ts);
    assert p[7..13] == pk;
    assert p[13..] == msg;
  }

  /** Every plain, first-attempt send-text payload is the one SendTextPayload builds from its fields. */
  lemma ParsedSendTextIsBuilt(p: seq<uint8>)
    requires ParseSendText(p).Some?
    requires ParseSendText(p).value.txtType == TXT_TYPE_PLAIN && ParseSendText(p).value.attempt == 0
    ensures var m := ParseSendText(p).value; SendTextPayload(m.timestamp, m.pubKeyPrefix, m.text) == p
  {
    var m := ParseSendText(p).value;
    FromLE32RoundTrip(p[3..7]);
    assert p == p[..3] + p[3..7] + p[7..13] + p[13..];
  }

  /** Whether a message of `msgLen` bytes fits the send-text buffer; a message that does not is rejected, never cut. */
  function SendTextFits(msgLen: nat): (ok: bool)
    ensures ok ==> msgLen <= MAX_TXT_PAYLOAD - TXT_HEADER_LEN
  {
    TXT_HEADER_LEN + msgLen <= MAX_TXT_PAYLOAD
  }

  /** A message is accepted exactly when its whole payload fits the 4096-byte buffer. */
  lemma SendTextFitsPayload(ts: uint32, pk: seq<uint8>, msg: seq<uint8>)
    requires |pk| == PUB_KEY_PREFIX_LEN
    ensures SendTextFits(|msg|) <==> |SendTextPayload(ts, pk, msg)| <= MAX_TXT_PAYLOAD
  {
    SendTextLayout(ts, pk, msg);
  }

  /**
    The payload length as the C code computes it: strlen's value narrowed
    to 32 bits, then 13 added in 32-bit unsigned arithmetic.
   */
  function TxtPayloadLenAsWritten(msgLen: nat): (n: uint32)
    ensures msgLen < 0x1_0000_0000 - TXT_HEADER_LEN ==> n == TXT_HEADER_LEN + msgLen
  {
    var narrowed := msgLen % 0x1_0000_0000;
    (TXT_HEADER_LEN + narrowed) % 0x1_0000_0000
  }

  /** The size check as the C code writes it, on the wrapped 32-bit length. */
  function SendTextFitsAsWritten(msgLen: nat): (ok: bool)
    ensures msgLen < 0x1_0000_0000 - TXT_HEADER_LEN ==> (ok <==> SendTextFits(msgLen))
  {
    TxtPayloadLenAsWritten(msgLen) <= MAX_TXT_PAYLOAD
  }

  /**
    Beyond 2^32 - 13 bytes the written check lets messages through that
    SendTextFits rejects, for instance one whose
    length wraps to 0 (13 + msg_len overflows) and one whose strlen is cut
    to 3 (the message would go out truncated).
   */
  lemma SendTextFitsAsWrittenWraps()
    ensures SendTextFitsAsWritten(0x1_0000_0000 - 13) && !SendTextFits(0x1_0000_0000 - 13)
    ensures SendTextFitsAsWritten(0x1_0000_0003) && !SendTextFits(0x1_0000_0003)
    ensures TxtPayloadLenAsWritten(0x1_0000_0003) == 16
  {
  }

  /** memcpy: `src` copied into `dst` from index `at`; nothing else changes. */
  method CopyInto(dst: array<uint8>, at: nat, src: seq<uint8>)
    requires at + |src| <= dst.Length
    modifies dst
    ensures dst[..at] == old(dst[..at])
    ensures dst[at..at + |src|] == src
    ensures dst[at + |src|..] == old(dst[at + |src|..])
  {
    for i := 0 to |src|
      invariant forall j :: 0 <= j < at ==> dst[j] == old(dst[j])
      invariant forall j :: 0 <= j < i ==> dst[at + j] == src[j]
      invariant forall j :: at + i <= j < dst.Length ==> dst[j] == old(dst[j])
    {
      dst[at + i] := src[i];
    }
    assert dst[at..at + |src|] == src;
  }

  /**
    Fills the send-text buffer in place, byte by byte and by two copies,
    as the C code fills its 4096-byte stack buffer; returns the payload length.
   */
  method BuildSendText(buf: array<uint8>, ts: uint32, pk: seq<uint8>, msg: seq<uint8>) returns (len: nat)
    requires buf.Length == MAX_TXT_PAYLOAD && |pk| == PUB_KEY_PREFIX_LEN && SendTextFits(|msg|)
    modifies buf
    ensures len == TXT_HEADER_LEN + |msg| && buf[..len] == SendTextPayload(ts, pk, msg)
  {
    len := TXT_HEADER_LEN + |msg|;
    buf[0] := CMD_SEND_TXT_MSG;
    buf[1] := TXT_TYPE_PLAIN;
    buf[2] := 0;
    buf[3] := ts % 0x100;
    buf[4] := (ts / 0x100) % 0x100;
    buf[5] := (ts / 0x1_0000) % 0x100;
    buf[6] := (ts / 0x100_0000) % 0x100;
    assert buf[..7] == [CMD_SEND_TXT_MSG, TXT_TYPE_PLAIN, 0] + LE32(ts);
    CopyInto(buf, 7, pk);
    assert buf[..13] == [CMD_SEND_TXT_MSG, TXT_TYPE_PLAIN, 0] + LE32(ts) + pk by {
      assert buf[..13] == buf[..7] + buf[7..13];
    }
    CopyInto(buf, 13, msg);
    assert buf[..len] == buf[..13] + buf[13..len];
  }
}
