/**
  The frame codec: an outbound payload travels behind a 3-byte header
  holding the outbound marker and the payload length as a little-endian
  16-bit number. DecodeFrame is the reader's view of the same layout and
  serves as the reference the encoder is checked against.
 */
module Frame {

  import opened Bytes
  import opened Protocol
  import opened Wrappers

  /** A frame as a reader sees it: its marker and the payload its length field covers. */
  datatype Frame = Frame(marker: uint8, payload: seq<uint8>)

  /** The header written before a payload of `len` bytes. */
  function Header(len: uint16): (h: seq<uint8>)
    ensures |h| == 3 && h[0] == FRAME_OUT
    ensures h[1] == len % 0x100 && h[1] as int + 0x100 * (h[2] as int) == len
  {
    [FRAME_OUT] + LE16(len)
  }

  /** The bytes a frame write puts on the wire: header, then payload. */
  function FrameBytes(payload: seq<uint8>): (b: seq<uint8>)
    requires |payload| <= MAX_FRAME_PAYLOAD
    ensures |b| == 3 + |payload|
  {
    Header(|payload|) + payload
  }

  /**
    The first frame at the start of `bytes`, or None when the bytes are too
    short for a header or for the payload the header announces. Bytes after
    the frame are not looked at.
   */
  function DecodeFrame(bytes: seq<uint8>): (r: Option<Frame>)
    ensures r.Some? ==> 3 + |r.value.payload| <= |bytes| && r.value.marker == bytes[0]
  {
    if |bytes| < 3 then None
    else
      var len := FromLE16(bytes[1..3]);
      if |bytes| < 3 + len then None else Some(Frame(bytes[0], bytes[3..3 + len]))
  }

  /** Decoding an encoded frame gives back the outbound marker and the payload. */
  lemma FrameRoundTrip(payload: seq<uint8>)
    requires |payload| <= MAX_FRAME_PAYLOAD
    ensures DecodeFrame(FrameBytes(payload)) == Some(Frame(FRAME_OUT, payload))
  {
    var b := FrameBytes(payload);
    assert b[1..3] == LE16(|payload|);
    assert b[3..3 + |payload|] == payload;
  }

  /** Conversely, every outbound frame a reader accepts is exactly what FrameBytes writes for its payload. */
  lemma DecodedFrameIsEncoded(bytes: seq<uint8>)
    requires DecodeFrame(bytes).Some? && DecodeFrame(bytes).value.marker == FRAME_OUT
    ensures var p := DecodeFrame(bytes).value.payload;
      |p| <= MAX_FRAME_PAYLOAD && FrameBytes(p) == bytes[..3 + |p|]
  {
    var p := DecodeFrame(bytes).value.payload;
    FromLE16RoundTrip(bytes[1..3]);
    assert Header(|p|) == bytes[..3];
  }
}
