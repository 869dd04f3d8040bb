/**
  The device handle and its life cycle: creating a handle opens and
  configures the serial port, sends app-start and waits for self-info,
  releasing the descriptor on every failure; destroying it closes the
  descriptor once and leaves the closed sentinel -1 behind; sending a
  text message builds the send-text payload and writes it as one frame.
 */
module Session {

  import opened Bytes
  import opened Protocol
  import opened Wrappers
  import Frame
  import Commands
  import Transport
  import Handshake

  /** The device handle: the descriptor it owns, or -1 once closed. */
  class Mesh {
    var fd: int

    constructor (fd: int)
      ensures this.fd == fd
    {
      this.fd := fd;
    }
  }

  /**
    What the operating system answers during handle creation: malloc,
    open(2), tcgetattr and tcsetattr, tcdrain after the app-start frame,
    and poll(2) and read(2) while waiting for self-info.
   */
  datatype SetupAnswers = SetupAnswers(
    alloc: bool,
    open: int,
    getAttr: bool,
    setAttr: bool,
    drain: bool,
    poll: Transport.PollAnswer,
    read: Handshake.ReadAnswer)

  predicate ValidAnswers(os: SetupAnswers) {
    os.open >= -1 && os.poll.rv >= -1 && Handshake.ValidRead(os.read)
  }

  /** Whether creation gets as far as sending app-start: a port name, memory, an open and configured port. */
  predicate PortConfigured(port: Option<string>, os: SetupAnswers): (r: bool)
    requires ValidAnswers(os)
    ensures r ==> port.Some? && os.open >= 0
  {
    port.Some? && os.alloc && os.open != -1 && os.getAttr && os.setAttr
  }

  /** cmeshcore_write_app_start: the app-start payload as one frame. */
  method WriteAppStart(dev: Transport.Device, drainOk: bool) returns (rv: int)
    modifies dev
    ensures var e := Transport.FrameSpec(17, old(dev.writeResults), drainOk);
      && rv == e.rv
      && dev.wire == old(dev.wire) + Frame.FrameBytes(Commands.APP_START_PAYLOAD)[..e.written]
      && dev.writeResults == e.rest
    ensures dev.isOpen == old(dev.isOpen) && dev.fd == old(dev.fd)
  {
    rv := Transport.WriteFrame(dev, Commands.APP_START_PAYLOAD, drainOk);
  }

  /**
    cmeshcore_new: a handle exactly when every step succeeds; on failure
    no descriptor stays open. Configuration (tcgetattr, the raw-mode flags
    and 115200 baud, tcsetattr) is one step that may fail.
   */
  method New(dev: Transport.Device, port: Option<string>, os: SetupAnswers) returns (mesh: Mesh?)
    requires !dev.isOpen && ValidAnswers(os)
    modifies dev
    ensures var frame := Transport.FrameSpec(17, old(dev.writeResults), os.drain);
      mesh != null <==>
        PortConfigured(port, os) && frame.rv == 0 && Handshake.WaitForSelfInfo(os.poll, os.read) == 0
    ensures mesh == null ==> !dev.isOpen
    ensures mesh != null ==> fresh(mesh) && dev.isOpen && mesh.fd == dev.fd == os.open && mesh.fd >= 0
    ensures var frame := Transport.FrameSpec(17, old(dev.writeResults), os.drain);
      if PortConfigured(port, os) then
        dev.wire == old(dev.wire) + Frame.FrameBytes(Commands.APP_START_PAYLOAD)[..frame.written]
        && dev.writeResults == frame.rest
      else
        dev.wire == old(dev.wire) && dev.writeResults == old(dev.writeResults)
  {
    if port.None? {
      return null;
    }
    if !os.alloc {
      return null;
    }
    var fd := dev.Open(os.open);
    if fd == -1 {
      return null;
    }
    if !os.getAttr {
      dev.Close(fd);
      return null;
    }
    if !os.setAttr {
      dev.Close(fd);
      return null;
    }
    mesh := new Mesh(fd);
    var rv := WriteAppStart(dev, os.drain);
    if rv == -1 {
      dev.Close(fd);
      return null;
    }
    rv := Handshake.WaitForSelfInfo(os.poll, os.read);
    if rv == -1 {
      dev.Close(fd);
      return null;
    }
  }

  /**
    cmeshcore_free: nothing for no handle; otherwise closes the descriptor
    unless it is already the sentinel -1, and leaves -1 behind.
   */
  method Free(dev: Transport.Device, mesh: Mesh?)
    modifies dev, mesh
    ensures mesh != null ==> mesh.fd == -1
    ensures mesh == null || old(mesh.fd) == -1 ==> unchanged(dev)
    ensures mesh != null && old(mesh.fd) != -1 ==>
      dev.isOpen == (old(dev.isOpen) && old(mesh.fd) != old(dev.fd))
    ensures dev.fd == old(dev.fd) && dev.wire == old(dev.wire) && dev.writeResults == old(dev.writeResults)
  {
    if mesh == null {
      return;
    }
    if mesh.fd != -1 {
      dev.Close(mesh.fd);
      mesh.fd := -1;
    }
  }

  /** Destroying a live handle twice: the first call closes its descriptor, the second changes nothing. */
  method FreeTwice(dev: Transport.Device, mesh: Mesh)
    requires dev.isOpen && mesh.fd == dev.fd && mesh.fd != -1
    modifies dev, mesh
    ensures !dev.isOpen && mesh.fd == -1
    ensures dev.wire == old(dev.wire) && dev.writeResults == old(dev.writeResults)
  {
    Free(dev, mesh);
    label closed:
    Free(dev, mesh);
    assert unchanged@closed(dev);
  }

  /**
    cmeshcore_send_msg_txt for the message bytes `msg` (None for a NULL
    pointer) at time `ts`: rejected with -1 before anything is written
    when there is no message or the payload would not fit in 4096 bytes;
    otherwise the send-text payload goes out as one frame.
   */
  method SendMsgTxt(
    dev: Transport.Device, mesh: Mesh, pk: seq<uint8>, msg: Option<seq<uint8>>, ts: uint32, drainOk: bool)
    returns (rv: int)
    requires |pk| == PUB_KEY_PREFIX_LEN && mesh.fd >= 0
    requires dev.isOpen && dev.fd == mesh.fd
    modifies dev
    ensures msg.None? || !Commands.SendTextFits(|msg.value|) ==>
      rv == -1 && dev.wire == old(dev.wire) && dev.writeResults == old(dev.writeResults)
    ensures msg.Some? && Commands.SendTextFits(|msg.value|) ==>
      var p := Commands.SendTextPayload(ts, pk, msg.value);
      var e := Transport.FrameSpec(|p|, old(dev.writeResults), drainOk);
      rv == e.rv && dev.wire == old(dev.wire) + Frame.FrameBytes(p)[..e.written] && dev.writeResults == e.rest
    ensures dev.isOpen == old(dev.isOpen) && dev.fd == old(dev.fd)
  {
    if msg.None? {
      return -1;
    }
    if !Commands.SendTextFits(|msg.value|) {
      return -1;
    }
    var payload := new uint8[MAX_TXT_PAYLOAD];
    var len := Commands.BuildSendText(payload, ts, pk, msg.value);
    rv := Transport.WriteFrame(dev, payload[..len], drainOk);
  }

  /**
    The worked example: "Hi!" to key prefix 40 2b fe 9d 13 2e at time
    1700000000 (0x6553F100) is a 16-byte payload framed behind 3c 10 00.
   */
  lemma SendTextExample()
    ensures var p := Commands.SendTextPayload(1700000000, [0x40, 0x2b, 0xfe, 0x9d, 0x13, 0x2e], Commands.Ascii("Hi!"));
      && p == [2, 0, 0, 0x00, 0xF1, 0x53, 0x65, 0x40, 0x2b, 0xfe, 0x9d, 0x13, 0x2e, 0x48, 0x69, 0x21]
      && Frame.FrameBytes(p)[..3] == [0x3c, 0x10, 0x00]
  {
    var p := Commands.SendTextPayload(1700000000, [0x40, 0x2b, 0xfe, 0x9d, 0x13, 0x2e], Commands.Ascii("Hi!"));
    assert p == [2, 0, 0, 0x00, 0xF1, 0x53, 0x65, 0x40, 0x2b, 0xfe, 0x9d, 0x13, 0x2e, 0x48, 0x69, 0x21] by {
      var ts := LE32(1700000000);
      assert ts[0] == 0x00 && ts[1] == 0xF1 && ts[2] == 0x53 && ts[3] == 0x65;
      assert ts == [0x00, 0xF1, 0x53, 0x65];
      assert Commands.Ascii("Hi!") == [0x48, 0x69, 0x21];
    }
    assert Frame.FrameBytes(p)[..3] == Frame.Header(16);
  }
}
