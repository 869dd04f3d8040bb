/**
  The serial transport. The operating system's side of the descriptor is
  a Device: the bytes write(2) has accepted so far (the wire) and the
  answers its next write(2) calls will give (a finite script). On top of
  it the write-all retry loop and the frame write, each proved against a
  function of the script it starts from, and the classification of a
  poll(2) answer.
 */
module Transport {

  import opened Bytes
  import opened Protocol
  import Frame

  /** The errno values the core tells apart. */
  datatype Errno = WouldBlock | Interrupted | OtherError

  /** EAGAIN and EINTR: the write is simply tried again. */
  predicate IsRetryable(e: Errno) {
    e == WouldBlock || e == Interrupted
  }

  /** One answer of write(2): it accepted up to `count` bytes, or it failed with an errno. */
  datatype WriteResult = Wrote(count: nat) | WriteFailed(errno: Errno)

  /** What write(2) returns for answer `r` when asked to write `len` bytes: never more than asked. */
  function Returned(r: WriteResult, len: nat): (rv: int)
    ensures -1 <= rv <= len
    ensures rv == -1 <==> r.WriteFailed?
  {
    match r
    case Wrote(k) => if k < len then k else len
    case WriteFailed(_) => -1
  }

  /** The answer the next write(2) gives; once the script is used up every write fails. */
  function NextResult(script: seq<WriteResult>): (r: WriteResult)
    ensures script != [] ==> r == script[0]
    ensures script == [] ==> r.WriteFailed? && !IsRetryable(r.errno)
  {
    if script == [] then WriteFailed(OtherError) else script[0]
  }

  class Device {
    var isOpen: bool
    var fd: int
    var wire: seq<uint8>
    var writeResults: seq<WriteResult>

    /** A device no descriptor is open on, whose write(2) calls will give `script`. */
    constructor (script: seq<WriteResult>)
      ensures !isOpen && fd == -1 && wire == [] && writeResults == script
    {
      isOpen, fd, wire, writeResults := false, -1, [], script;
    }

    /** open(2), given its answer: a descriptor, or -1. */
    method Open(answer: int) returns (d: int)
      requires answer >= -1
      modifies this
      ensures d == answer
      ensures answer != -1 ==> isOpen && fd == answer
      ensures answer == -1 ==> isOpen == old(isOpen) && fd == old(fd)
      ensures wire == old(wire) && writeResults == old(writeResults)
    {
      d := answer;
      if answer != -1 {
        isOpen, fd := true, answer;
      }
    }

    /** close(2): releases the descriptor when `d` is the one open; any other `d` changes nothing. */
    method Close(d: int)
      modifies this
      ensures isOpen == (old(isOpen) && d != old(fd))
      ensures fd == old(fd) && wire == old(wire) && writeResults == old(writeResults)
    {
      if isOpen && d == fd {
        isOpen := false;
      }
    }

    /**
      write(2) of `data`: consumes the next scripted answer; what it accepted
      is appended to the wire.
     */
    method Write(data: seq<uint8>) returns (rv: int, errno: Errno)
      modifies this
      ensures rv == Returned(NextResult(old(writeResults)), |data|)
      ensures rv == -1 ==> errno == NextResult(old(writeResults)).errno
      ensures writeResults == if old(writeResults) == [] then [] else old(writeResults)[1..]
      ensures wire == old(wire) + (if rv == -1 then [] else data[..rv])
      ensures isOpen == old(isOpen) && fd == old(fd)
    {
      var r := NextResult(writeResults);
      rv := Returned(r, |data|);
      errno := if r.WriteFailed? then r.errno else OtherError;
      if writeResults != [] {
        writeResults := writeResults[1..];
      }
      if rv != -1 {
        wire := wire + data[..rv];
      }
    }
  }

  /** Where the write-all loop stops: bytes written, and the writes not yet answered. */
  datatype LoopEnd = LoopEnd(written: nat, rest: seq<WriteResult>)

  /**
    The write-all loop run on `script` for `n` bytes, `written` of them
    already accepted: a retryable error tries again, another error or a
    zero-byte write stops, otherwise the accepted count is added.
   */
  function WriteLoop(n: nat, written: nat, script: seq<WriteResult>): (e: LoopEnd)
    requires written <= n
    ensures written <= e.written <= n
    ensures |e.rest| <= |script|
    ensures written < n ==> |e.rest| < |script| || script == []
    decreases |script|
  {
    if written == n then LoopEnd(written, script)
    else if script == [] then LoopEnd(written, [])
    else
      var rv := Returned(script[0], n - written);
      if rv == -1 then
        if IsRetryable(script[0].errno) then WriteLoop(n, written, script[1..]) else LoopEnd(written, script[1..])
      else if rv == 0 then LoopEnd(written, script[1..])
      else WriteLoop(n, written + rv, script[1..])
  }

  /** The outcome of a write or frame write: return value, bytes put on the wire, writes not yet answered. */
  datatype WriteEnd = WriteEnd(rv: int, written: nat, rest: seq<WriteResult>)

  /** The outcome of writing `n` bytes against `script`: 0 exactly when all n were accepted. */
  function WriteAllSpec(n: nat, script: seq<WriteResult>): (e: WriteEnd)
    ensures e.rv == 0 || e.rv == -1
    ensures e.written <= n && (e.rv == 0 <==> e.written == n)
    ensures |e.rest| <= |script|
    ensures n == 0 ==> e.rest == script
  {
    if n == 0 then WriteEnd(0, 0, script)
    else
      var l := WriteLoop(n, 0, script);
      WriteEnd(if l.written == n then 0 else -1, l.written, l.rest)
  }

  /**
    A would-block or interrupted answer anywhere in the script does not
    change how many bytes the loop writes.
   */
  lemma {:induction false} RetryIsTransparent(
    n: nat, written: nat, before: seq<WriteResult>, e: Errno, after: seq<WriteResult>)
    requires written <= n && IsRetryable(e)
    ensures WriteLoop(n, written, before + [WriteFailed(e)] + after).written
         == WriteLoop(n, written, before + after).written
    decreases |before|
  {
    var s := before + [WriteFailed(e)] + after;
    if written == n {
    } else if before == [] {
      assert s[0] == WriteFailed(e) && s[1..] == after;
      assert before + after == after;
    } else {
      var rv := Returned(before[0], n - written);
      assert s[0] == before[0] && (before + after)[0] == before[0];
      assert s[1..] == before[1..] + [WriteFailed(e)] + after;
      assert (before + after)[1..] == before[1..] + after;
      if rv == -1 {
        if IsRetryable(before[0].errno) {
          RetryIsTransparent(n, written, before[1..], e, after);
        }
      } else if rv != 0 {
        RetryIsTransparent(n, written + rv, before[1..], e, after);
      }
    }
  }

  /** An answer that ends the loop while bytes remain: a non-retryable error, or a write that accepted nothing. */
  predicate Stops(r: WriteResult) {
    (r.WriteFailed? && !IsRetryable(r.errno)) || r == Wrote(0)
  }

  /** The byte counts the answers in `s` offer, summed without clamping. */
  function AcceptedSum(s: seq<WriteResult>): nat {
    if s == [] then 0 else (if s[0].Wrote? then s[0].count else 0) + AcceptedSum(s[1..])
  }

  /** The smaller of two numbers. */
  function Min(a: int, b: int): int {
    if a <= b then a else b
  }

  /** The sum over an answer followed by more answers. */
  lemma AcceptedSumCons(r: WriteResult, t: seq<WriteResult>)
    ensures AcceptedSum([r] + t) == (if r.Wrote? then r.count else 0) + AcceptedSum(t)
  {
    assert ([r] + t)[1..] == t;
  }

  /** The write-all loop consumes a prefix of the script: what is left is a suffix. */
  lemma {:induction false} WriteLoopRest(n: nat, written: nat, script: seq<WriteResult>)
    requires written <= n
    ensures var e := WriteLoop(n, written, script); e.rest == script[|script| - |e.rest|..]
    decreases |script|
  {
    if written < n && script != [] {
      var rv := Returned(script[0], n - written);
      if rv == -1 && IsRetryable(script[0].errno) {
        WriteLoopRest(n, written, script[1..]);
      } else if rv > 0 {
        WriteLoopRest(n, written + rv, script[1..]);
      }
    }
  }

  /** A write of n bytes leaves a suffix of the script unanswered. */
  lemma WriteAllRestIsSuffix(n: nat, script: seq<WriteResult>)
    ensures var e := WriteAllSpec(n, script); e.rest == script[|script| - |e.rest|..]
  {
    if n > 0 {
      WriteLoopRest(n, 0, script);
    }
  }

  /**
    What the write-all loop amounts to: it has written the counts offered
    by the answers it consumed, capped at n.
   */
  lemma {:induction false} WrittenIsAcceptedSum(n: nat, written: nat, script: seq<WriteResult>)
    requires written <= n
    ensures var e := WriteLoop(n, written, script);
      e.written == Min(n, written + AcceptedSum(script[..|script| - |e.rest|]))
    decreases |script|
  {
    var e := WriteLoop(n, written, script);
    var c := |script| - |e.rest|;
    if written == n || script == [] {
      assert script[..c] == [];
    } else {
      var r := script[0];
      var rv := Returned(r, n - written);
      var tail := script[1..];
      if rv == -1 && IsRetryable(r.errno) {
        WrittenIsAcceptedSum(n, written, tail);
        assert script[..c] == [r] + tail[..c - 1];
        AcceptedSumCons(r, tail[..c - 1]);
      } else if rv > 0 && written + r.count <= n {
        WrittenIsAcceptedSum(n, written + rv, tail);
        assert script[..c] == [r] + tail[..c - 1];
        AcceptedSumCons(r, tail[..c - 1]);
      } else {
        assert script[..1] == [r] + [];
        AcceptedSumCons(r, []);
      }
    }
  }

  /**
    Among the answers the write-all loop consumes, only the last can be a
    stopping one; when it ends short of n with answers left, the last one
    it consumed was a stopping answer.
   */
  lemma {:induction false} OnlyLastAnswerStops(n: nat, written: nat, script: seq<WriteResult>)
    requires written <= n
    ensures var e := WriteLoop(n, written, script);
      var c := |script| - |e.rest|;
      && (forall i | 0 <= i < c - 1 :: !Stops(script[i]))
      && (e.written < n && e.rest != [] ==> c >= 1 && Stops(script[c - 1]))
    decreases |script|
  {
    if written < n && script != [] {
      var r := script[0];
      var rv := Returned(r, n - written);
      if (rv == -1 && IsRetryable(r.errno)) || rv > 0 {
        OnlyLastAnswerStops(n, if rv > 0 then written + rv else written, script[1..]);
        assert forall i | 1 <= i < |script| :: script[i] == script[1..][i - 1];
      }
    }
  }

  /**
    The stop rules: with bytes still to write, a non-retryable error or a
    zero-byte write ends the loop at once, with nothing more accepted and
    nothing more consumed; the loop ends short of n, so the write fails.
   */
  lemma StopRules(n: nat, written: nat, script: seq<WriteResult>)
    requires written < n && script != []
    requires Stops(script[0])
    ensures WriteLoop(n, written, script) == LoopEnd(written, script[1..])
    ensures written == 0 ==> WriteAllSpec(n, script) == WriteEnd(-1, 0, script[1..])
  {
  }

  /**
    cmeshcore_write: writes all of `data`, retrying on EAGAIN and EINTR;
    returns 0 when every byte was accepted and -1 otherwise. The wire gains
    exactly the first `written` bytes of `data`, in order.
   */
  method WriteAll(dev: Device, data: seq<uint8>) returns (rv: int)
    requires |data| < 0x1_0000_0000
    modifies dev
    ensures var e := WriteAllSpec(|data|, old(dev.writeResults));
      && rv == e.rv
      && dev.wire == old(dev.wire) + data[..e.written]
      && dev.writeResults == e.rest
    ensures dev.isOpen == old(dev.isOpen) && dev.fd == old(dev.fd)
  {
    var n := |data|;
    if n == 0 {
      return 0;
    }
    ghost var expected := WriteLoop(n, 0, dev.writeResults);
    var written := 0;
    while written < n
      invariant 0 <= written <= n
      invariant WriteLoop(n, written, dev.writeResults) == expected
      invariant dev.wire == old(dev.wire) + data[..written]
      invariant dev.isOpen == old(dev.isOpen) && dev.fd == old(dev.fd)
      decreases |dev.writeResults|
    {
      ghost var script := dev.writeResults;
      var chunk := data[written..];
      assert |chunk| == n - written;
      var r, errno := dev.Write(chunk);
      assert r == Returned(NextResult(script), n - written);
      if r == -1 {
        if errno == WouldBlock || errno == Interrupted {
          continue;
        } else {
          assert expected == LoopEnd(written, dev.writeResults);
          break;
        }
      } else if r == 0 {
        assert expected == LoopEnd(written, dev.writeResults);
        break;
      } else {
        assert data[..written + r] == data[..written] + chunk[..r];
        written := written + r;
      }
    }
    rv := if written == n then 0 else -1;
  }

  /**
    The outcome of a frame write of a `len`-byte payload: the header
    write, then the payload write, then the drain, stopping at the first
    failure. `written` counts bytes of header and payload together.
   */
  function FrameSpec(len: nat, script: seq<WriteResult>, drainOk: bool): (e: WriteEnd)
    requires len <= MAX_FRAME_PAYLOAD
    ensures e.rv == 0 || e.rv == -1
    ensures e.written <= 3 + len
    ensures e.rv == 0 ==> e.written == 3 + len
    ensures e.written < 3 ==> e.rv == -1 && e.rest == WriteAllSpec(3, script).rest
  {
    var h := WriteAllSpec(3, script);
    if h.rv == -1 then WriteEnd(-1, h.written, h.rest)
    else
      var p := WriteAllSpec(len, h.rest);
      if p.rv == -1 then WriteEnd(-1, 3 + p.written, p.rest)
      else WriteEnd(if drainOk then 0 else -1, 3 + len, p.rest)
  }

  /**
    A frame write succeeds exactly when header and payload were fully
    accepted and the drain succeeded; when the header write fails, no
    payload write is issued.
   */
  lemma FrameSpecOutcome(len: nat, script: seq<WriteResult>, drainOk: bool)
    requires len <= MAX_FRAME_PAYLOAD
    ensures var h := WriteAllSpec(3, script); var e := FrameSpec(len, script, drainOk);
      && (h.rv == -1 ==> e == WriteEnd(-1, h.written, h.rest))
      && (e.rv == 0 <==> h.rv == 0 && WriteAllSpec(len, h.rest).rv == 0 && drainOk)
  {
  }

  /**
    cmeshcore_write_frame: the 3-byte header, then the payload, then
    tcdrain (whose answer is `drainOk`). The wire gains a prefix of
    header ++ payload: all of it when the result is 0, less than the
    header when the header write failed.
   */
  method WriteFrame(dev: Device, payload: seq<uint8>, drainOk: bool) returns (rv: int)
    requires |payload| <= MAX_FRAME_PAYLOAD
    modifies dev
    ensures var e := FrameSpec(|payload|, old(dev.writeResults), drainOk);
      && rv == e.rv
      && dev.wire == old(dev.wire) + Frame.FrameBytes(payload)[..e.written]
      && dev.writeResults == e.rest
    ensures dev.isOpen == old(dev.isOpen) && dev.fd == old(dev.fd)
  {
    var header := Frame.Header(|payload|);
    var frame := Frame.FrameBytes(payload);
    assert frame[..3] == header;
    rv := WriteAll(dev, header);
    if rv == -1 {
      assert header[..WriteAllSpec(3, old(dev.writeResults)).written] == frame[..WriteAllSpec(3, old(dev.writeResults)).written];
      return -1;
    }
    ghost var mid := dev.writeResults;
    rv := WriteAll(dev, payload);
    ghost var p := WriteAllSpec(|payload|, mid);
    assert frame[..3 + p.written] == header + payload[..p.written];
    if rv == -1 {
      return -1;
    }
    if !drainOk {
      return -1;
    }
    return 0;
  }

  // poll(2) event bits (Linux values).
  const POLLIN: bv16 := 0x001
  const POLLERR: bv16 := 0x008
  const POLLHUP: bv16 := 0x010
  const POLLNVAL: bv16 := 0x020

  /** The answer of poll(2) on the one descriptor: its return value, errno, and revents. */
  datatype PollAnswer = PollAnswer(rv: int, errno: Errno, revents: bv16)

  /**
    cmeshcore_poll: 1 when the descriptor is readable, 0 when the wait
    timed out or was interrupted, -1 on any other failure (a poll error,
    or error, hang-up or invalid-descriptor events without data).
   */
  function Poll(a: PollAnswer): (r: int)
    requires a.rv >= -1
    ensures r == 1 <==> a.rv > 0 && a.revents & POLLIN != 0
    ensures r == 0 <==> a.rv == 0 || (a.rv == -1 && a.errno == Interrupted)
    ensures r == -1 <==> (a.rv == -1 && a.errno != Interrupted) || (a.rv > 0 && a.revents & POLLIN == 0)
  {
    if a.rv == -1 then
      if a.errno == Interrupted then 0 else -1
    else if a.rv == 0 then 0
    else if a.revents & POLLIN != 0 then 1
    else if a.revents & (POLLERR | POLLHUP | POLLNVAL) != 0 then -1
    else -1
  }

  /**
    Readable data wins over error events reported with it, and error,
    hang-up or invalid-descriptor events without data are a failure.
   */
  lemma PollEvents(a: PollAnswer)
    requires a.rv > 0
    ensures a.revents & POLLIN != 0 ==> Poll(a) == 1
    ensures a.revents & POLLIN == 0 && a.revents & (POLLERR | POLLHUP | POLLNVAL) != 0 ==> Poll(a) == -1
  {
  }
}
