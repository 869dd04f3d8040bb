# cmeshcore protocol engine in Dafny

A model of the host-side protocol engine of cmeshcore, a driver for a
mesh-radio companion device on a serial line, with proofs about it. The engine does five things:

- It frames every outbound payload behind a 3-byte header: marker `0x3c`, then the length as 16-bit little-endian.
- It builds the app-start payload and the send-text payload.
- It writes all bytes of a buffer, retrying on EAGAIN and EINTR.
- It classifies the result of `poll` and checks the device's self-info answer during the handshake.
- It creates a device handle (open, configure, app-start, wait for self-info) and destroys it (close, then the sentinel `fd = -1`).

The modules follow that structure:

- `Bytes`: fixed-width unsigned types and the little-endian 16/32-bit layouts, which are proved to round-trip both ways.
- `Protocol`: the protocol constants (markers, commands, responses, error codes, text types, versions, advert types).
- `Wrappers`: `Option`, standing for possibly-NULL pointers.
- `Frame`: header and frame bytes, plus a reference decoder `DecodeFrame` that the encoder is proved against in both directions.
- `Commands`: the app-start constant and the send-text payload (as a function and as the in-place fill of the 4096-byte buffer), plus a reference parser `ParseSendText`.
- `Transport`: the operating system's side of the descriptor as a `Device` class.
  - `wire` holds the bytes `write` has accepted, in order.
  - `writeResults` is the script of answers the next `write` calls give.
  - The module also holds the write-all loop, the frame write and `poll` classification. Each method is proved equal to a specification function (`WriteLoop`, `WriteAllSpec`, `FrameSpec`) of the script it starts from.
- `Handshake`: the self-info acceptance test, as written and corrected.
- `Session`: the `Mesh` handle class, `New`, `Free` and `SendMsgTxt`.

Operating-system calls are oracles.
- `write` answers come from the device's script. An answer is either "accepted up to k bytes" or "failed with errno", and it never accepts more than was asked.
- `open`, `tcgetattr`/`tcsetattr`, `malloc`, `tcdrain`, `poll` and `read` answers are parameters (`SetupAnswers`, `drainOk`, `PollAnswer`, `ReadAnswer`).
- The send time `ts` is a parameter: it stands for `(uint32_t)time(NULL)`.

Some values follow from the code and are easy to get wrong by hand:
- The app-start payload is 17 bytes, so its frame header is `3c 11 00` (`Commands.AppStartLayout`).
- The timestamp 1700000000 is `0x6553F100`, so its little-endian bytes are `00 F1 53 65`.
- Sending "Hi!" gives a payload of 13 + 3 = 16 bytes, framed behind `3c 10 00` (`Session.SendTextExample`).
- Every failing `int32_t` operation returns -1, and `cmeshcore_new` returns NULL (`Session.New` returns `null`). The code has no separate error kinds (such as "message too large"), and neither has the model.

## Model

| member | source | states |
|---|---|---|
| `Bytes.LE16` | cmeshcore/cmeshcore.c:119-123 | the two length bytes `len & 0xFF`, `(len >> 8) & 0xFF` read back little-endian give `len` for every 16-bit length |
| `Bytes.FromLE16RoundTrip` | cmeshcore/cmeshcore.c:119-123 | conversely every byte pair is the encoding of the number it denotes, so the length encoding is a bijection |
| `Bytes.LE32` | cmeshcore/cmeshcore.c:328-331 | the four timestamp bytes `(ts >> 8k) & 0xFF` read back little-endian give `ts` for every 32-bit `ts` |
| `Bytes.FromLE32RoundTrip` | cmeshcore/cmeshcore.c:328-331 | conversely every four bytes are the encoding of the 32-bit number they denote |
| `Frame.Header` | cmeshcore/cmeshcore.c:117-123 | the header is 3 bytes: marker `0x3c`, then `len & 0xFF`, with `hdr[1] + 256*hdr[2] == len` |
| `Frame.FrameBytes` | cmeshcore/cmeshcore.c:125-131 | what a frame write emits is header then payload, `3 + payload_len` bytes |
| `Frame.DecodeFrame` | cmeshcore/cmeshcore.c:30-33 | reference reader of the frame layout: a decoded frame lies within the bytes and its marker is byte 0 |
| `Frame.FrameRoundTrip` | cmeshcore/cmeshcore.c:117-131 | for every payload of at most 65535 bytes, decoding the frame bytes recovers the outbound marker and exactly the payload |
| `Frame.DecodedFrameIsEncoded` | cmeshcore/cmeshcore.c:117-131 | every outbound frame a reader accepts is exactly the header plus payload the encoder writes for that payload |
| `Commands.AppStartLayout` | cmeshcore/cmeshcore.c:143-150 | app-start is `[1, 3, six zero bytes, "cmeshcore"]`, 17 bytes, framed behind `3c 11 00` |
| `Commands.SendTextPayload` | cmeshcore/cmeshcore.c:311-334 | the send-text payload is 13 + msg_len bytes, starts with command 2 and ends with the message bytes unchanged |
| `Commands.ParseSendText` | cmeshcore/cmeshcore.c:311-312 | reference reader of a send-text payload: fields only for a payload of at least 13 bytes, the message is the rest |
| `Commands.SendTextLayout` | cmeshcore/cmeshcore.c:311-334 | payload length 13 + msg_len; bytes 0..2 are 2, 0 (plain), 0 (attempt); bytes 3..6 read little-endian give `ts`; bytes 7..12 are `pk`; bytes 13.. are `msg` |
| `Commands.SendTextRoundTrip` | cmeshcore/cmeshcore.c:325-334 | parsing a built send-text payload recovers type plain, attempt 0, the timestamp, the key prefix and the message |
| `Commands.ParsedSendTextIsBuilt` | cmeshcore/cmeshcore.c:325-334 | every plain first-attempt send-text payload is exactly the one built from its parsed fields |
| `Commands.SendTextFits` | cmeshcore/cmeshcore.c:317-319 | a message is accepted only if its length is at most 4096 - 13 |
| `Commands.SendTextFitsPayload` | cmeshcore/cmeshcore.c:312-319 | a message is accepted exactly when its whole payload fits the 4096-byte buffer, so nothing is ever cut |
| `Commands.TxtPayloadLenAsWritten` | cmeshcore/cmeshcore.c:309-312 | the 32-bit payload length equals 13 + strlen whenever strlen < 2^32 - 13 |
| `Commands.SendTextFitsAsWritten` | cmeshcore/cmeshcore.c:309-319 | the size check on the 32-bit `payload_len` agrees with the intended one for every message shorter than 2^32 - 13 bytes |
| `Commands.SendTextFitsAsWrittenWraps` | cmeshcore/cmeshcore.c:309-319 | beyond that the written check admits a message of 2^32 - 13 bytes (length wraps to 0) and one of 2^32 + 3 bytes (cut to 3) |
| `Commands.CopyInto` | cmeshcore/cmeshcore.c:333-334 | `memcpy` into the buffer: the target range equals the source and every other byte is unchanged |
| `Commands.BuildSendText` | cmeshcore/cmeshcore.c:321-334 | filling the 4096-byte buffer in place leaves exactly the send-text payload in its first 13 + msg_len bytes |
| `Transport.NextResult` | cmeshcore/cmeshcore.c:93 | the next `write` gives the next scripted answer; once the script is used up it fails with a non-retryable error |
| `Transport.Returned` | cmeshcore/cmeshcore.c:93 | `write` returns -1 exactly for an error answer and never more than the count asked for |
| `Transport.Device.Open` | cmeshcore/cmeshcore.c:232-237 | `open` gives a descriptor, which is then open, or -1, which changes nothing |
| `Transport.Device.Close` | cmeshcore/cmeshcore.c:242 | `close` releases the descriptor when it is the open one, and nothing else changes |
| `Transport.Device.Write` | cmeshcore/cmeshcore.c:93 | one `write` consumes one scripted answer and appends exactly the accepted prefix of the data to the wire |
| `Transport.WriteLoop` | cmeshcore/cmeshcore.c:90-106 | the loop's byte count never decreases and never exceeds n (`0 <= written <= n`); with bytes left, every turn consumes an answer |
| `Transport.WriteAllSpec` | cmeshcore/cmeshcore.c:86-108 | the result is 0 or -1; 0 exactly when `written == n`; `n == 0` returns 0 without consuming a `write` |
| `Transport.WriteLoopRest` | cmeshcore/cmeshcore.c:92-106 | the loop consumes a prefix of the `write` answers: the ones it leaves are a suffix of the script |
| `Transport.WriteAllRestIsSuffix` | cmeshcore/cmeshcore.c:86-108 | a write of n bytes leaves exactly a suffix of the `write` answers unanswered |
| `Transport.WrittenIsAcceptedSum` | cmeshcore/cmeshcore.c:92-106 | `written` is the sum of the byte counts offered by the answers the loop consumed, capped at n |
| `Transport.OnlyLastAnswerStops` | cmeshcore/cmeshcore.c:95-103 | among the consumed answers only the last can be a stopping one (non-retryable error or 0 bytes); ending short of n with answers left means that last answer stopped the loop |
| `Transport.RetryIsTransparent` | cmeshcore/cmeshcore.c:95-97 | an EAGAIN or EINTR answer anywhere in the script does not change how many bytes the loop writes |
| `Transport.StopRules` | cmeshcore/cmeshcore.c:98-103 | with `written < n`, a non-retryable error or a zero-byte write stops the loop at once with `written` unchanged and nothing more consumed, so the result is -1 |
| `Transport.WriteAll` | cmeshcore/cmeshcore.c:79-109 | the loop's result, bytes and leftover script are those of `WriteAllSpec`; the wire gains exactly the first `written` bytes of the data, in order |
| `Transport.FrameSpec` | cmeshcore/cmeshcore.c:125-137 | a frame write returns 0 or -1; 0 only with all 3 + len bytes accepted; fewer than 3 bytes (a failed header) always means -1 |
| `Transport.FrameSpecOutcome` | cmeshcore/cmeshcore.c:125-137 | a failed header write ends the frame write with no payload write issued; success exactly when header, payload and drain all succeed |
| `Transport.WriteFrame` | cmeshcore/cmeshcore.c:111-138 | the wire gains a prefix of header ++ payload as `FrameSpec` says: all 3 + len bytes on success, part of the header only when the header write fails |
| `Transport.Poll` | cmeshcore/cmeshcore.c:153-187 | 1 exactly when `poll` reported POLLIN; 0 exactly on timeout or EINTR; -1 on any other poll error or events without POLLIN |
| `Transport.PollEvents` | cmeshcore/cmeshcore.c:177-183 | POLLIN wins over error bits reported with it; POLLERR/POLLHUP/POLLNVAL without POLLIN give -1 |
| `Handshake.Received` | cmeshcore/cmeshcore.c:206-208 | the bytes the device sent: `rv` of them, none when `read` failed |
| `Handshake.IsSelfInfoResponse` | cmeshcore/cmeshcore.c:210-220 | bytes that pass the test and decode as a frame are an inbound frame whose payload, when non-empty, starts with the self-info code 5 |
| `Handshake.SelfInfoFrameAccepted` | cmeshcore/cmeshcore.c:210-220 | every complete inbound frame whose payload starts with the self-info code passes the handshake test |
| `Handshake.HeaderBytesDecide` | cmeshcore/cmeshcore.c:210-220 | fewer than 4 bytes or a first byte other than `0x3e` fail; the first 4 bytes of an incomplete self-info frame, or an empty inbound frame followed by a 5, pass |
| `Handshake.WaitForSelfInfoAsWritten` | cmeshcore/cmeshcore.c:200-222 | as written: success only after a poll result of 1 with `buf[0] == 0x3e` and `buf[3] == 5` |
| `Handshake.ReadErrorPassesAsWritten` | cmeshcore/cmeshcore.c:208-212 | as written, a failed `read` (no byte received) is accepted when the stale buffer starts like self-info, so the outcome depends on bytes never sent |
| `Handshake.WaitForSelfInfo` | cmeshcore/cmeshcore.c:200-222 | corrected: 0 exactly when poll returned 1 and the received bytes are at least 4 with byte 0 `0x3e` and byte 3 `5`; -1 otherwise |
| `Handshake.OnlyReceivedBytesMatter` | cmeshcore/cmeshcore.c:206-220 | the corrected test depends only on the bytes the device actually sent |
| `Handshake.WaitForSelfInfoAgrees` | cmeshcore/cmeshcore.c:208-222 | whenever `read` succeeded, the corrected test and the written one agree |
| `Session.Mesh.constructor` | cmeshcore/cmeshcore.c:263-265 | the handle holds the descriptor it was given |
| `Session.PortConfigured` | cmeshcore/cmeshcore.c:227-261 | creation gets past the port setup only with a port name and a real descriptor (`open` did not return -1) |
| `Session.WriteAppStart` | cmeshcore/cmeshcore.c:140-151 | app-start goes out as one frame write of the 17-byte payload |
| `Session.New` | cmeshcore/cmeshcore.c:226-284 | a handle exactly when port, allocation, open, configuration, the app-start write and the self-info wait all succeed; on failure no descriptor stays open; the wire holds a prefix of the app-start frame |
| `Session.Free` | cmeshcore/cmeshcore.c:287-297 | NULL is a no-op; otherwise the descriptor is closed only if it is not -1, and the handle is left with `fd == -1` |
| `Session.FreeTwice` | cmeshcore/cmeshcore.c:287-297 | destroying a live handle closes its descriptor; a second destroy changes nothing |
| `Session.SendMsgTxt` | cmeshcore/cmeshcore.c:299-339 | on a live handle whose descriptor is the open one, a NULL message or one over 4096 - 13 bytes gives -1 with nothing written; otherwise the send-text payload goes out as one frame, as `FrameSpec` says |
| `Session.SendTextExample` | cmeshcore/cmeshcore-cli.c:25-28 | "Hi!" to prefix `40 2b fe 9d 13 2e` at 1700000000 is the 16-byte payload `02 00 00 00 f1 53 65 40 2b fe 9d 13 2e 48 69 21`, framed behind `3c 10 00` |

## Left out

- Terminal configuration: `tcgetattr`, the flag masking, 115200 baud and `tcsetattr` (cmeshcore/cmeshcore.c:239-261). They are two answers that may fail; the line settings themselves have no behaviour to prove.
- `tcflush` in `cmeshcore_free`: discarding queued bytes has no effect on the modelled state.
- `malloc` and `free`: allocation failure is an answer (`SetupAnswers.alloc`). The handle object is allocated after configuration rather than before, and it is never released. In C a second `cmeshcore_free` on the same pointer is a double free. The model shows only that the `fd = -1` sentinel makes a repeated close step do nothing.
- `time(NULL)`: the timestamp is a parameter.
- The poll timeout: the `PollAnswer` stands for whatever `poll` answers within the 2000 ms (`SELF_INFO_TIMEOUT_MS`). Time itself is not modelled.
- `Transport.WriteAll`: the write script is finite, and an exhausted script reads as a non-retryable error. The C loop would spin forever on an endless run of EAGAIN/EINTR.
- `Transport.Returned`: `write`'s `ssize_t` result is stored in an `int32_t`. Its truncation for a single write of more than 2^31 - 1 bytes is not modelled, because every caller writes at most 65535 bytes.
- `Transport.Poll`: the debug-only `CMESHCORE_ASSERT(0)` for a positive `poll` result without any event bit is modelled as its release-build effect, -1.
- Debug assertions: `fd >= 0`, `payload_len <= UINT16_MAX`, the non-NULL handle and key prefix are preconditions, not behaviour.
- `Transport.WriteAll`: its own contract does not state that the unused answers are a suffix of the script, because stating it there made the loop's proof too costly. The method's leftover script is `WriteAllSpec`'s, and `Transport.WriteAllRestIsSuffix` proves the suffix property of that function.
- Messages are the bytes `strlen` counts, before the terminator. C strings and NUL bytes are not modelled.
- `cmeshcore_advert_self_flood` and `cmeshcore_advert_self_zero_hop` are declared in cmeshcore/cmeshcore.h:63 and :70 with no implementation or command identifier. No encoding is invented for them.
- The command-line front end (cmeshcore/cmeshcore-cli.c) and the header's declarations are not part of this model.
- The handshake parse checks byte 3 without reading the frame's length field, as in the code. It fails when the first read returns fewer than 4 bytes or when other traffic comes first. It passes on the first 4 bytes of a self-info frame, whether or not the rest of the frame arrives (`Handshake.HeaderBytesDecide`). The model does not read the rest of the frame either.

## Findings

| source | as written | input that shows it | evidently intended | confidence | as-written member | corrected member |
|---|---|---|---|---|---|---|
| cmeshcore/cmeshcore.c:208-212 | `read`'s result is stored in a `uint32_t`, so an error (-1) becomes 0xFFFFFFFF and passes `n < 4` | `poll` reports POLLIN, `read` fails with -1, and the stack buffer happens to hold `3e ?? ?? 05`: the handshake succeeds and a handle is returned | a failed read fails the handshake; only received bytes decide | high (the type is explicit); not executed | `Handshake.ReadErrorPassesAsWritten` | `Handshake.WaitForSelfInfo` |
| cmeshcore/cmeshcore.c:309-319 | `strlen` is narrowed to `uint32_t` and `7 + 6 + msg_len` wraps | a message of 2^32 - 13 bytes gives `payload_len == 0`, so it passes the check and `memcpy` overruns the buffer; one of 2^32 + 3 bytes goes out cut to 3 bytes | every message whose payload exceeds 4096 bytes is rejected | low in practice (needs a 4 GiB message); not executed | `Commands.SendTextFitsAsWrittenWraps` | `Commands.SendTextFits` |

The rest of the model uses the corrected members: `Session.New` uses `Handshake.WaitForSelfInfo`, and `Session.SendMsgTxt` uses `Commands.SendTextFits`.
