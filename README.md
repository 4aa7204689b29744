# samsungctl legacy remote, modelled in Dafny

This project models the core of `samsungctl/remote_legacy.py`, the client for the
"legacy" Samsung TV remote protocol. The client opens a TCP connection, sends a
handshake and waits for the TV's approval. It then sends single-key control
commands and matches the TV's acknowledgements to pending commands in
registration order.

The model has five parts.

- `bytes.dfy`: the `Byte` type and `Option`.
- `base64.dfy`: the Base64 encoding the field framing uses (RFC 4648 section 4, standard alphabet, `=` padding), together with a reference decoder.
- `framing.dfy`: `_serialize_string`, which writes a field as `[length][0x00][body]`. It also builds the handshake and control packets, and gives the receiving side parsers for fields and packets.
- `utf8.dfy`: strict UTF-8 well-formedness. The first handshake read decodes the TV's name with it.
- `response.dfy`: `_read_response` and `loop` as pure functions over the bytes the TV sends (`data`) and a read cursor (`pos`). `ReadFrame` does the recv calls for one frame. `Classify` and `Settle` classify its payload. `ReadSpec` recurses on "waiting for approval" frames. `Drain` repeats reads until one is not True. The "effects" are the changes a read makes to shared state: marking the configuration paired, or firing the oldest pending callback. They act on a `Session` value.
- `remote.dfy`: the `RemoteLegacy` object itself. It is a `Remote` class with the socket, the worker flag, the loop event, the pending-callback list and the receive event as fields. It has a `Config` class whose `paired` flag the reads set, and a `Stream` class: the socket as a finite byte sequence with a cursor, plus the list of packets sent. Each method is proved against the functions above: `ReadResponse` against `ReadSpec`, `Loop` against `Drain`, and `Open` and `Control` against the packet builders.

Modelling choices:

- `recv(n)` returns `min(n, remaining)` bytes.
- A stream that has ended, failed or been shut down returns no more bytes. A read that reaches the end of the stream before its payload returns False. A payload cut short by the end is classified as received, as the source does, since `recv(n)` may return fewer than `n` bytes.
- The model follows Python 3: `bytes([n])` (line 230) is a one-byte string and raises `ValueError` for `n > 255`, and `base64.b64encode` (line 228) returns bytes. Under Python 2, `bytes([n])` would be the text `"[n]"`.
- Two booleans, `connectOk` and `sendOk`, say whether `connect` and `send` succeed.
- A Python exception is `Raised(e)` in the `Outcome` datatype. `EncodingError` is the `ValueError` that `bytes([n])` raises for `n > 255`. `PairingFailed` is the `RuntimeError` from `open`. `TransportError` is a `socket.error` escaping from `control`.
- A callback closure is a `CallbackId`. Calling it sets the receive event and is recorded in `invoked`.

The model follows the code as written, including these behaviours:

- A field of exactly 255 bytes is accepted. Only 256 or more fails.
- An acknowledgement `00 00 00 00` fires `_registered_callbacks[0]` but does not remove it. Only `control` removes its own callback. Two acknowledgements with two pending commands therefore fire the oldest callback twice.
- Every callback sets the same `_receive_event`.
- An `AccessDenied` or `UnhandledResponse` raised inside `loop` escapes the loop. The clean-up is then skipped, and `sock` stays set.
- `open` returns True even when the handshake read returned False. In that case `sock` is left unset.
- `paired` is set only by the access-granted payload. An acknowledgement as the first handshake reply also opens the connection, but does not mark it paired.
- If `send` fails inside `control`, the callback stays registered, because the removal is not in a `finally`.

## Model

| member | source | states |
|---|---|---|
| Base64.Encode | samsungctl/remote_legacy.py:227-228 | The Base64 text of n bytes has length 4*ceil(n/3), a multiple of four. |
| Base64.DecodeEncode | samsungctl/remote_legacy.py:227-228 | Decoding the Base64 text of any byte string gives back that byte string. |
| Base64.EncodedLengthFitsByte | samsungctl/remote_legacy.py:228-230 | The encoded length fits one length byte (at most 255) exactly when the input is at most 189 bytes. |
| Framing.Serialize | samsungctl/remote_legacy.py:227-230 | Framing succeeds exactly when the body (raw, or Base64 when not raw) is at most 255 bytes. The frame is then two bytes longer than the body. |
| Framing.ParseField | samsungctl/remote_legacy.py:230 | A field parses only when byte 1 is the `0x00` filler. The input is then the length byte, the filler, a body of exactly that length and the rest. |
| Framing.FieldRoundTrip | samsungctl/remote_legacy.py:230 | A framed field parses back to its body: byte 0 is the body's length and byte 1 is `0x00`. Whatever follows the field is left untouched. |
| Framing.Base64FieldLimit | samsungctl/remote_legacy.py:227-230 | A Base64 field can be framed if and only if its input is at most 189 bytes; otherwise no output is produced. |
| Framing.HandshakePayload | samsungctl/remote_legacy.py:105-110 | The handshake payload exists exactly when description, id and name are each at most 189 bytes. It starts with `64 00` and is 8 bytes longer than the three Base64 texts together. |
| Framing.ControlPayload | samsungctl/remote_legacy.py:151 | The control payload exists exactly when the key is at most 189 bytes. It starts with `00 00 00` and is 5 bytes longer than the key's Base64 text. |
| Framing.Packet | samsungctl/remote_legacy.py:111 | The outer packet exists exactly when there is a payload of at most 255 bytes. It is five bytes longer than the payload. |
| Framing.HandshakePacket | samsungctl/remote_legacy.py:105-111 | A handshake packet is 13 bytes longer than the three Base64 texts together. |
| Framing.ControlPacket | samsungctl/remote_legacy.py:151-152 | A control packet is 10 bytes longer than the key's Base64 text. |
| Framing.PacketLayout | samsungctl/remote_legacy.py:111 | An outer packet is `00 00 00`, then the payload length, then `0x00`, then the payload. It is five bytes longer than the payload. |
| Framing.ControlPacketLimit | samsungctl/remote_legacy.py:151-152 | A control packet can be built if and only if the key is at most 186 bytes. |
| Framing.HandshakePacketLimit | samsungctl/remote_legacy.py:105-111 | A handshake packet can be built if and only if the Base64 lengths of description, id and name add up to at most 247. |
| Framing.ControlPacketRoundTrip | samsungctl/remote_legacy.py:151-152 | Parsing a control packet as `00 00 00 ++ frame_raw(00 00 00 ++ frame(key))` gives back the key. |
| Framing.HandshakePacketRoundTrip | samsungctl/remote_legacy.py:105-111 | Parsing a handshake packet as `00 00 00 ++ frame_raw(64 00 ++ frame(description) ++ frame(id) ++ frame(name))` gives back the three fields. |
| Utf8.AsciiIsValid | samsungctl/remote_legacy.py:177-178 | A TV name made only of ASCII bytes always passes the first-time UTF-8 decode. |
| Utf8.StrayContinuationIsInvalid | samsungctl/remote_legacy.py:178 | A name starting with a continuation byte fails the decode. |
| Utf8.ValidExcludesBytes | samsungctl/remote_legacy.py:178 | A name that passes the decode never holds the bytes `C0`, `C1` or `F5` to `FF`, which no well-formed UTF-8 contains. |
| Response.Classify | samsungctl/remote_legacy.py:188-210 | Each class holds if and only if its byte pattern holds: empty payload; exactly `64 00 01 00`; exactly `64 00 00 00`; leading `0x0a`; leading `0x65`; exactly `00 00 00 00`. The patterns are disjoint, so the priority order never decides between two of them. |
| Response.ReadFrame | samsungctl/remote_legacy.py:170-186 | One frame read never moves the cursor backwards or past the end. A completed read ends with its payload, which is the bytes just before the new cursor, and consumes more than three bytes besides the payload. |
| Response.Settle | samsungctl/remote_legacy.py:188-210 | For a final payload: `64 00 00 00` or a leading `0x65` raises AccessDenied. A payload of no known class raises UnhandledResponse carrying that payload. An empty payload returns False. A "waiting" payload would also return False here, but `ReadSpec` never passes one to `Settle`: it reads the next frame instead (line 200). Only `64 00 01 00` marks the TV paired and only `00 00 00 00` fires a callback, and exactly those two return True. The result is never None and no other exception is raised. |
| Response.ReadSpec | samsungctl/remote_legacy.py:168-218 | A read returns a bool or raises AccessDenied or UnhandledResponse, never anything else. A True read consumes at least one byte. The read has an effect exactly when it returns True. It marks paired only when the last four bytes read are `64 00 01 00`, and fires a callback only when they are `00 00 00 00`. |
| Response.Apply | samsungctl/remote_legacy.py:191-208 | The access-granted effect sets paired and nothing else. The acknowledgement invokes the oldest pending callback, which sets the receive event; with none pending it changes nothing. No effect adds or removes a pending callback. |
| Response.ReadFrameRoundTrip | samsungctl/remote_legacy.py:170-186 | A frame found at any position of the stream, with both lengths below 0x80 (and a valid UTF-8 name on a first read), reads back exactly its payload. The cursor ends right after the frame. |
| Response.ReadTerminalFrame | samsungctl/remote_legacy.py:188-210 | A frame found at any position of the stream, whose payload is not "waiting", settles on that payload right after the frame. |
| Response.WaitingStep | samsungctl/remote_legacy.py:197-200 | A "waiting for approval" frame found at any position of the stream is skipped whole. The read continues at the next byte after it, no longer in first-time mode. |
| Response.WaitThenGranted | samsungctl/remote_legacy.py:191-200 | A handshake reply of a "waiting" frame followed by a "granted" frame, anywhere in the stream, is one True read. It marks the TV paired and consumes both frames. Each frame has its own header bytes, name and length byte. Only the first frame's name is decoded, because the recursive read is not a first-time read. |
| Response.DeniedHandshake | samsungctl/remote_legacy.py:195-196 | A first handshake reply of `64 00 00 00` raises AccessDenied, consumes exactly that frame and has no effect, so paired is unchanged. |
| Response.ShortHeaderAborts | samsungctl/remote_legacy.py:170-172 | A header of fewer than two bytes makes `ord(header[1:2].decode('utf-8'))` fail: the decode gives `''` and `ord('')` raises `TypeError`, which the bare `except:` at line 217 catches. The read returns False with no effect, and the stream is used up. |
| Response.HighLengthByteAborts | samsungctl/remote_legacy.py:172 | A name-length byte of 0x80 or more fails its one-byte UTF-8 decode, and the read returns False. |
| Response.InvalidNameAborts | samsungctl/remote_legacy.py:177-178 | On the first read, a TV name that is not valid UTF-8 makes the read return False right after the name, with no effect. |
| Response.HighResponseLengthAborts | samsungctl/remote_legacy.py:183 | A payload-length byte of 0x80 or more fails its one-byte UTF-8 decode. The read returns False right after the two length bytes, with no effect. |
| Response.TruncatedPayloadSettles | samsungctl/remote_legacy.py:185-210 | When the stream ends inside a payload, `recv` returns the bytes that are left and the read goes on with them as the payload. A "waiting" remainder reads on past the end and returns False; any other remainder settles exactly as a full payload of those bytes would. |
| Response.TruncatedCancelRaises | samsungctl/remote_legacy.py:185-203 | The stream `00 00 00 02 00 65`, whose two-byte payload is cut after `0x65`, raises AccessDenied. |
| Response.ExhaustedReadsFalse | samsungctl/remote_legacy.py:188-189 | Reading an exhausted stream returns False and changes nothing. |
| Response.Drain | samsungctl/remote_legacy.py:78-84 | The loop stops at the first read that does not return True: that read returned False or raised. Every read before it returned True and had an effect. |
| Response.ApplyAllKeepsCallbacks | samsungctl/remote_legacy.py:204-208 | No sequence of reads adds or removes a pending callback. |
| Response.ApplyAllPaired | samsungctl/remote_legacy.py:191-194 | After a sequence of reads, paired holds if and only if it held before or some read saw the access-granted payload. |
| Response.ApplyAllInvokesOldest | samsungctl/remote_legacy.py:204-208 | Each acknowledgement invokes `callbacks[0]` and nothing else. With no callback pending, nothing is invoked. |
| RemoteLegacy.RemoveFirst | samsungctl/remote_legacy.py:163 | `list.remove` shortens the list by one when the callback is present. At line 163 it always is, because `control` appended it at line 159 and `Control` calls `RemoveFirst` right after that append. Python would raise `ValueError` for an absent callback; no caller reaches that case, and the model returns the list unchanged there. |
| RemoteLegacy.RemoveFirstDropsFirst | samsungctl/remote_legacy.py:163 | `list.remove` drops the first occurrence of the callback. No entry before it equals the callback, and the entries before and after it keep their order. |
| RemoteLegacy.RemoveFirstMultiset | samsungctl/remote_legacy.py:163 | Removing a present callback drops exactly one copy of it and keeps every other entry. |
| RemoteLegacy.RemoveFirstAppended | samsungctl/remote_legacy.py:159-163 | Appending a fresh callback and then removing it restores the list as it was. |
| RemoteLegacy.PowerOffPacketFits | samsungctl/remote_legacy.py:73 | The KEY_POWEROFF control packet is always within the size limit. |
| RemoteLegacy.Stream.Recv | samsungctl/remote_legacy.py:170-185 | recv(n) returns the next min(n, remaining) bytes and advances the cursor by that many. |
| RemoteLegacy.Stream.Send | samsungctl/remote_legacy.py:161 | send appends exactly the given packet to what the socket has sent. |
| RemoteLegacy.Stream.Shutdown | samsungctl/remote_legacy.py:138 | After shutdown every later recv sees the end of the stream. |
| RemoteLegacy.Remote.constructor | samsungctl/remote_legacy.py:20-30 | A new connection has no socket, no worker, a clear loop event and an empty callback list. |
| RemoteLegacy.Remote.RecvFrame | samsungctl/remote_legacy.py:170-186 | The recv calls of one frame leave the cursor where `ReadFrame` says, and return what it returns. |
| RemoteLegacy.Remote.ReadResponse | samsungctl/remote_legacy.py:167-218 | `_read_response` returns `ReadSpec`'s result and leaves the cursor at its end. Its state change is exactly `ReadSpec`'s effect. With no socket it returns False and changes nothing. |
| RemoteLegacy.Remote.Invoke | samsungctl/remote_legacy.py:156-157 | A callback sets the receive event. |
| RemoteLegacy.Remote.ReadWhileTrue | samsungctl/remote_legacy.py:79-87 | The while loop runs the reads of `Drain`: same result, same final cursor, and all their effects in order. It sends nothing. With the loop event set, or no socket, it reads nothing. |
| RemoteLegacy.Remote.Loop | samsungctl/remote_legacy.py:78-95 | After the reads of `Drain`, when the last read did not raise, the socket and the worker are cleared, so power is False. An exception from a read propagates, and the socket and worker are left as they were. The loop sends nothing. |
| RemoteLegacy.Remote.Open | samsungctl/remote_legacy.py:97-130 | Each path of `open`: that of an open already connected (return at once, power stays True, nothing changed), a connect or send failure on a TV never paired or already paired (power False), a packet that fails to encode, an exception from the handshake read, and a True or False handshake read (power True only after True). For a handshake that is sent, exactly one packet is sent, and it is the handshake packet. With `Response.DeniedHandshake`, a denied first reply raises AccessDenied with power False and paired unchanged. |
| RemoteLegacy.Remote.SendHandshake | samsungctl/remote_legacy.py:113-123 | Once connected, open sends exactly the handshake packet and reads one response. On True it keeps the socket, so power is True, and starts the worker. On False power is False but open still returns True. An exception from the read propagates with power False. The state changes by exactly the read's effect. |
| RemoteLegacy.Remote.ConnectFailed | samsungctl/remote_legacy.py:125-130 | A socket error in `open` raises for a TV never paired and returns False, with no socket, for a TV paired before. |
| RemoteLegacy.Remote.Close | samsungctl/remote_legacy.py:132-142 | With a worker running, close sets the loop event and shuts the socket down, so later reads see the end. Without a worker it does nothing. |
| RemoteLegacy.Remote.Control | samsungctl/remote_legacy.py:144-163 | With no socket, control returns False and sends nothing. A key too long to encode raises before anything is registered. Otherwise exactly the control packet is sent, and the callback list afterwards equals the list before. If send fails, the new callback stays registered. |
| RemoteLegacy.Remote.SetPower | samsungctl/remote_legacy.py:66-76 | Setting power True, or False on a disconnected TV, changes nothing. Setting it False on a connected TV sends exactly one KEY_POWEROFF control packet. |

## Left out

- Threads, locks and events as concurrency: `threading.Thread`, `auth_lock`, `_receive_lock`, and the timing of `_receive_event.wait(0.3)` and `join(2.0)`. The model is sequential. The worker is a flag, and `Loop` is called explicitly.
- RemoteLegacy.Remote.Control: the 0.3-second wait, during which the response loop may fire the new callback, is not modelled. The contract describes the state when no acknowledgement arrives during the wait. The loop's firing is covered separately by `Response.ApplyAllInvokesOldest`.
- RemoteLegacy.Remote.SetPower: returns right after sending KEY_POWEROFF. The source then polls `power` every 2 seconds until the worker drops the connection, which cannot happen in a sequential model.
- RemoteLegacy.Remote.Close: the bounded `join(2.0)` on the worker is not modelled, and neither are `shutdown` or `close` raising `socket.error`, which the source ignores.
- Real socket I/O (`socket.socket`, `connect`, `send`, `recv` returning fewer bytes than are available). It is replaced by `Stream` and the `connectOk`/`sendOk` parameters.
- The `self.disconnect()` handler in `loop`. `_read_response` already catches every `socket.error`, so this handler is never reached. `disconnect` is not part of this model.
- `auto_discover` registration and start, `_connect`, the `upnp.UPNPTV` superclass and `config.copy`. These are external collaborators and are not part of this model.
- The `LogIt`/`LogItWithReturn` decorators and all logging.
- `__enter__` and `__exit__`.
- The str-to-bytes UTF-8 conversion at the start of `_serialize_string`. Inputs are byte sequences. The exceptions module is not part of this model. Its `AccessDenied` and `UnhandledResponse` are assumed not to be subclasses of `socket.error`.
- Python's recursion limit. `_read_response` calls itself once per "waiting" frame (line 200). After several hundred such frames in a row (each call also passes through the logging decorator), the resulting `RecursionError` is caught by the bare `except:` at line 217, and the read returns False. `ReadSpec` instead reads every "waiting" frame, however many there are.
