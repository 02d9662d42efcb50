# Feetech/SCS servo protocol driver and gimbal controller, in Dafny

This project models the serial protocol driver `FeetechDriver` of the mfds
robot. The driver talks to daisy-chained Feetech STS servos over a
half-duplex serial line. The project also models the small
`GimbalController` built on top of it. Everything is a pure function over
byte sequences, except the bus scan, which is a method with a loop:

- **Packet codec** (`packet.dfy`, module `Packet`). It holds the instruction
  and register constants and the checksum `(~sum) & 0xFF`. It also holds the
  frame `FF FF id len instr params… cksum`, the `bytearray` conversion that
  raises ValueError on a value outside [0, 255], and an inverse parser of
  request frames.
- **Response parser** (`parser.dfy`, module `Parser`). `_read_packet` is a
  function over the bytes that arrive within one read window. A `fuel`
  bound stands in for the wall-clock timeout: it is the number of 4-byte
  header reads the window allows. Its outcomes are a reply, `(None, None)`
  with its cause (timed out, incomplete body, checksum mismatch), or the
  IndexError raised when the length byte is 0.
- **Instruction API and bus scan** (`driver.dfy`, module `Driver`). The
  serial port is a `Link`. It holds the function from each written frame to
  the bytes that come back, plus the fuel. Every instruction returns
  `Returned(value)` or `Raised(exception)`. The 16-bit word split and join
  are modelled with Python's `&`, `>>`, `<<` and `|` written out. `Scan` is
  a method with a loop.
- **Gimbal controller** (`gimbal.dfy`, module `Gimbal`). Goal writes are
  clamped per axis. Every driver call the controller makes is returned as a
  list of `Write` records.
- `bytes.dfy` (module `Bytes`) holds the byte type and Python's `sum`, `~`,
  `& 0xFF`, `>> 8`, `<< 8` and `|` on integers.

## Parser behaviour worth knowing

- Headers are read in 4-byte chunks. A chunk that does not start `FF FF` is
  dropped whole, so a single stray byte before a reply hides the reply
  (`Parser.StrayByteHidesReply`). Noise made of whole non-header chunks is
  absorbed, one read per chunk (`Parser.ReadPacketSkipsChunks`).
- For a frame from another servo, only its 4 header bytes are dropped. Its
  body stays in the stream and is read as further chunks. When that frame's
  length is not a multiple of 4, the chunk boundaries shift and the header
  of the reply after it never starts a chunk: a 6-byte reply from servo 7
  followed by servo 1's reply times out
  (`Parser.ForeignReplyHidesExpectedReply`). When the length is a multiple
  of 4, the reply after it starts a chunk and is found, provided the budget
  reaches it and no chunk of the foreign body itself begins `FF FF` and the
  expected id (such a chunk would be taken as the expected header): an
  8-byte reply from servo 7 followed by servo 1's reply is read as servo 1's
  reply (`Parser.WholeChunkForeignReplyIsSkipped`).
- A checksum mismatch or a short body ends the read at once with
  `(None, None)`; the search does not resume (`Parser.ReadBody`).
- A length byte of 0 makes `body[0]` raise IndexError. An id, address or
  byte value outside [0, 255] makes `bytearray` raise ValueError. Both
  escape the driver and are modelled as `Driver.Raised`.
- The `expected_length` argument of `_read_packet` is never used. The
  length byte on the wire is trusted.

## Model

| member | source | states |
|---|---|---|
| `Packet.Checksum` | mfds/gimbal/feetech_driver.py:41-42 | the checksum is a byte equal to 255 − (sum mod 256), so the data plus the checksum sum to 255 mod 256 |
| `Packet.Frame` | mfds/gimbal/feetech_driver.py:44-48 | the packet is `FF FF id len(params)+2 instr params cksum` with `len(params)+6` bytes; the bytes from the id through the checksum sum to 255 mod 256; it is all bytes when id, instruction and params are |
| `Packet.EncodeRequest` | mfds/gimbal/feetech_driver.py:44-52 | the bytes are sent exactly when the id, the instruction and every parameter fit in a byte and there are at most 253 parameters; otherwise ValueError |
| `Packet.EncodeThenParse` | mfds/gimbal/feetech_driver.py:44-48 | parsing an encoded request gives back its id, instruction and parameters |
| `Packet.ParseThenEncode` | mfds/gimbal/feetech_driver.py:44-48 | every frame that parses is the encoding of what it parses to |
| `Parser.ReadBody` | mfds/gimbal/feetech_driver.py:68-84 | a short body gives Incomplete, length 0 gives IndexError, a bad checksum gives a mismatch; otherwise the reply is `body[0]` and `body[1:-1]` |
| `Parser.ReadPacket` | mfds/gimbal/feetech_driver.py:54-85 | a returned reply has at most 253 parameters (the length byte less 2), lies within the bytes read, and needs at least one header read; its outcome in full is characterised by `Parser.ReadPacketGot`, `Parser.ReadPacketTimedOut` and `Parser.ReadPacketAtFirstHeader` |
| `Parser.ReadPacketAtFirstHeader` | mfds/gimbal/feetech_driver.py:58-84 | the first 4-byte chunk within the budget that is a header for the expected id decides the outcome; earlier chunks are dropped |
| `Parser.ReadPacketTimedOut` | mfds/gimbal/feetech_driver.py:58-85 | the read times out exactly when no chunk within the budget is a header for the expected id |
| `Parser.ReadPacketGot` | mfds/gimbal/feetech_driver.py:54-84 | a reply is returned exactly when the first header for the expected id starts a complete frame whose checksum over id..last payload byte matches; the reply is its error byte and parameters; frames for other ids are never returned |
| `Parser.FrameBody` | mfds/gimbal/feetech_driver.py:69-84 | at a header, the check on `[id, length] + body[:-1]` equals the checksum over the contiguous frame bytes, and the reply is the frame's |
| `Parser.ReadPacketRoundTrip` | mfds/gimbal/feetech_driver.py:54-84 | a well-formed response for the expected id decodes to its error byte and parameters, whatever follows it |
| `Parser.ReadPacketSkipsChunks` | mfds/gimbal/feetech_driver.py:59-66 | whole 4-byte chunks that are not a header for the expected id are absorbed, one read each, without changing the outcome |
| `Parser.CorruptedBodyRejected` | mfds/gimbal/feetech_driver.py:74-82 | changing any one byte after the length byte of a well-formed response yields a checksum mismatch |
| `Parser.EmptyReplyBytes` | mfds/gimbal/feetech_driver.py:44-48 | a parameterless reply is `FF FF id 2 0 (255 − (id+2) mod 256)` |
| `Parser.ForeignReplyHidesExpectedReply` | mfds/gimbal/feetech_driver.py:61-66 | servo 1's reply is accepted alone, but after a complete reply from servo 7 the read times out |
| `Parser.WholeChunkForeignReplyIsSkipped` | mfds/gimbal/feetech_driver.py:61-84 | after a complete 8-byte reply from servo 7, servo 1's reply is still accepted, two header reads later |
| `Parser.StrayByteHidesReply` | mfds/gimbal/feetech_driver.py:60-62 | one stray byte before a reply makes the read time out |
| `Driver.Transact` | mfds/gimbal/feetech_driver.py:44-52 | writing a request raises ValueError exactly when the id, the instruction or a parameter is not a byte, or there are more than 253 parameters |
| `Driver.Join` | mfds/gimbal/feetech_driver.py:110 | `lo` or-ed bitwise with `hi << 8`, for two bytes, equals lo + 256·hi |
| `Driver.DecodeUnsigned` | mfds/gimbal/feetech_driver.py:121-123 | the raw word is in [0, 65535] and splits back into the two bytes received |
| `Driver.DecodeSigned` | mfds/gimbal/feetech_driver.py:109-114 | the signed word is in [−32768, 32767], splits back into the two bytes received, and is negative exactly when the high byte is at least 128 |
| `Driver.UnsignedWordRoundTrip` | mfds/gimbal/feetech_driver.py:92-95 | every v in [0, 65535] split by `write_word` is joined back to v by `read_word_raw` |
| `Driver.SignedWordRoundTrip` | mfds/gimbal/feetech_driver.py:92-95 | every v in [−32768, 32767] split by `write_word` is joined back to v by `read_word` |
| `Driver.SignedBoundary` | mfds/gimbal/feetech_driver.py:110-113 | raw 32767 reads as 32767, 32768 as −32768, 65535 as −1 signed; 32768 and 65535 read as themselves unsigned |
| `Driver.Ping` | mfds/gimbal/feetech_driver.py:126-129 | ping is true exactly when the parser returned a reply; false exactly when it returned `(None, None)`; ValueError exactly for an id outside a byte |
| `Driver.WriteByte` | mfds/gimbal/feetech_driver.py:87-90 | raises ValueError exactly when id, address or value is not a byte; returns the reply's error byte exactly when a reply came |
| `Driver.WriteWord` | mfds/gimbal/feetech_driver.py:92-97 | sends `[addr, v & 0xFF, (v >> 8) & 0xFF]`; raises ValueError exactly when id or address is not a byte; returns the reply's error byte exactly when a reply came |
| `Driver.ReadByte` | mfds/gimbal/feetech_driver.py:99-104 | a value exactly when a reply with exactly one parameter came; it is that parameter |
| `Driver.ReadWord` | mfds/gimbal/feetech_driver.py:106-115 | a value exactly when a reply with exactly two parameters came; it is in [−32768, 32767] and splits back into them |
| `Driver.ReadWordRaw` | mfds/gimbal/feetech_driver.py:117-124 | a value exactly when a reply with exactly two parameters came; it is in [0, 65535] and splits back into them |
| `Driver.PingAnswered` | mfds/gimbal/feetech_driver.py:126-129 | a servo that answers a ping with any well-formed reply makes ping true |
| `Driver.ReadWordAnswered` | mfds/gimbal/feetech_driver.py:106-124 | a servo that answers a read with the two bytes of v is read back as v, signed or unsigned as the range allows |
| `Driver.WriteByteAnswered` | mfds/gimbal/feetech_driver.py:87-90 | a servo that answers `write_byte` with a well-formed reply makes the call return that reply's error byte |
| `Driver.ReadByteAnswered` | mfds/gimbal/feetech_driver.py:99-104 | a servo that answers `read_byte` with a one-parameter reply carrying b is read back as b |
| `Driver.WriteByteFindsValidFrame` | mfds/gimbal/feetech_driver.py:54-90 | `write_byte` returns error byte e exactly when, within the budget, the first header for the id starts a complete frame with a matching checksum whose error byte is e |
| `Driver.ReadByteFindsValidFrame` | mfds/gimbal/feetech_driver.py:54-104 | `read_byte` returns b exactly when, within the budget, the first header for the id starts a complete frame with a matching checksum whose only parameter is b |
| `Driver.PingFindsValidFrame` | mfds/gimbal/feetech_driver.py:126-129 | ping is true exactly when, within the budget, the first header for the id starts a complete frame with a matching checksum |
| `Driver.AscendingDeterminedByElements` | mfds/gimbal/feetech_driver.py:131-137 | two ascending lists with the same elements are equal, so the scan result is determined by which ids answer |
| `Driver.Scan` | mfds/gimbal/feetech_driver.py:131-137 | when no ping raises, the result is strictly ascending and holds exactly the ids in [start, end] whose ping is true; otherwise the first raising ping's exception escapes |
| `Driver.ScanBus` | mfds/gimbal/feetech_driver.py:131-137 | `scan()` over its default ids 0..253 returns the ascending list of ids whose ping is true; it never raises ValueError, and raises IndexError exactly when some ping in the range does |
| `Gimbal.Clamp` | mfds/gimbal/gimbal_ctrl.py:79 | the result lies in [lo, hi]; an in-range value is unchanged; below the window gives lo, above gives hi |
| `Gimbal.ClampIdempotent` | mfds/gimbal/gimbal_ctrl.py:87 | clamping twice equals clamping once |
| `Gimbal.ClampMonotone` | mfds/gimbal/gimbal_ctrl.py:79 | clamping preserves the order of goals |
| `Gimbal.SetPanRaw` | mfds/gimbal/gimbal_ctrl.py:77-83 | with a driver, exactly one word write to the pan id's goal-position register of a value in [0, 4096], the goal itself when in range; without a driver, none |
| `Gimbal.SetTiltRaw` | mfds/gimbal/gimbal_ctrl.py:85-91 | with a driver, exactly one word write to the tilt id's goal-position register of a value in [1500, 3000], the goal itself when in range; without a driver, none |
| `Gimbal.Home` | mfds/gimbal/gimbal_ctrl.py:93-95 | with a driver, exactly two writes: 2048 to pan, then 2048 to tilt; without one, none |
| `Gimbal.SetAnglesRaw` | mfds/gimbal/gimbal_ctrl.py:59-75 | without a driver no writes; with one, a pan goal write of the pan goal clamped into [0, 4096], then a tilt goal write of the tilt goal clamped into [1500, 3000] |
| `Gimbal.TorqueWrites` | mfds/gimbal/gimbal_ctrl.py:43-57 | a torque byte to the pan servo, then to the tilt servo only if the pan write did not raise; nothing without a driver |
| `Gimbal.Init` | mfds/gimbal/gimbal_ctrl.py:15-49 | a connected controller starts by writing torque-enable 1 to the pan servo, then to the tilt servo exactly when the pan write did not raise; an unconnected one writes nothing |
| `Gimbal.DefaultInitEnablesBoth` | mfds/gimbal/gimbal_ctrl.py:15-47 | with the default ids 11 and 12, both torque-enable writes are issued unless the pan servo's reply raises IndexError |
| `Gimbal.GoalWritesReachTheWire` | mfds/gimbal/gimbal_ctrl.py:77-91 | with byte-sized servo ids, no goal write raises ValueError, and every goal value survives the word split and join |

## Left out

- `connect`, `disconnect` and everything pyserial does are left out: opening
  the port, `reset_input_buffer`, `in_waiting` and `write`. The `Link`
  stands in for them. The bytes answering a frame are fixed per frame, and
  the stale input is assumed cleared.
- The wall-clock timeout is left out. `fuel` bounds only the number of
  4-byte header reads. A window with fewer than four bytes left times out.
  A body read returns what has arrived.
- The `print` calls are left out. They have no effect on results.
- `set_angles` and `steps_per_deg` are left out. The float degree-to-step
  conversion is not modelled. `Gimbal.SetAnglesRaw` takes the
  converted raw steps.
- `Gimbal.SetPanRaw`, `Gimbal.SetTiltRaw` take an integer goal. The
  `int(raw_val)` truncation of a float goal toward zero is not modelled;
  `set_angles` and `home` both pass an int.
- Whether a goal write raised is not recorded. A goal write is logged
  whether or not the driver raises. `set_pan_raw` and `set_tilt_raw` catch
  that exception, and nothing after it depends on it.
- No simulated servo device is modelled, so there is no write-then-read
  round trip against device memory. `Driver.ReadWordAnswered` and
  `Driver.ReadByteAnswered` cover the read half, and the word round-trip lemmas cover the value.
- REG_WRITE, ACTION, SYNC_READ and SYNC_WRITE are declared as constants
  only. The driver never uses them.
- `Bytes.BitOr` models Python's `|` only for non-negative integers, the only
  case the driver uses it for.
- The calibration scripts are left out: `set_ids.py`, `set_midpoint.py`,
  `set_limits.py`, `test_midpoint.py`, `go_to_home.py` and `reset_motor.py`.
  So are `identify_ports.py`, the steering, lidar and infrared readers, and
  the vision experiments. They are interactive I/O or other libraries, not
  part of the protocol core.
