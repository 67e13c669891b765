# FSDataDriver packet protocol in Dafny

This project models the board-to-board protocol of `FSDataDriver.h`. That file
links the scientific (sensor) module and the main module of a flight
controller. It has four parts:

- **Frame encoders.** `ScientificDataPacket::dumpPacket` and
  `MainModuleDataPacket::dumpPacket` write a telemetry or status record into a
  32-byte buffer at fixed offsets. Byte 0 is a kind tag, 202 or 101.
- **Command table and decoder.** Seven 4-byte codes. `doPacketsMatch` compares
  four bytes. `parseCommandPacket` matches bytes 1..4 of any frame against the
  codes and never looks at the kind tag.
- **`SPIManager`.** `update` encodes telemetry into the DMA transmit buffer. It
  queues a transaction only when none is outstanding. Then it decodes every
  completed transaction into a latch, so the last writer wins. `getCommand`
  hands out the latch and resets it to `"null"`.
- **`SerialManager`.** `sendData` writes a status frame. `getCommand` reads
  32-byte groups while any byte is waiting, decodes each, and returns and
  records the last decode.

Modules:

- `Bytes` (bytes.dfy): little-endian two's-complement images of fixed-width
  integers and their decoding.
- `Packets` (packets.dfy): the records, their frames, the in-place encoders
  and decoders that prove the layouts.
- `Commands` (commands.dfy): the `Command` datatype, the code table,
  `DoPacketsMatch`, `ParseCommandPacket` and `Replay`. `Replay` is the
  last-writer-wins latch that both managers' drain loops compute.
- `Spi` (spi.dfy): the `DmaSlave` abstraction and the `SpiManager` class.
- `Serial` (serial.dfy): the `SerialPort` abstraction and the `SerialManager`
  class.

Modelling choices:

- Bytes are the newtype `Bytes.Byte` (0..255). `int64_t` and `int32_t` are the
  subset types `Int64` and `Int32`.
- `memcpy` of an integer field is modelled as its little-endian
  two's-complement image. The code copies native memory, and the ESP32 is
  little-endian.
- The Arduino `String` results become the datatype `Command`: `Fire`, `Fill`,
  `Purge`, `Abort`, `Standby`, `Keep`, `Calibrate`, `Null` (the string
  `"null"`) and `Empty`. `Empty` is the default-constructed empty `String`
  that `latestCommand` holds before its first assignment
  (FSDataDriver/FSDataDriver.h:185, :233). It differs from `"null"`, and the
  decoder never returns it.
- Each library the managers call is a small class holding what the manager
  observes:
  - The DMA SPI slave (`Spi.DmaSlave`) has the outstanding-transaction count
    `remained`, a FIFO `results` of received frames of completed
    transactions, the transmit buffer handed to the last `queue` (the
    array itself, since the driver keeps the pointer), and the frames the
    master has clocked out, `sent`.
  - The UART (`Serial.SerialPort`) has its unread `input`, the bytes written
    so far as `output`, and `emptyRead`, the byte `read()` yields when
    nothing is waiting.
- `DmaSlave.Complete` and `SerialPort.Receive` stand for the peer's actions.
  They exist only so that the client methods at the end of spi.dfy and
  serial.dfy (the "fire is delivered once", "last command wins" and
  "pending command lost" scenarios) can describe what arrives between calls.

Where the code departs from what its comments and layout evidently intend, the model follows the code:

- The code fills status bytes 17..31 from memory past a 5-byte array, not with
  zeros.
- The serial drain decodes a partial frame instead of waiting for 32 bytes.
- The latch starts as the empty string, which is not `"null"`.

The first two are under Findings below.

## Model

| member | source | states |
|---|---|---|
| `Bytes.SignedRoundTrip` | FSDataDriver/FSDataDriver.h:63-69 | the little-endian image that `memcpy` copies from an in-range signed integer decodes back to that integer |
| `Bytes.SignedInjective` | FSDataDriver/FSDataDriver.h:63-69 | two integers of the same width have the same byte image only if they are equal |
| `Packets.ScientificLayout` | FSDataDriver/FSDataDriver.h:60-72 | the telemetry frame has tag 202 at byte 0, `time` at 1..8, the four 32-bit fields at 9..12, 13..16, 17..20, 21..24 in declaration order, the two counters at 25 and 26, and zeros at 27..31 |
| `Packets.ScientificRoundTrip` | FSDataDriver/FSDataDriver.h:39-72 | every telemetry record is recovered from its frame by reading the fields back at their offsets |
| `Packets.ScientificFrameInjective` | FSDataDriver/FSDataDriver.h:60-72 | distinct telemetry records give distinct frames |
| `Packets.Int32BytesOfSmall` | FSDataDriver/FSDataDriver.h:63-66 | a 32-bit field in 0..65535 is sent little-endian: its low byte, its second byte, then two zero bytes |
| `Packets.Int64BytesOfSmall` | FSDataDriver/FSDataDriver.h:69 | a `time` in 0..65535 is sent as its low byte, its second byte, then six zero bytes |
| `Packets.ScientificFrameOfSmall` | FSDataDriver/FSDataDriver.h:60-72 | for a record whose integer fields are all in 0..65535, each byte of the 32-byte frame is given outright |
| `Packets.ScientificExample` | FSDataDriver/FSDataDriver.h:60-72 | the record (1000, 500, 300, 12, 34, 5, 9) is sent as exactly 202, 232 3 0 0 0 0 0 0, 244 1 0 0, 44 1 0 0, 12 0 0 0, 34 0 0 0, 5, 9, then five zero bytes |
| `Packets.DumpScientificPacket` | FSDataDriver/FSDataDriver.h:60-72 | with the copies in the source's order, the first 32 bytes of the buffer become the telemetry frame whatever they held before, and bytes past 31 are untouched |
| `Packets.DumpMainModulePacket` | FSDataDriver/FSDataDriver.h:74-83 | as written: bytes 0..11 hold the tag 101, the three status bytes and `time`; bytes 12..31 hold the 20 bytes of memory that start at the 5-byte `finalPacketPadding` |
| `Packets.StatusFrameAsWrittenAgrees` | FSDataDriver/FSDataDriver.h:74-83 | as written, bytes 0..16 agree with the intended frame, bytes 17..31 are the memory read past the padding array, and the frame is the intended one exactly when that memory is zero |
| `Packets.StatusPaddingCanBeNonzero` | FSDataDriver/FSDataDriver.h:82 | some contents of the memory past `finalPacketPadding` put a non-zero byte at offset 17 of the as-written status frame |
| `Packets.StatusLayout` | FSDataDriver/FSDataDriver.h:74-83 | the intended status frame has tag 101, the state, actuator and startup bytes at 1, 2 and 3, `time` at 4..11 and zeros at 12..31, and the record is recovered from it |
| `Packets.DumpMainModulePacketPadded` | FSDataDriver/FSDataDriver.h:74-83 | the corrected encoder leaves the intended status frame in bytes 0..31 and does not touch later bytes |
| `Commands.CommandCodesDistinct` | FSDataDriver/FSDataDriver.h:27-33 | the seven command codes are pairwise distinct |
| `Commands.MatchFrom` | FSDataDriver/FSDataDriver.h:87-94 | the comparison loop from index i answers true exactly when bytes i..3 agree |
| `Commands.DoPacketsMatch` | FSDataDriver/FSDataDriver.h:85-95 | true exactly when the first four bytes of the two arrays agree; later bytes are not read |
| `Commands.ParseCommandPacket` | FSDataDriver/FSDataDriver.h:97-131 | the decoder never answers the empty string, and a command answer means bytes 1..4 hold that command's code |
| `Commands.ParseRecognizes` | FSDataDriver/FSDataDriver.h:97-131 | a packet whose bytes 1..4 hold a command's code decodes to that command, whatever byte 0 and the bytes after 4 hold |
| `Commands.ParseNullIff` | FSDataDriver/FSDataDriver.h:102-130 | the decoder answers "null" exactly when bytes 1..4 are none of the seven codes |
| `Commands.ParseReadsOnlyCommandBytes` | FSDataDriver/FSDataDriver.h:99-100 | two packets with the same bytes 1..4 decode alike |
| `Commands.AllZeroFrameIsNull` | FSDataDriver/FSDataDriver.h:97-131 | a frame of 32 zeros decodes to "null" |
| `Commands.CommandFrameRoundTrip` | FSDataDriver/FSDataDriver.h:27-36 | a frame with tag 55, a command's code at 1..4 and zeros after decodes to that command |
| `Commands.TelemetryFrameCanDecodeAsFire` | FSDataDriver/FSDataDriver.h:97-104 | since the kind tag is not checked, some telemetry frame (one whose `time` has the fire code as its low four bytes) decodes as "fire" |
| `Commands.ReplayIsLastWriter` | FSDataDriver/FSDataDriver.h:168-173 | decoding frames in arrival order into the latch leaves the decode of the last frame, or the old latch when there is none |
| `Commands.ReplayAppend` | FSDataDriver/FSDataDriver.h:168-173 | one more frame overwrites whatever the latch held |
| `Commands.PendingCommandOverwritten` | FSDataDriver/FSDataDriver.h:168-173 | a pending command is replaced by "null" when a frame carrying no command arrives before the latch is read |
| `Spi.SpiManager.constructor` | FSDataDriver/FSDataDriver.h:137-152 | the manager starts with a 32-byte transmit buffer and its latch holding the empty string |
| `Spi.SpiManager.Update` | FSDataDriver/FSDataDriver.h:155-174 | the transmit buffer becomes the telemetry frame; a transaction over that buffer is queued only when none was outstanding, and an outstanding one is left as it was, so one this manager queued still points at `txBuf` and sends the frame just written; nothing is clocked out; every completed transaction is consumed; the latch is the replay of their frames in arrival order over its old value |
| `Spi.SpiManager.GetCommand` | FSDataDriver/FSDataDriver.h:176-182 | returns the latch and leaves it "null", so an immediate second call returns "null" |
| `Serial.SerialManager.constructor` | FSDataDriver/FSDataDriver.h:195-198 | the manager starts with its latch holding the empty string |
| `Serial.SerialManager.SendData` | FSDataDriver/FSDataDriver.h:200-205 | appends exactly the as-written status frame to the output, with bytes 17..31 taken from the memory past the padding array, and leaves the input alone |
| `Serial.SerialManager.SendDataPadded` | FSDataDriver/FSDataDriver.h:200-205 | over the corrected encoder, appends exactly the zero-padded status frame to the output and leaves the input alone |
| `Serial.NextFrame` | FSDataDriver/FSDataDriver.h:217-222 | byte k of a group of 32 reads is input byte k while input lasts, and the empty-stream value after that |
| `Serial.SerialManager.ReadPacket` | FSDataDriver/FSDataDriver.h:217-222 | the inner loop fills the buffer with the next group of 32 reads, consumes at most 32 input bytes, and always ends with `i` equal to 32 |
| `Serial.SerialManager.GetCommand` | FSDataDriver/FSDataDriver.h:209-230 | as written: consumes all waiting input; the answer is the replay of its 32-byte groups (the last one completed with the empty-stream value) over "null"; `latestCommand` equals the answer |
| `Serial.SerialFramesOfWholeInput` | FSDataDriver/FSDataDriver.h:214-227 | on an input of whole frames the as-written drain reads exactly the whole 32-byte groups |
| `Serial.SerialDrainOfWholeFrames` | FSDataDriver/FSDataDriver.h:209-230 | on k·32 waiting bytes the drain answers "null" for k = 0 and otherwise the decode of the last 32 bytes |
| `Serial.SerialDrainOfTwoFrames` | FSDataDriver/FSDataDriver.h:214-227 | of two frames received back to back, the answer is the decode of the second |
| `Serial.ShortFrameIsDecoded` | FSDataDriver/FSDataDriver.h:214-222 | as written, the first 31 bytes of any frame decode as the whole frame would, whatever `read()` yields for the missing byte |
| `Serial.SerialManager.GetCommandWholeFrames` | FSDataDriver/FSDataDriver.h:209-230 | the corrected drain consumes only whole 32-byte groups, leaves the partial remainder waiting, and answers the replay of the whole groups over "null" |
| `Serial.WholeFramesDrainResult` | FSDataDriver/FSDataDriver.h:214-227 | the corrected drain answers "null" when fewer than 32 bytes wait and otherwise the decode of the last complete group |
| `Serial.PartialFrameIsHeldBack` | FSDataDriver/FSDataDriver.h:214 | with the corrected guard, fewer than 32 waiting bytes give "null" |

## Left out

- Hardware set-up is not modelled: the DMA buffer allocation and slave configuration (`allocDMABuffer`, `setDataMode`, `setMaxTransferSize`, `begin`), and the UART's `begin` with its baud rate and pins. These are library calls whose code is not part of this model.
- DMA and full-duplex timing, and concurrency between master and slave, are not modelled. Each completed transaction is modelled as delivering its own received frame, read when the drain loop reaches it. In the driver, every transaction's DMA writes land in the one shared `spi_slave_rx_buf`.
- `Spi.SpiManager.Update`: the receive buffer passed to `queue` is not modelled, for the reason above. The transmit buffer is modelled by reference. `Spi.DmaSlave` keeps only the buffer of the last `queue`, which is enough because the manager queues one transaction over one buffer at a time.
- `Serial.SerialManager.GetCommand`: the model drains the input as it stood when the call began. Bytes that reach the UART during the call are not modelled, although the source re-tests `available()` after every group (FSDataDriver/FSDataDriver.h:214) and would drain them in the same call. Arrivals are modelled only between calls, through `SerialPort.Receive`. The same holds for `Serial.SerialManager.GetCommandWholeFrames`.
- Blocking is not modelled. What `read()` yields on an empty stream is the parameter `SerialPort.emptyRead`, because the UART library is not part of this model.
- The namespace-level `spi_slave_tx_buf`/`spi_slave_rx_buf` (FSDataDriver/FSDataDriver.h:21-22) are shadowed by `SPIManager`'s own members (FSDataDriver/FSDataDriver.h:187-188) and are left out. The managers have no `slave` or `SerialPort` member; they use the namespace-level objects (FSDataDriver/FSDataDriver.h:15, :17). The model passes that object to each manager's constructor, so managers built over one object share it, as in the source.
- `initialPacketPadding` is never used by the code and is left out.
- Arduino `String` internals are not modelled; the `Command` datatype stands for the eight strings the code produces.
- Big-endian targets are not modelled. Integer fields are encoded little-endian, as on the ESP32.

## Findings

| source | as written | input that shows it | evidently intended | confidence | as-written member | corrected member |
|---|---|---|---|---|---|---|
| FSDataDriver/FSDataDriver.h:82 | `memcpy(buffer + 12, finalPacketPadding, 20)` copies 20 bytes from a 5-byte array. Frame bytes 17..31 are whatever memory follows the array. | any status record, with a non-zero byte in the memory right after `finalPacketPadding`: frame byte 17 is non-zero | twenty zero bytes at 12..31, as the "Padding to get to 32 bytes" comment and the layout say | high (out-of-bounds read of a 5-byte array); not executed | `Packets.StatusPaddingCanBeNonzero` | `Packets.DumpMainModulePacketPadded` |
| FSDataDriver/FSDataDriver.h:214-222 | the drain loop runs while at least one byte is available, then reads 32 bytes | 31 bytes of a frame whose bytes 1..4 hold the fire code are waiting: the call answers "fire" at once, with the missing byte being whatever `read()` yields on an empty stream | read a group only when 32 bytes are available, so a partial frame is never decoded | medium (assumes `read()` returns instead of blocking on an empty stream, and that no byte arrives during the call); not executed | `Serial.ShortFrameIsDecoded` | `Serial.SerialManager.GetCommandWholeFrames` |
