# Air Mouse server: wire protocol and event dispatch

A Dafny model of the desktop side of the Air Mouse remote pointer. A phone
sends small UDP datagrams. The server answers discovery requests and turns
move, press and release packets into `MouseEvent` records. It queues those
records, and a second thread replays them on the local pointer.

The model covers the server's pure logic:

- `Bytes` (`bytes.dfy`): big-endian unsigned and two's complement readings of
  byte strings, as `java.nio.ByteBuffer` and Java's `byte`/`int`/`long` use
  them. It also defines the encoders these readings invert, and 32-bit
  wrap-around.
- `MouseEvents` (`mouse_event.dfy`): the `MouseEvent` record, its type tags and
  its factories. A tagged view (`PointerEvent`) recovers each record's kind
  from its tag.
- `Protocol` (`protocol.dfy`): protocol constants and the button-code table
  `ConvertButtonMask`. `Parse` reads a datagram field by field, as the receive
  loop does. `Encode` lays a packet out as a conforming controller sends it.
- `EventQueue` (`event_queue.dfy`): the hand-off between the two threads, as an
  unbounded FIFO sequence. Any interleaving of pushes and takes is a `Play`.
- `Listener` (`listener.dfy`): what one datagram does (`Decode`, `Receive`),
  and the receive loop as a fold over arriving datagrams.
- `Dispatch` (`dispatch.dfy`): the motion scale, the staleness test and the
  per-event switch. The pointer is driven through an `Action` value.

Datagrams are `seq<byte>`, where `byte` is an integer in `0..255`. A float
field is its raw 32-bit IEEE 754 pattern (`FloatBits`) and is never
interpreted. Java `int` and `long` are the bounded subset types `int32` and
`int64`.

Points where the code's behaviour is easy to misread:

- A Move, Press or Release datagram too short for its fields makes a
  `ByteBuffer` getter throw `BufferUnderflowException`. The receive loop
  catches only `IOException`, so the exception ends the receiver thread,
  whereas a datagram with an unknown type byte is simply ignored.
  `Listener.Run` stops; `Listener.RunTolerant` is the corrected loop (see
  Findings).
- The version byte of a Discover packet is a signed Java `byte`. A client
  version byte of `0x80..0xFF` is negative and is therefore answered.
- A Move packet needs at least 17 bytes, not exactly 17. Press and Release need
  at least 13. Extra bytes are ignored.
- The button table maps wire code 2 (right) to `InputEvent.BUTTON3_MASK` (4) and
  wire code 3 (middle) to `InputEvent.BUTTON3_DOWN_MASK` (4096). AWT reads both
  masks as its third button, so the middle button presses the right one. The
  receive loop keeps these values as the code has them;
  `Protocol.ConvertButtonMaskCorrected` is the corrected table (see Findings).
- The staleness filter compares against a `lastTime` that is set to 0 at the
  top of every iteration. It therefore only rejects events whose timestamp is
  not positive (see Findings).

## Model

| member | source | states |
|---|---|---|
| `MouseEvents.CreateMoveEvent` | Phone-Mouse-master/AirMouseServer/src/com/raphaelyu/airmouse/MouseEvent.java:16-23 | the event has tag `TYPE_MOVE` and the given timestamp, x and y; `button` keeps its default 0 |
| `MouseEvents.CreatePressEvent` | Phone-Mouse-master/AirMouseServer/src/com/raphaelyu/airmouse/MouseEvent.java:25-31 | the event has tag `TYPE_PRESS` and the given timestamp and button; x and y keep the bits of `0.0f` |
| `MouseEvents.CreateReleaseEvent` | Phone-Mouse-master/AirMouseServer/src/com/raphaelyu/airmouse/MouseEvent.java:33-39 | the event has tag `TYPE_RELEASE` and the given timestamp and button; x and y keep the bits of `0.0f` |
| `MouseEvents.CreateWheelEvent` | Phone-Mouse-master/AirMouseServer/src/com/raphaelyu/airmouse/MouseEvent.java:41-46 | the wheel factory never yields an event; it always fails |
| `MouseEvents.TypeTagsDistinct` | Phone-Mouse-master/AirMouseServer/src/com/raphaelyu/airmouse/MouseEvent.java:5-8 | the move, press, release and touch tags are pairwise distinct |
| `MouseEvents.KindOf` | Phone-Mouse-master/AirMouseServer/src/com/raphaelyu/airmouse/MouseEvent.java:5-7 | a record's kind is recovered from its tag, exactly when the tag is one of the three factory tags, and the kind keeps the record's timestamp |
| `MouseEvents.KindOfCreate` | Phone-Mouse-master/AirMouseServer/src/com/raphaelyu/airmouse/MouseEvent.java:16-39 | reading back a factory-built record gives the arguments it was built from; the fields its factory does not set keep their defaults |
| `MouseEvents.CreateOfKindOf` | Phone-Mouse-master/AirMouseServer/src/com/raphaelyu/airmouse/MouseEvent.java:48-55 | a record with a known tag and default unused fields is exactly what its factory builds, so the factories produce every such record |
| `Bytes.SignedOf` | Phone-Mouse-master/AirMouseServer/src/com/raphaelyu/airmouse/Server.java:84 | a signed big-endian reading lies in the signed range of its width; it is negative exactly when the unsigned value reaches half the range; it differs from the unsigned value by 0 or by the full range |
| `Bytes.ByteValue` | Phone-Mouse-master/AirMouseServer/src/com/raphaelyu/airmouse/Server.java:69 | a Java `byte` widens to a value in -128..127, namely the one-byte two's complement reading |
| `Bytes.Wrap32` | Phone-Mouse-master/AirMouseServer/src/com/raphaelyu/airmouse/Server.java:151-152 | `int` addition yields the exact sum modulo 2^32, and the sum itself when it fits |
| `Bytes.BeUintOfBeBytes` | Phone-Mouse-master/AirMouseServer/src/com/raphaelyu/airmouse/Server.java:84-86 | reading back the big-endian bytes of a number gives the number |
| `Bytes.BeBytesOfBeUint` | Phone-Mouse-master/AirMouseServer/src/com/raphaelyu/airmouse/Server.java:84-86 | re-encoding a big-endian reading gives back the bytes read |
| `Bytes.BeUintZero` | Phone-Mouse-master/AirMouseServer/src/com/raphaelyu/airmouse/Server.java:94 | a big-endian number is zero exactly when all its bytes are zero |
| `Protocol.ConvertButtonMask` | Phone-Mouse-master/AirMouseServer/src/com/raphaelyu/airmouse/Server.java:181-192 | the result is -1 exactly when the code is not left (1), right (2) or middle (3); otherwise it is a positive mask |
| `Protocol.MiddleButtonPressesRight` | Phone-Mouse-master/AirMouseServer/src/com/raphaelyu/airmouse/Server.java:181-190 | as written, the middle and right codes both drive AWT's third (right) button |
| `Protocol.ConvertButtonMaskCorrected` | Phone-Mouse-master/AirMouseServer/src/com/raphaelyu/airmouse/Server.java:181-192 | the corrected table: -1 exactly off the three codes; otherwise a positive mask for the physical button the code names (left 1, middle 2, right 3) |
| `Protocol.CorrectedButtonsDistinct` | Phone-Mouse-master/AirMouseServer/src/com/raphaelyu/airmouse/Server.java:181-192 | with the corrected table, two codes drive the same physical button exactly when they are the same code; left and right keep their masks |
| `Protocol.ConvertButtonMaskInjective` | Phone-Mouse-master/AirMouseServer/src/com/raphaelyu/airmouse/Server.java:181-192 | the mask determines the wire code it came from, so the three buttons get three distinct masks |
| `Protocol.GetPutLong` | Phone-Mouse-master/AirMouseServer/src/com/raphaelyu/airmouse/Server.java:84 | `getLong` (`Protocol.GetLong`) reads `t` at an offset exactly when the 8 bytes there are the big-endian two's complement encoding of `t` |
| `Protocol.GetPutInt` | Phone-Mouse-master/AirMouseServer/src/com/raphaelyu/airmouse/Server.java:94 | `getInt` (`Protocol.GetInt`) reads `i` at an offset exactly when the 4 bytes there encode `i` |
| `Protocol.GetPutFloatBits` | Phone-Mouse-master/AirMouseServer/src/com/raphaelyu/airmouse/Server.java:85-86 | `getFloat` (`Protocol.GetFloatBits`) reads the bit pattern `f` exactly when the 4 bytes there are `f` big-endian |
| `Protocol.Parse` | Phone-Mouse-master/AirMouseServer/src/com/raphaelyu/airmouse/Server.java:61-113 | an empty buffer yields no packet; a getter underflows exactly for a Move shorter than 17 bytes or a Press/Release shorter than 13; an unknown type byte is never one the loop handles |
| `Protocol.ParseEncode` | Phone-Mouse-master/AirMouseServer/src/com/raphaelyu/airmouse/Server.java:66-113 | parsing an encoded packet, followed by any bytes, gives the packet back (a bare Discover must end the datagram) |
| `Protocol.EncodeParse` | Phone-Mouse-master/AirMouseServer/src/com/raphaelyu/airmouse/Server.java:66-113 | a datagram that parses starts with the encoding of its packet, so the bytes after it are never read |
| `Listener.Handle` | Phone-Mouse-master/AirMouseServer/src/com/raphaelyu/airmouse/Server.java:65-114 | the switch on a fully read packet never underflows: it replies, enqueues one event, or does nothing |
| `Listener.Decode` | Phone-Mouse-master/AirMouseServer/src/com/raphaelyu/airmouse/Server.java:61-113 | an empty datagram does nothing; the reply is sent exactly for `[0x01, v, ...]` with `v` in `0x00..0x02` or `0x80..0xFF`, and it is the one byte `0x02`; the outcome is malformed exactly for a short Move/Press/Release; an unknown type byte (including `0x02`) does nothing; an enqueued event's tag matches the packet type |
| `Listener.Receive` | Phone-Mouse-master/AirMouseServer/src/com/raphaelyu/airmouse/Server.java:50-60 | cutting a datagram to the 64-byte receive buffer never changes its outcome |
| `Listener.DecodeDiscover` | Phone-Mouse-master/AirMouseServer/src/com/raphaelyu/airmouse/Server.java:66-81 | a Discover datagram gets the reply exactly when it has a version byte whose signed value is at most 2; a bare `[0x01]` gets nothing |
| `Listener.DecodeMove` | Phone-Mouse-master/AirMouseServer/src/com/raphaelyu/airmouse/Server.java:82-89 | a Move datagram of at least 17 bytes enqueues one move event whose timestamp, x and y are encoded big-endian at bytes 1..8, 9..12 and 13..16 |
| `Listener.DecodeEncodedMove` | Phone-Mouse-master/AirMouseServer/src/com/raphaelyu/airmouse/Server.java:82-89 | the controller's Move datagram for (t, x, y), with any trailing bytes, enqueues exactly `createMoveEvent(t, x, y)` |
| `Listener.AcceptedButtonCode` | Phone-Mouse-master/AirMouseServer/src/com/raphaelyu/airmouse/Server.java:94-95 | the `int` at bytes 9..12 maps to a mask exactly when bytes 9..11 are zero and byte 12 is 1, 2 or 3, and the `int` is then byte 12 |
| `Listener.DecodeButton` | Phone-Mouse-master/AirMouseServer/src/com/raphaelyu/airmouse/Server.java:91-110 | a Press/Release datagram of at least 13 bytes enqueues one event of its own kind exactly when bytes 9..12 hold a known button code, with the timestamp of bytes 1..8 and that code's mask; otherwise nothing happens |
| `Listener.DecodeEncodedButton` | Phone-Mouse-master/AirMouseServer/src/com/raphaelyu/airmouse/Server.java:91-110 | the controller's Press/Release datagram enqueues the press/release event for its timestamp and mapped button, or nothing when the code maps to -1 |
| `Listener.Step` | Phone-Mouse-master/AirMouseServer/src/com/raphaelyu/airmouse/Server.java:55-118 | one pass of the receive loop as written: the thread keeps running exactly when it was running and the datagram does not underflow; a running thread appends the datagram's event to the queue and its reply to the replies sent, a stopped one changes nothing |
| `Listener.Run` | Phone-Mouse-master/AirMouseServer/src/com/raphaelyu/airmouse/Server.java:55-118 | the receive loop as written is still running after a batch exactly when no datagram in it underflowed; it only ever appends to the queue and to the replies sent |
| `Listener.StoppedReceiverIgnores` | Phone-Mouse-master/AirMouseServer/src/com/raphaelyu/airmouse/Server.java:116-118 | once the receiver thread has ended, later datagrams change nothing |
| `Listener.RunAgreesWhileWellFormed` | Phone-Mouse-master/AirMouseServer/src/com/raphaelyu/airmouse/Server.java:55-118 | while no datagram underflows, the receive loop as written behaves as the corrected loop |
| `Listener.RunHaltsAtUnderflow` | Phone-Mouse-master/AirMouseServer/src/com/raphaelyu/airmouse/Server.java:55-118 | as written, the first underflowing datagram stops the receiver; the queue and the replies are those of the datagrams before it |
| `Listener.ShortPacketStopsReceiver` | Phone-Mouse-master/AirMouseServer/src/com/raphaelyu/airmouse/Server.java:84-86 | a 1-byte Move followed by a valid Move: the loop as written queues nothing, the corrected loop queues the second event |
| `Listener.RunTolerantCollects` | Phone-Mouse-master/AirMouseServer/src/com/raphaelyu/airmouse/Server.java:55-118 | the corrected loop appends every event the datagrams carry, in arrival order, and sends every reply they call for; each datagram is handled on its own |
| `EventQueue.Offer` | Phone-Mouse-master/AirMouseServer/src/com/raphaelyu/airmouse/Server.java:88 | offering keeps the queued items in place and adds the new one at the tail |
| `EventQueue.Take` | Phone-Mouse-master/AirMouseServer/src/com/raphaelyu/airmouse/Server.java:144 | taking yields nothing exactly on an empty queue (the caller blocks); otherwise it yields the head and the rest |
| `EventQueue.PlayIsFifo` | Phone-Mouse-master/AirMouseServer/src/com/raphaelyu/airmouse/Server.java:142-144 | under any interleaving of offers and takes, the items taken followed by those still queued are exactly the items offered, in order |
| `EventQueue.DrainDeliversAll` | Phone-Mouse-master/AirMouseServer/src/com/raphaelyu/airmouse/Server.java:142-144 | taking as many times as there are queued items delivers them all in queue order and empties the queue |
| `Dispatch.MotionScale` | Phone-Mouse-master/AirMouseServer/src/com/raphaelyu/airmouse/Server.java:124-128 | the scale is `min(width, height) / 7` truncated toward zero: for a non-negative minimum `m`, `7r <= m < 7r + 7` |
| `Dispatch.WrapOffset` | Phone-Mouse-master/AirMouseServer/src/com/raphaelyu/airmouse/Server.java:151-152 | the offset added to the cursor position is recovered from the wrapped sum |
| `Dispatch.Act` | Phone-Mouse-master/AirMouseServer/src/com/raphaelyu/airmouse/Server.java:146-161 | a Move acts exactly when the cursor position is available, and its target lies at the scaled x/y offset from the cursor in wrapping `int` arithmetic; Press and Release forward the event's mask unchanged; other tags do nothing |
| `Dispatch.MoveTargetExact` | Phone-Mouse-master/AirMouseServer/src/com/raphaelyu/airmouse/Server.java:151-152 | the wrapped offset from the cursor determines the target exactly: it is the wrapped sum of offset and cursor position |
| `Dispatch.StepAsWritten` | Phone-Mouse-master/AirMouseServer/src/com/raphaelyu/airmouse/Server.java:142-162 | an event acts only if its timestamp is positive; a Move acts exactly when the cursor position is available, and then targets the position at the scaled x/y offset from the cursor, which `Dispatch.MoveTargetExact` shows is exactly their wrapped sum; Press and Release forward the event's mask unchanged; other tags do nothing |
| `Dispatch.RunAsWrittenMemoryless` | Phone-Mouse-master/AirMouseServer/src/com/raphaelyu/airmouse/Server.java:142-163 | as written (`Dispatch.RunAsWritten`), each event's action depends on that event alone, never on earlier events |
| `Dispatch.StaleEventReplayed` | Phone-Mouse-master/AirMouseServer/src/com/raphaelyu/airmouse/Server.java:143-145 | a press stamped 5 then one stamped 3: the loop as written applies both, the corrected loop drops the older one |
| `Dispatch.RunMonotonic` | Phone-Mouse-master/AirMouseServer/src/com/raphaelyu/airmouse/Server.java:143-145 | the corrected loop acts on an event exactly when it is newer than the initial `lastTime` and than every earlier event (whether or not an earlier event's action did anything), and then performs that event's own action; every other entry is idle. Hence whatever is acted on lies above `lastTime` with strictly increasing timestamps |
| `Dispatch.IdleEventRaisesThreshold` | Phone-Mouse-master/AirMouseServer/src/com/raphaelyu/airmouse/Server.java:143-161 | a Move with no pointer info still raises the threshold, so a later, older Press is discarded |
| `Dispatch.MonotonicAgreesOnOrderedStreams` | Phone-Mouse-master/AirMouseServer/src/com/raphaelyu/airmouse/Server.java:143-145 | for positive, strictly increasing timestamps, the corrected loop acts exactly as the loop as written |

## Left out

- Sockets: opening and binding the `DatagramChannel`, `receive` and `send`, and
  the swallowed `IOException`s. A datagram is an input `seq<byte>` and a reply
  is an output value. `SERVER_PORT` is only a constant.
- AWT: `Robot`, `MouseInfo` and `Toolkit` are foreign calls. The screen size
  and each cursor reading are parameters (`Tick.cursor` is `None` when
  `getPointerInfo` returns null). The pointer calls become `Action` values.
- Float arithmetic: `(int) (event.x * mMaxMotionDist)` is the caller-supplied
  `Scaler`. Only the `int` addition to the cursor position is modelled.
- Threads and blocking: the receiver/dispatcher split and the `EventQueue`
  singleton. `EventQueue.java` is not part of this model. The queue is a plain
  unbounded FIFO `seq`, and a blocked `take` is a take that yields nothing.
- Debug and start-up printing (including the unconditional prints of the type
  byte and version byte), `main`, the bind-failure message, and the
  commented-out touch event. `TYPE_TOUCH` appears only as a constant.
- Dispatch.MotionScale: the Java code divides in `float` (`/= 7.0f`). The model
  divides integers exactly, which gives the same value whenever
  `|min(width, height)| < 2^24`, as it is for any real screen.

## Findings

| source | as written | input that shows it | evidently intended | confidence | as-written member | corrected member |
|---|---|---|---|---|---|---|
| Phone-Mouse-master/AirMouseServer/src/com/raphaelyu/airmouse/Server.java:84-117 | a Move/Press/Release datagram too short for its fields throws `BufferUnderflowException`, which the `catch (IOException)` does not catch, so the receiver thread ends | the 1-byte datagram `[0x10]`, then any valid Move | drop the bad datagram and keep receiving, as is done for unknown types | high; not executed | `Listener.ShortPacketStopsReceiver` | `Listener.RunTolerantCollects` |
| Phone-Mouse-master/AirMouseServer/src/com/raphaelyu/airmouse/Server.java:187-188 | wire code 3 (middle) maps to `InputEvent.BUTTON3_DOWN_MASK`, which AWT's `Robot.mousePress` reads as its third (right) button, the same one code 2 drives | a Press with button code 3 | map code 3 to `InputEvent.BUTTON2_MASK`, the middle button | medium; not executed | `Protocol.MiddleButtonPressesRight` | `Protocol.ConvertButtonMaskCorrected` |
| Phone-Mouse-master/AirMouseServer/src/com/raphaelyu/airmouse/Server.java:143-145 | `lastTime` is reset to 0 at the top of each iteration and never updated, so an event older than one already applied is still applied | a press stamped 5, then a press stamped 3 | keep `lastTime` across iterations and raise it to the timestamp of each event that passes the filter | medium; not executed | `Dispatch.StaleEventReplayed` | `Dispatch.RunMonotonic` |
