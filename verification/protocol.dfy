/** The wire format: protocol constants, the button-code table, and the layout
    of each packet type. `Parse` reads a datagram the way the receiver's
    `ByteBuffer` getters do; `Encode` lays a packet out the way a conforming
    controller sends it, and the two are proved inverse. */
module Protocol {
  import opened Bytes
  import opened Wrappers

  const PROTOCOL_VERSION: int32 := 2
  const SERVER_PORT: int := 5329
  /** Size of the receive buffer; the transport drops whatever does not fit. */
  const MAX_PACKET_LENGTH: nat := 64

  const PACKET_TYPE_DISCOVER: byte := 0x01
  const PACKET_TYPE_REPLY: byte := 0x02
  const PACKET_TYPE_MOVE: byte := 0x10
  const PACKET_TYPE_PRESS: byte := 0x11
  const PACKET_TYPE_RELEASE: byte := 0x12

  const PACKET_MOUSE_BUTTON_LEFT: int32 := 1
  const PACKET_MOUSE_BUTTON_RIGHT: int32 := 2
  const PACKET_MOUSE_BUTTON_MIDDLE: int32 := 3

  /** Values of the java.awt.event.InputEvent masks the button table uses. */
  const BUTTON1_MASK: int32 := 16
  const BUTTON3_MASK: int32 := 4
  const BUTTON3_DOWN_MASK: int32 := 4096
  /** The other InputEvent button masks, which the table does not use. */
  const BUTTON2_MASK: int32 := 8
  const BUTTON1_DOWN_MASK: int32 := 1024
  const BUTTON2_DOWN_MASK: int32 := 2048

  /** Bytes needed by each packet type: type byte, 8-byte timestamp, then two
      4-byte floats (move) or one 4-byte button code (press, release). */
  const MOVE_PACKET_LENGTH: nat := 1 + 8 + 4 + 4
  const BUTTON_PACKET_LENGTH: nat := 1 + 8 + 4

  /** Maps a wire button code to the AWT mask the pointer is driven with, or -1
      for a code outside the protocol. */
  function ConvertButtonMask(code: int32): (r: int32)
    ensures r == -1 <==>
      code != PACKET_MOUSE_BUTTON_LEFT && code != PACKET_MOUSE_BUTTON_RIGHT && code != PACKET_MOUSE_BUTTON_MIDDLE
    ensures r != -1 ==> r > 0
  {
    if code == PACKET_MOUSE_BUTTON_LEFT then BUTTON1_MASK
    else if code == PACKET_MOUSE_BUTTON_RIGHT then BUTTON3_MASK
    else if code == PACKET_MOUSE_BUTTON_MIDDLE then BUTTON3_DOWN_MASK
    else -1
  }

  /** Reads the wire code back from a mask the table produces. */
  function WireCodeOf(mask: int32): Option<int32>
  {
    if mask == BUTTON1_MASK then Some(PACKET_MOUSE_BUTTON_LEFT)
    else if mask == BUTTON3_MASK then Some(PACKET_MOUSE_BUTTON_RIGHT)
    else if mask == BUTTON3_DOWN_MASK then Some(PACKET_MOUSE_BUTTON_MIDDLE)
    else None
  }

  /** The table is injective: the mask determines the code it came from, so the
      three protocol buttons get three distinct masks. */
  lemma ConvertButtonMaskInjective(code: int32)
    requires ConvertButtonMask(code) != -1
    ensures WireCodeOf(ConvertButtonMask(code)) == Some(code)
  {
  }

  /** The physical button AWT's `Robot.mousePress` drives for a single-button
      mask: it accepts both the old `BUTTONn_MASK` and the extended
      `BUTTONn_DOWN_MASK` spelling of button n; 0 for any other mask. */
  function PhysicalButton(mask: int32): (r: nat)
    ensures r == 1 <==> mask == BUTTON1_MASK || mask == BUTTON1_DOWN_MASK
    ensures r == 2 <==> mask == BUTTON2_MASK || mask == BUTTON2_DOWN_MASK
    ensures r == 3 <==> mask == BUTTON3_MASK || mask == BUTTON3_DOWN_MASK
    ensures r <= 3
  {
    if mask == BUTTON1_MASK || mask == BUTTON1_DOWN_MASK then 1
    else if mask == BUTTON2_MASK || mask == BUTTON2_DOWN_MASK then 2
    else if mask == BUTTON3_MASK || mask == BUTTON3_DOWN_MASK then 3
    else 0
  }

  /** The table as written sends the phone's middle button to the same physical
      button as its right button: AWT's third button. */
  lemma MiddleButtonPressesRight()
    ensures PhysicalButton(ConvertButtonMask(PACKET_MOUSE_BUTTON_MIDDLE)) == 3
    ensures PhysicalButton(ConvertButtonMask(PACKET_MOUSE_BUTTON_RIGHT)) == 3
  {
  }

  /** The AWT button a protocol button code names: left is button 1, middle
      button 2, right button 3. */
  function IntendedButton(code: int32): nat
  {
    if code == PACKET_MOUSE_BUTTON_LEFT then 1
    else if code == PACKET_MOUSE_BUTTON_MIDDLE then 2
    else if code == PACKET_MOUSE_BUTTON_RIGHT then 3
    else 0
  }

  /** The button table as evidently intended: the middle code maps to AWT's
      second button. */
  function ConvertButtonMaskCorrected(code: int32): (r: int32)
    ensures r == -1 <==>
      code != PACKET_MOUSE_BUTTON_LEFT && code != PACKET_MOUSE_BUTTON_RIGHT && code != PACKET_MOUSE_BUTTON_MIDDLE
    ensures r != -1 ==> r > 0 && PhysicalButton(r) == IntendedButton(code)
  {
    if code == PACKET_MOUSE_BUTTON_LEFT then BUTTON1_MASK
    else if code == PACKET_MOUSE_BUTTON_RIGHT then BUTTON3_MASK
    else if code == PACKET_MOUSE_BUTTON_MIDDLE then BUTTON2_MASK
    else -1
  }

  /** With the corrected table, the three protocol buttons drive three
      different physical buttons, and left and right are as written. */
  lemma CorrectedButtonsDistinct(a: int32, b: int32)
    requires ConvertButtonMaskCorrected(a) != -1 && ConvertButtonMaskCorrected(b) != -1
    ensures PhysicalButton(ConvertButtonMaskCorrected(a)) == PhysicalButton(ConvertButtonMaskCorrected(b)) <==> a == b
    ensures a != PACKET_MOUSE_BUTTON_MIDDLE ==> ConvertButtonMaskCorrected(a) == ConvertButtonMask(a)
  {
  }

  /** A packet as the receiver understands it. `Discover` carries the client's
      version byte when the datagram has one; `Unknown` is any other type byte,
      including the reply type, whose packets the server never handles. */
  datatype Packet =
    | Discover(version: Option<byte>)
    | Move(timestamp: int64, x: FloatBits, y: FloatBits)
    | Press(timestamp: int64, code: int32)
    | Release(timestamp: int64, code: int32)
    | Unknown(tag: byte)

  predicate KnownTag(tag: byte)
  {
    tag == PACKET_TYPE_DISCOVER || tag == PACKET_TYPE_MOVE || tag == PACKET_TYPE_PRESS || tag == PACKET_TYPE_RELEASE
  }

  /** An `Unknown` packet never carries a tag the receiver handles. */
  predicate WellFormed(p: Packet)
  {
    p.Unknown? ==> !KnownTag(p.tag)
  }

  /** How reading a datagram ends: nothing to read, a getter that ran past the
      end of the buffer (Java's BufferUnderflowException), or a packet. */
  datatype ParseResult = NoData | Truncated(tag: byte) | Parsed(packet: Packet)

  /** `ByteBuffer.getLong` at byte offset `at`: eight bytes, big-endian, signed. */
  function GetLong(d: seq<byte>, at: nat): int64
    requires at + 8 <= |d|
  {
    WidthBounds();
    SignedOf(d[at..at + 8])
  }

  /** `ByteBuffer.getInt` at byte offset `at`: four bytes, big-endian, signed. */
  function GetInt(d: seq<byte>, at: nat): int32
    requires at + 4 <= |d|
  {
    WidthBounds();
    SignedOf(d[at..at + 4])
  }

  /** `ByteBuffer.getFloat` at byte offset `at`, kept as its raw bit pattern. */
  function GetFloatBits(d: seq<byte>, at: nat): FloatBits
    requires at + 4 <= |d|
  {
    WidthBounds();
    BeUint(d[at..at + 4])
  }

  function PutLong(t: int64): (r: seq<byte>)
    ensures |r| == 8
  {
    WidthBounds();
    SignedBytes(t, 8)
  }

  function PutInt(i: int32): (r: seq<byte>)
    ensures |r| == 4
  {
    WidthBounds();
    SignedBytes(i, 4)
  }

  function PutFloatBits(f: FloatBits): (r: seq<byte>)
    ensures |r| == 4
  {
    WidthBounds();
    BeBytes(f, 4)
  }

  lemma GetPutLong(d: seq<byte>, at: nat, t: int64)
    requires at + 8 <= |d|
    ensures d[at..at + 8] == PutLong(t) <==> GetLong(d, at) == t
  {
    WidthBounds();
    SignedOfSignedBytes(t, 8);
    SignedBytesOfSignedOf(d[at..at + 8]);
  }

  lemma GetPutInt(d: seq<byte>, at: nat, i: int32)
    requires at + 4 <= |d|
    ensures d[at..at + 4] == PutInt(i) <==> GetInt(d, at) == i
  {
    WidthBounds();
    SignedOfSignedBytes(i, 4);
    SignedBytesOfSignedOf(d[at..at + 4]);
  }

  lemma GetPutFloatBits(d: seq<byte>, at: nat, f: FloatBits)
    requires at + 4 <= |d|
    ensures d[at..at + 4] == PutFloatBits(f) <==> GetFloatBits(d, at) == f
  {
    WidthBounds();
    BeUintOfBeBytes(f, 4);
    BeBytesOfBeUint(d[at..at + 4]);
  }

  /** Reads one datagram as the receive loop does: the type byte, then the
      fields that type calls for, in order. */
  function Parse(d: seq<byte>): (r: ParseResult)
    ensures r.NoData? <==> |d| == 0
    ensures r.Truncated? <==>
              |d| > 0 &&
              ((d[0] == PACKET_TYPE_MOVE && |d| < MOVE_PACKET_LENGTH) ||
               ((d[0] == PACKET_TYPE_PRESS || d[0] == PACKET_TYPE_RELEASE) && |d| < BUTTON_PACKET_LENGTH))
    ensures r.Parsed? ==> WellFormed(r.packet)
  {
    if |d| == 0 then NoData
    else
      var tag := d[0];
      if tag == PACKET_TYPE_DISCOVER then
        Parsed(Discover(if |d| > 1 then Some(d[1]) else None))
      else if tag == PACKET_TYPE_MOVE then
        if |d| < MOVE_PACKET_LENGTH then Truncated(tag)
        else Parsed(Move(GetLong(d, 1), GetFloatBits(d, 9), GetFloatBits(d, 13)))
      else if tag == PACKET_TYPE_PRESS || tag == PACKET_TYPE_RELEASE then
        if |d| < BUTTON_PACKET_LENGTH then Truncated(tag)
        else if tag == PACKET_TYPE_PRESS then Parsed(Press(GetLong(d, 1), GetInt(d, 9)))
        else Parsed(Release(GetLong(d, 1), GetInt(d, 9)))
      else
        Parsed(Unknown(tag))
  }

  /** The datagram a conforming controller sends for a packet. */
  function Encode(p: Packet): (r: seq<byte>)
    requires WellFormed(p)
    ensures |r| > 0
  {
    match p
    case Discover(None) => [PACKET_TYPE_DISCOVER]
    case Discover(Some(v)) => [PACKET_TYPE_DISCOVER, v]
    case Move(t, x, y) => [PACKET_TYPE_MOVE] + PutLong(t) + PutFloatBits(x) + PutFloatBits(y)
    case Press(t, c) => [PACKET_TYPE_PRESS] + PutLong(t) + PutInt(c)
    case Release(t, c) => [PACKET_TYPE_RELEASE] + PutLong(t) + PutInt(c)
    case Unknown(tag) => [tag]
  }

  /** Decoding an encoded packet gives the packet back, whatever bytes follow it
      (a bare discover is the one packet a following byte would change). */
  lemma ParseEncode(p: Packet, rest: seq<byte>)
    requires WellFormed(p)
    requires p == Discover(None) ==> rest == []
    ensures Parse(Encode(p) + rest) == Parsed(p)
  {
    match p
    case Move(t, x, y) => ParseEncodeMove(t, x, y, rest);
    case Press(t, c) => ParseEncodeButton(p, rest);
    case Release(t, c) => ParseEncodeButton(p, rest);
    case Discover(_) =>
    case Unknown(_) =>
  }

  lemma ParseEncodeMove(t: int64, x: FloatBits, y: FloatBits, rest: seq<byte>)
    ensures Parse(Encode(Move(t, x, y)) + rest) == Parsed(Move(t, x, y))
  {
    var d := Encode(Move(t, x, y)) + rest;
    assert d[1..9] == PutLong(t);
    assert d[9..13] == PutFloatBits(x);
    assert d[13..17] == PutFloatBits(y);
    GetPutLong(d, 1, t);
    GetPutFloatBits(d, 9, x);
    GetPutFloatBits(d, 13, y);
  }

  lemma ParseEncodeButton(p: Packet, rest: seq<byte>)
    requires p.Press? || p.Release?
    ensures Parse(Encode(p) + rest) == Parsed(p)
  {
    var d := Encode(p) + rest;
    assert d[1..9] == PutLong(p.timestamp);
    assert d[9..13] == PutInt(p.code);
    GetPutLong(d, 1, p.timestamp);
    GetPutInt(d, 9, p.code);
  }

  /** Conversely, a datagram that parses starts with the encoding of its
      packet; the bytes after it are never read. */
  lemma EncodeParse(d: seq<byte>)
    requires Parse(d).Parsed?
    ensures |Encode(Parse(d).packet)| <= |d|
    ensures d[..|Encode(Parse(d).packet)|] == Encode(Parse(d).packet)
  {
    var p := Parse(d).packet;
    if p.Move? {
      EncodeParseMove(d);
    } else if p.Press? || p.Release? {
      EncodeParseButton(d);
    }
  }

  lemma EncodeParseMove(d: seq<byte>)
    requires Parse(d).Parsed? && Parse(d).packet.Move?
    ensures |d| >= MOVE_PACKET_LENGTH
    ensures d[..MOVE_PACKET_LENGTH] == Encode(Parse(d).packet)
  {
    var p := Parse(d).packet;
    var tag, time, x, y := d[..1], d[1..9], d[9..13], d[13..17];
    GetPutLong(d, 1, p.timestamp);
    GetPutFloatBits(d, 9, p.x);
    GetPutFloatBits(d, 13, p.y);
    assert Encode(p) == tag + time + x + y;
    assert d[..17] == tag + time + x + y;
  }

  lemma EncodeParseButton(d: seq<byte>)
    requires Parse(d).Parsed? && (Parse(d).packet.Press? || Parse(d).packet.Release?)
    ensures |d| >= BUTTON_PACKET_LENGTH
    ensures d[..BUTTON_PACKET_LENGTH] == Encode(Parse(d).packet)
  {
    var p := Parse(d).packet;
    var tag, time, code := d[..1], d[1..9], d[9..13];
    GetPutLong(d, 1, p.timestamp);
    GetPutInt(d, 9, p.code);
    assert Encode(p) == tag + time + code;
    assert d[..13] == tag + time + code;
  }

}
