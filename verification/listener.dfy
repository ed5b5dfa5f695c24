/** The receiver thread: what one datagram does (reply, enqueue one event, or
    nothing), and the receive loop as a fold over the datagrams that arrive. */
module Listener {
  import opened Bytes
  import opened Wrappers
  import opened MouseEvents
  import opened Protocol
  import EventQueue

  /** What the receive loop does with one datagram. `Malformed` is a getter
      that ran past the end of the buffer: a BufferUnderflowException, which
      the loop's `catch (IOException)` does not catch. */
  datatype Outcome =
    | Reply(datagram: seq<byte>)
    | Enqueue(event: MouseEvent)
    | Drop
    | Malformed

  /** A discovering client is answered when the server's version is at least
      the client's version byte, read as a signed Java `byte`. */
  predicate Compatible(version: byte)
  {
    PROTOCOL_VERSION >= ByteValue(version)
  }

  /** What the receive loop does with a packet it has read in full. */
  function Handle(p: Packet): (r: Outcome)
    ensures !r.Malformed?
  {
    match p
    case Discover(None) => Drop
    case Discover(Some(v)) => if Compatible(v) then Reply([PACKET_TYPE_REPLY]) else Drop
    case Move(t, x, y) => Enqueue(CreateMoveEvent(t, x, y))
    case Press(t, code) =>
      var button := ConvertButtonMask(code);
      if button != -1 then Enqueue(CreatePressEvent(t, button)) else Drop
    case Release(t, code) =>
      var button := ConvertButtonMask(code);
      if button != -1 then Enqueue(CreateReleaseEvent(t, button)) else Drop
    case Unknown(_) => Drop
  }

  /** A move, press or release datagram shorter than that type's fields. */
  predicate Underflows(d: seq<byte>)
  {
    |d| > 0 &&
    ((d[0] == PACKET_TYPE_MOVE && |d| < MOVE_PACKET_LENGTH) ||
     ((d[0] == PACKET_TYPE_PRESS || d[0] == PACKET_TYPE_RELEASE) && |d| < BUTTON_PACKET_LENGTH))
  }

  /** The body of the receive loop for the bytes now in the buffer. */
  function Decode(d: seq<byte>): (r: Outcome)
    ensures |d| == 0 ==> r == Drop
    ensures r.Reply? <==>
              |d| >= 2 && d[0] == PACKET_TYPE_DISCOVER && (d[1] <= PROTOCOL_VERSION || d[1] >= 0x80)
    ensures r.Reply? ==> r.datagram == [PACKET_TYPE_REPLY]
    ensures r.Malformed? <==> Underflows(d)
    ensures |d| > 0 && !KnownTag(d[0]) ==> r == Drop
    ensures r.Enqueue? ==>
              (d[0] == PACKET_TYPE_MOVE && r.event.eventType == TYPE_MOVE) ||
              (d[0] == PACKET_TYPE_PRESS && r.event.eventType == TYPE_PRESS) ||
              (d[0] == PACKET_TYPE_RELEASE && r.event.eventType == TYPE_RELEASE)
  {
    match Parse(d)
    case NoData => Drop
    case Truncated(_) => Malformed
    case Parsed(p) => Handle(p)
  }

  /** One received datagram: the transport keeps only what fits in the
      64-byte receive buffer. No packet is longer than 17 bytes, so the cut
      never changes the outcome. */
  function Receive(datagram: seq<byte>): (r: Outcome)
    ensures r == Decode(datagram)
  {
    var kept := if |datagram| <= MAX_PACKET_LENGTH then datagram else datagram[..MAX_PACKET_LENGTH];
    if |datagram| > MAX_PACKET_LENGTH then
      assert kept[1..9] == datagram[1..9];
      assert kept[9..13] == datagram[9..13];
      assert kept[13..17] == datagram[13..17];
      Decode(kept)
    else
      Decode(kept)
  }

  /** A move packet of full length enqueues exactly one move event whose
      timestamp and raw x, y bits are the big-endian fields at bytes 1..8,
      9..12 and 13..16; any bytes after them are ignored. */
  lemma DecodeMove(d: seq<byte>)
    requires |d| >= MOVE_PACKET_LENGTH && d[0] == PACKET_TYPE_MOVE
    ensures Decode(d).Enqueue?
    ensures Decode(d).event == CreateMoveEvent(Decode(d).event.timestamp, Decode(d).event.x, Decode(d).event.y)
    ensures d[1..9] == PutLong(Decode(d).event.timestamp)
    ensures d[9..13] == PutFloatBits(Decode(d).event.x)
    ensures d[13..17] == PutFloatBits(Decode(d).event.y)
  {
    var e := Decode(d).event;
    GetPutLong(d, 1, e.timestamp);
    GetPutFloatBits(d, 9, e.x);
    GetPutFloatBits(d, 13, e.y);
  }

  /** The controller's move datagram is decoded to the event it describes. */
  lemma DecodeEncodedMove(t: int64, x: FloatBits, y: FloatBits, rest: seq<byte>)
    ensures Decode(Encode(Packet.Move(t, x, y)) + rest) == Enqueue(CreateMoveEvent(t, x, y))
  {
    ParseEncode(Packet.Move(t, x, y), rest);
  }

  /** A button code in the last of bytes 9..12 behind three zero bytes is the
      only way a full-length press or release packet is accepted. */
  lemma AcceptedButtonCode(d: seq<byte>)
    requires |d| >= BUTTON_PACKET_LENGTH
    ensures ConvertButtonMask(GetInt(d, 9)) != -1 <==>
              d[9] == 0 && d[10] == 0 && d[11] == 0 && 1 <= d[12] <= 3
    ensures ConvertButtonMask(GetInt(d, 9)) != -1 ==> GetInt(d, 9) == d[12]
  {
    WidthBounds();
    var s := d[9..13];
    var high := s[..3];
    assert BeUint(s) == BeUint(high) * 256 + d[12];
    BeUintZero(high);
    assert (forall i | 0 <= i < 3 :: high[i] == 0) <==> d[9] == 0 && d[10] == 0 && d[11] == 0;
  }

  /** A full-length press or release packet enqueues one event of its own kind
      exactly when bytes 9..12 hold a known button code; the event carries the
      timestamp of bytes 1..8 and that code's AWT mask. Otherwise nothing
      happens. */
  lemma DecodeButton(d: seq<byte>)
    requires |d| >= BUTTON_PACKET_LENGTH
    requires d[0] == PACKET_TYPE_PRESS || d[0] == PACKET_TYPE_RELEASE
    ensures Decode(d).Enqueue? || Decode(d) == Drop
    ensures Decode(d).Enqueue? <==> d[9] == 0 && d[10] == 0 && d[11] == 0 && 1 <= d[12] <= 3
    ensures Decode(d).Enqueue? ==>
              Decode(d).event ==
                (if d[0] == PACKET_TYPE_PRESS then CreatePressEvent else CreateReleaseEvent)
                  (Decode(d).event.timestamp, ConvertButtonMask(d[12])) &&
              d[1..9] == PutLong(Decode(d).event.timestamp)
  {
    AcceptedButtonCode(d);
    GetPutLong(d, 1, GetLong(d, 1));
  }

  /** The controller's press and release datagrams are decoded to the event
      they describe, or to nothing when the button code is not one of the three
      the protocol defines. */
  lemma DecodeEncodedButton(t: int64, code: int32, rest: seq<byte>)
    ensures Decode(Encode(Packet.Press(t, code)) + rest) ==
              if ConvertButtonMask(code) == -1 then Drop else Enqueue(CreatePressEvent(t, ConvertButtonMask(code)))
    ensures Decode(Encode(Packet.Release(t, code)) + rest) ==
              if ConvertButtonMask(code) == -1 then Drop else Enqueue(CreateReleaseEvent(t, ConvertButtonMask(code)))
  {
    ParseEncode(Packet.Press(t, code), rest);
    ParseEncode(Packet.Release(t, code), rest);
  }

  /** A discover datagram is answered with the one-byte reply exactly when it
      carries a version byte that, as a signed byte, is at most the server's. */
  lemma DecodeDiscover(d: seq<byte>)
    requires |d| > 0 && d[0] == PACKET_TYPE_DISCOVER
    ensures Decode(d) == (if |d| >= 2 && ByteValue(d[1]) <= PROTOCOL_VERSION then Reply([PACKET_TYPE_REPLY]) else Drop)
  {
  }

  /** The receiver's state: the event queue it fills, the replies it has sent,
      and whether its thread is still running. */
  datatype Receiver = Receiver(queue: seq<MouseEvent>, sent: seq<seq<byte>>, running: bool)

  /** One iteration of the receive loop as the source has it: an uncaught
      underflow ends the thread, and a stopped thread receives nothing more. */
  function Step(s: Receiver, datagram: seq<byte>): (r: Receiver)
    ensures r.running <==> s.running && !Underflows(datagram)
    ensures r.queue == s.queue + (if s.running then EventsOf(Receive(datagram)) else [])
    ensures r.sent == s.sent + (if s.running then RepliesOf(Receive(datagram)) else [])
  {
    if !s.running then s
    else
      match Receive(datagram)
      case Reply(b) => s.(sent := s.sent + [b])
      case Enqueue(e) => s.(queue := EventQueue.Offer(s.queue, e))
      case Drop => s
      case Malformed => s.(running := false)
  }

  /** No datagram in the batch is too short for its type. */
  predicate NoneUnderflows(datagrams: seq<seq<byte>>)
  {
    forall i | 0 <= i < |datagrams| :: !Underflows(datagrams[i])
  }

  lemma NoneUnderflowsCons(datagrams: seq<seq<byte>>)
    requires |datagrams| > 0
    ensures NoneUnderflows(datagrams) <==> !Underflows(datagrams[0]) && NoneUnderflows(datagrams[1..])
  {
    assert forall i | 1 <= i < |datagrams| :: datagrams[1..][i - 1] == datagrams[i];
  }

  /** The receive loop over the datagrams that arrive, in arrival order. */
  function Run(s: Receiver, datagrams: seq<seq<byte>>): (r: Receiver)
    ensures r.running <==> s.running && NoneUnderflows(datagrams)
    ensures |s.queue| <= |r.queue| && r.queue[..|s.queue|] == s.queue
    ensures |s.sent| <= |r.sent| && r.sent[..|s.sent|] == s.sent
    decreases |datagrams|
  {
    if |datagrams| == 0 then s
    else
      var s' := Step(s, datagrams[0]);
      var r := Run(s', datagrams[1..]);
      NoneUnderflowsCons(datagrams);
      assert r.queue[..|s.queue|] == r.queue[..|s'.queue|][..|s.queue|];
      assert r.sent[..|s.sent|] == r.sent[..|s'.sent|][..|s.sent|];
      r
  }

  /** One iteration of the receive loop as evidently intended: a datagram too
      short for its type is dropped like any other bad datagram. */
  function StepTolerant(s: Receiver, datagram: seq<byte>): Receiver
  {
    match Receive(datagram)
    case Reply(b) => s.(sent := s.sent + [b])
    case Enqueue(e) => s.(queue := EventQueue.Offer(s.queue, e))
    case Drop => s
    case Malformed => s
  }

  function RunTolerant(s: Receiver, datagrams: seq<seq<byte>>): Receiver
    decreases |datagrams|
  {
    if |datagrams| == 0 then s else RunTolerant(StepTolerant(s, datagrams[0]), datagrams[1..])
  }

  /** The event one outcome queues, if any. */
  function EventsOf(o: Outcome): seq<MouseEvent>
  {
    if o.Enqueue? then [o.event] else []
  }

  /** The reply one outcome sends, if any. */
  function RepliesOf(o: Outcome): seq<seq<byte>>
  {
    if o.Reply? then [o.datagram] else []
  }

  /** The events the datagrams carry, each datagram read on its own. */
  function Enqueued(datagrams: seq<seq<byte>>): seq<MouseEvent>
  {
    if |datagrams| == 0 then [] else EventsOf(Receive(datagrams[0])) + Enqueued(datagrams[1..])
  }

  /** The replies the datagrams call for, each datagram read on its own. */
  function Replies(datagrams: seq<seq<byte>>): seq<seq<byte>>
  {
    if |datagrams| == 0 then [] else RepliesOf(Receive(datagrams[0])) + Replies(datagrams[1..])
  }

  /** One intended iteration appends what its datagram yields. */
  lemma StepTolerantAppends(s: Receiver, datagram: seq<byte>)
    ensures StepTolerant(s, datagram) ==
              Receiver(s.queue + EventsOf(Receive(datagram)), s.sent + RepliesOf(Receive(datagram)), s.running)
  {
  }

  /** The intended loop appends to the queue every event the datagrams carry,
      in arrival order, and sends every reply they call for; no datagram
      affects what another one yields. */
  lemma {:induction false} RunTolerantCollects(s: Receiver, datagrams: seq<seq<byte>>)
    ensures RunTolerant(s, datagrams) == Receiver(s.queue + Enqueued(datagrams), s.sent + Replies(datagrams), s.running)
    decreases |datagrams|
  {
    if |datagrams| > 0 {
      var s' := StepTolerant(s, datagrams[0]);
      StepTolerantAppends(s, datagrams[0]);
      RunTolerantCollects(s', datagrams[1..]);
      var o := Receive(datagrams[0]);
      assert Enqueued(datagrams) == EventsOf(o) + Enqueued(datagrams[1..]);
      assert Replies(datagrams) == RepliesOf(o) + Replies(datagrams[1..]);
      AppendAssociates(s.queue, EventsOf(o), Enqueued(datagrams[1..]));
      AppendAssociates(s.sent, RepliesOf(o), Replies(datagrams[1..]));
    }
  }

  lemma AppendAssociates<T>(a: seq<T>, b: seq<T>, c: seq<T>)
    ensures (a + b) + c == a + (b + c)
  {
  }

  /** Until a datagram underflows, the loop as written and the intended loop
      agree. */
  lemma {:induction false} RunAgreesWhileWellFormed(s: Receiver, datagrams: seq<seq<byte>>)
    requires s.running
    requires forall i | 0 <= i < |datagrams| :: !Receive(datagrams[i]).Malformed?
    ensures Run(s, datagrams) == RunTolerant(s, datagrams)
    decreases |datagrams|
  {
    if |datagrams| > 0 {
      RunAgreesWhileWellFormed(Step(s, datagrams[0]), datagrams[1..]);
    }
  }

  /** A stopped receiver ignores everything that arrives after. */
  lemma {:induction false} StoppedReceiverIgnores(s: Receiver, datagrams: seq<seq<byte>>)
    requires !s.running
    ensures Run(s, datagrams) == s
    decreases |datagrams|
  {
    if |datagrams| > 0 {
      StoppedReceiverIgnores(s, datagrams[1..]);
    }
  }

  /** The loop as written: the first datagram too short for its type ends the
      receiver; the queue and the replies are those of the datagrams before
      it, and everything after it is lost. */
  lemma RunHaltsAtUnderflow(s: Receiver, datagrams: seq<seq<byte>>, k: nat)
    requires s.running && k < |datagrams|
    requires forall i | 0 <= i < k :: !Underflows(datagrams[i])
    requires Underflows(datagrams[k])
    ensures Run(s, datagrams) == RunTolerant(s, datagrams[..k]).(running := false)
  {
    var before, after := datagrams[..k], datagrams[k..];
    assert before + after == datagrams;
    RunSplit(s, before, after);
    assert forall i | 0 <= i < |before| :: before[i] == datagrams[i];
    RunAgreesWhileWellFormed(s, before);
    RunTolerantCollects(s, before);
    var mid := Run(s, before);
    assert mid.running;
    var stopped := Step(mid, after[0]);
    assert stopped == mid.(running := false);
    assert Run(mid, after) == Run(stopped, after[1..]);
    StoppedReceiverIgnores(stopped, after[1..]);
  }

  lemma {:induction false} RunSplit(s: Receiver, a: seq<seq<byte>>, b: seq<seq<byte>>)
    ensures Run(s, a + b) == Run(Run(s, a), b)
    decreases |a|
  {
    if |a| > 0 {
      assert (a + b)[1..] == a[1..] + b;
      RunSplit(Step(s, a[0]), a[1..], b);
    } else {
      assert a + b == b;
    }
  }

  /** A short move datagram followed by a well-formed one: the loop as written
      stops at the first and never queues the second's event, while the
      intended loop queues it. */
  lemma ShortPacketStopsReceiver()
    ensures var datagrams: seq<seq<byte>> := [[PACKET_TYPE_MOVE], Encode(Packet.Move(1, 0, 0))];
            Run(Receiver([], [], true), datagrams).queue == [] &&
            RunTolerant(Receiver([], [], true), datagrams).queue == [CreateMoveEvent(1, 0, 0)]
  {
    var datagrams: seq<seq<byte>> := [[PACKET_TYPE_MOVE], Encode(Packet.Move(1, 0, 0))];
    DecodeEncodedMove(1, 0, 0, []);
    assert Encode(Packet.Move(1, 0, 0)) + [] == Encode(Packet.Move(1, 0, 0));
    StoppedReceiverIgnores(Receiver([], [], false), datagrams[1..]);
    var s0 := Receiver([], [], true);
    assert datagrams[1..][1..] == [];
    assert RunTolerant(s0, datagrams) == RunTolerant(s0, datagrams[1..]);
    assert RunTolerant(s0, datagrams[1..]) == StepTolerant(s0, datagrams[1]);
  }

}
