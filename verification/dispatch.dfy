/** The dispatcher thread: the motion scale computed at start-up, and the loop
    that takes events off the queue and drives the pointer. The pointer itself
    (AWT's Robot and MouseInfo) is outside the model: the cursor position read
    for each event is an input, and the loop's effect is the action it asks
    the pointer to perform. */
module Dispatch {
  import opened Bytes
  import opened Wrappers
  import opened MouseEvents

  /** Pixels a full-scale move covers: the smaller screen dimension divided by
      seven, truncated toward zero when stored back into an `int`. */
  function MotionScale(width: int32, height: int32): (r: int32)
    ensures var m := if height < width then height else width;
            (0 <= m ==> 0 <= 7 * r <= m < 7 * r + 7) &&
            (m < 0 ==> 7 * r - 7 < m <= 7 * r <= 0)
  {
    var m := if height < width then height else width;
    if m >= 0 then m / 7 else -((-m) / 7)
  }

  datatype Point = Point(x: int32, y: int32)

  /** What one iteration asks of the pointer. */
  datatype Action =
    | MouseMove(x: int32, y: int32)
    | MousePress(buttons: int32)
    | MouseRelease(buttons: int32)
    | Idle

  /** Java's `(int) (f * scale)` for the float whose bits are `f`: float
      arithmetic is not modelled, so the caller supplies it. */
  type Scaler = (FloatBits, int32) -> int32

  /** An event taken off the queue, with the cursor position the pointer
      reported while it was handled (`None` when no pointer info was available). */
  datatype Tick = Tick(event: MouseEvent, cursor: Option<Point>)

  /** The switch on the event's type tag. A move goes to the scaled offset from
      the cursor's current position, in wrapping `int` arithmetic; a tag
      outside the three known ones does nothing. */
  function Act(e: MouseEvent, cursor: Option<Point>, scale: int32, scaled: Scaler): (r: Action)
    ensures r.MouseMove? <==> e.eventType == TYPE_MOVE && cursor.Some?
    ensures r.MouseMove? ==>
              Wrap32(r.x - cursor.value.x) == scaled(e.x, scale) &&
              Wrap32(r.y - cursor.value.y) == scaled(e.y, scale)
    ensures r.MousePress? <==> e.eventType == TYPE_PRESS
    ensures r.MouseRelease? <==> e.eventType == TYPE_RELEASE
    ensures r.MousePress? || r.MouseRelease? ==> r.buttons == e.button
  {
    if e.eventType == TYPE_MOVE then
      match cursor
      case None => Idle
      case Some(p) =>
        WrapOffset(scaled(e.x, scale), p.x);
        WrapOffset(scaled(e.y, scale), p.y);
        MouseMove(Wrap32(scaled(e.x, scale) + p.x), Wrap32(scaled(e.y, scale) + p.y))
    else if e.eventType == TYPE_PRESS then MousePress(e.button)
    else if e.eventType == TYPE_RELEASE then MouseRelease(e.button)
    else Idle
  }

  /** The staleness test: an event is applied when it is newer than `lastTime`. */
  predicate Admits(e: MouseEvent, lastTime: int)
  {
    e.timestamp > lastTime
  }

  /** One iteration of the dispatch loop as the source has it: `lastTime` is
      set to zero at the top of every iteration, so the staleness test only
      rejects events whose timestamp is not positive. */
  function StepAsWritten(t: Tick, scale: int32, scaled: Scaler): (r: Action)
    ensures r != Idle ==> t.event.timestamp > 0
    ensures r.MouseMove? <==> t.event.timestamp > 0 && t.event.eventType == TYPE_MOVE && t.cursor.Some?
    ensures r.MouseMove? ==>
              Wrap32(r.x - t.cursor.value.x) == scaled(t.event.x, scale) &&
              Wrap32(r.y - t.cursor.value.y) == scaled(t.event.y, scale)
    ensures r.MousePress? <==> t.event.timestamp > 0 && t.event.eventType == TYPE_PRESS
    ensures r.MouseRelease? <==> t.event.timestamp > 0 && t.event.eventType == TYPE_RELEASE
    ensures r.MousePress? || r.MouseRelease? ==> r.buttons == t.event.button
  {
    var lastTime := 0;
    if Admits(t.event, lastTime) then Act(t.event, t.cursor, scale, scaled) else Idle
  }

  /** The offset from the cursor survives the wrap-around of the addition. */
  lemma WrapOffset(offset: int32, origin: int32)
    ensures Wrap32(Wrap32(offset + origin) - origin) == offset
  {
    var k := (offset + origin + TWO_31) / TWO_32;
    assert Wrap32(offset + origin) == offset + origin - k * TWO_32;
    assert (offset - k * TWO_32 + TWO_31) % TWO_32 == offset + TWO_31;
  }

  /** Conversely, the offset from the cursor determines the moved-to position:
      only one `int` lies at a given wrapped distance from the cursor. */
  lemma MoveTargetExact(target: int32, origin: int32, offset: int32)
    requires Wrap32(target - origin) == offset
    ensures target == Wrap32(offset + origin)
  {
    WrapOffset(offset, origin);
    assert (target - Wrap32(offset + origin)) % TWO_32 == 0;
  }

  /** The dispatch loop as the source has it, over the events it takes in order. */
  function RunAsWritten(ticks: seq<Tick>, scale: int32, scaled: Scaler): seq<Action>
    decreases |ticks|
  {
    if |ticks| == 0 then [] else [StepAsWritten(ticks[0], scale, scaled)] + RunAsWritten(ticks[1..], scale, scaled)
  }

  /** As written, the loop keeps no memory between iterations: each event's
      action depends on that event alone, however old it is next to the
      events applied before it. */
  lemma {:induction false} RunAsWrittenMemoryless(ticks: seq<Tick>, scale: int32, scaled: Scaler)
    ensures |RunAsWritten(ticks, scale, scaled)| == |ticks|
    ensures forall i | 0 <= i < |ticks| :: RunAsWritten(ticks, scale, scaled)[i] == StepAsWritten(ticks[i], scale, scaled)
    decreases |ticks|
  {
    if |ticks| > 0 {
      RunAsWrittenMemoryless(ticks[1..], scale, scaled);
    }
  }

  /** Whether the corrected loop admits the `i`-th event: it is newer than the
      initial `lastTime` and than every event before it. Every earlier event
      that passed the filter raised `lastTime` to its own timestamp, whether or
      not its action did anything, so this is the filter's threshold at `i`. */
  predicate Fresh(ticks: seq<Tick>, lastTime: int, i: int)
    requires 0 <= i < |ticks|
  {
    ticks[i].event.timestamp > lastTime &&
    forall j | 0 <= j < i :: ticks[j].event.timestamp < ticks[i].event.timestamp
  }

  /** The dispatch loop as evidently intended: `lastTime` lives across
      iterations and moves up to the timestamp of each event that passes the
      filter, so an event no newer than one already admitted is discarded. */
  function RunMonotonic(ticks: seq<Tick>, lastTime: int, scale: int32, scaled: Scaler): (r: seq<Action>)
    ensures |r| == |ticks|
    ensures forall i | 0 <= i < |ticks| ::
              r[i] == if Fresh(ticks, lastTime, i) then Act(ticks[i].event, ticks[i].cursor, scale, scaled) else Idle
    ensures forall i | 0 <= i < |ticks| :: r[i] != Idle ==> ticks[i].event.timestamp > lastTime
    ensures forall i, j | 0 <= i < j < |ticks| && r[i] != Idle && r[j] != Idle ::
              ticks[i].event.timestamp < ticks[j].event.timestamp
    ensures forall i | 0 <= i < |ticks| :: r[i] == Idle || r[i] == Act(ticks[i].event, ticks[i].cursor, scale, scaled)
    decreases |ticks|
  {
    if |ticks| == 0 then []
    else
      var e := ticks[0].event;
      var next := if Admits(e, lastTime) then e.timestamp else lastTime;
      var head := if Admits(e, lastTime) then Act(e, ticks[0].cursor, scale, scaled) else Idle;
      var rest := RunMonotonic(ticks[1..], next, scale, scaled);
      MonotonicConsExact(ticks, lastTime, next, head, rest, scale, scaled);
      FreshIsOrdered(ticks, lastTime, [head] + rest, scale, scaled);
      [head] + rest
  }

  /** Past the first event, freshness against the raised threshold `next` is
      freshness against the original one. */
  lemma FreshShift(ticks: seq<Tick>, lastTime: int, next: int, i: int)
    requires 1 <= i < |ticks|
    requires next == if Admits(ticks[0].event, lastTime) then ticks[0].event.timestamp else lastTime
    ensures Fresh(ticks[1..], next, i - 1) <==> Fresh(ticks, lastTime, i)
  {
    assert forall j | 1 <= j < |ticks| :: ticks[1..][j - 1] == ticks[j];
    if Fresh(ticks, lastTime, i) {
      forall j | 0 <= j < i - 1 ensures ticks[1..][j].event.timestamp < ticks[1..][i - 1].event.timestamp {
        assert ticks[1..][j] == ticks[j + 1];
      }
    }
  }

  /** The closed form of the corrected loop carries over from the rest of the
      stream to the whole. */
  lemma MonotonicConsExact(ticks: seq<Tick>, lastTime: int, next: int, head: Action, rest: seq<Action>, scale: int32, scaled: Scaler)
    requires |ticks| > 0 && |rest| == |ticks| - 1
    requires next == if Admits(ticks[0].event, lastTime) then ticks[0].event.timestamp else lastTime
    requires head == if Admits(ticks[0].event, lastTime) then Act(ticks[0].event, ticks[0].cursor, scale, scaled) else Idle
    requires forall i | 0 <= i < |rest| ::
               rest[i] == if Fresh(ticks[1..], next, i) then Act(ticks[1..][i].event, ticks[1..][i].cursor, scale, scaled) else Idle
    ensures forall i | 0 <= i < |ticks| ::
              ([head] + rest)[i] == if Fresh(ticks, lastTime, i) then Act(ticks[i].event, ticks[i].cursor, scale, scaled) else Idle
  {
    forall i | 0 <= i < |ticks|
      ensures ([head] + rest)[i] == if Fresh(ticks, lastTime, i) then Act(ticks[i].event, ticks[i].cursor, scale, scaled) else Idle
    {
      if i > 0 {
        FreshShift(ticks, lastTime, next, i);
        assert ticks[1..][i - 1] == ticks[i];
      }
    }
  }

  /** The closed form implies the filter's ordering: whatever is acted on is
      newer than `lastTime` and than everything acted on before it. */
  lemma FreshIsOrdered(ticks: seq<Tick>, lastTime: int, r: seq<Action>, scale: int32, scaled: Scaler)
    requires |r| == |ticks|
    requires forall i | 0 <= i < |ticks| ::
               r[i] == if Fresh(ticks, lastTime, i) then Act(ticks[i].event, ticks[i].cursor, scale, scaled) else Idle
    ensures forall i | 0 <= i < |ticks| :: r[i] != Idle ==> ticks[i].event.timestamp > lastTime
    ensures forall i, j | 0 <= i < j < |ticks| && r[i] != Idle && r[j] != Idle ::
              ticks[i].event.timestamp < ticks[j].event.timestamp
    ensures forall i | 0 <= i < |ticks| :: r[i] == Idle || r[i] == Act(ticks[i].event, ticks[i].cursor, scale, scaled)
  {
    forall i, j | 0 <= i < j < |ticks| && r[i] != Idle && r[j] != Idle
      ensures ticks[i].event.timestamp < ticks[j].event.timestamp
    {
      assert Fresh(ticks, lastTime, j);
    }
  }

  /** A move stamped 5 with no pointer info does nothing, yet it still raises
      the threshold: a press stamped 3 after it is discarded. */
  lemma IdleEventRaisesThreshold(scale: int32, scaled: Scaler)
    ensures RunMonotonic([Tick(CreateMoveEvent(5, 0, 0), None), Tick(CreatePressEvent(3, 16), None)], 0, scale, scaled)
            == [Idle, Idle]
  {
    var ticks := [Tick(CreateMoveEvent(5, 0, 0), None), Tick(CreatePressEvent(3, 16), None)];
    assert ticks[0].event.timestamp == 5 && ticks[1].event.timestamp == 3;
    assert !Fresh(ticks, 0, 1);
  }

  /** Strictly increasing timestamps above `lastTime`. */
  predicate InOrderAfter(ticks: seq<Tick>, lastTime: int)
  {
    (forall i | 0 <= i < |ticks| :: ticks[i].event.timestamp > lastTime) &&
    (forall i, j | 0 <= i < j < |ticks| :: ticks[i].event.timestamp < ticks[j].event.timestamp)
  }

  /** For a sender whose timestamps are positive and strictly increasing, the
      corrected loop does exactly what the loop as written does. */
  lemma {:induction false} MonotonicAgreesOnOrderedStreams(ticks: seq<Tick>, lastTime: int, scale: int32, scaled: Scaler)
    requires lastTime >= 0 && InOrderAfter(ticks, lastTime)
    ensures RunMonotonic(ticks, lastTime, scale, scaled) == RunAsWritten(ticks, scale, scaled)
    decreases |ticks|
  {
    if |ticks| > 0 {
      var e := ticks[0].event;
      assert InOrderAfter(ticks[1..], e.timestamp) by {
        forall i | 0 <= i < |ticks[1..]| ensures ticks[1..][i].event.timestamp > e.timestamp {
          assert ticks[1..][i] == ticks[i + 1];
        }
      }
      MonotonicAgreesOnOrderedStreams(ticks[1..], e.timestamp, scale, scaled);
    }
  }

  /** A press stamped 5 followed by a press stamped 3: the loop as written
      replays the older event, the corrected loop discards it. */
  lemma StaleEventReplayed(scale: int32, scaled: Scaler)
    ensures var ticks := [Tick(CreatePressEvent(5, 16), None), Tick(CreatePressEvent(3, 16), None)];
            RunAsWritten(ticks, scale, scaled) == [MousePress(16), MousePress(16)] &&
            RunMonotonic(ticks, 0, scale, scaled) == [MousePress(16), Idle]
  {
    var ticks := [Tick(CreatePressEvent(5, 16), None), Tick(CreatePressEvent(3, 16), None)];
    assert ticks[1..] == [ticks[1]];
    assert ticks[1..][1..] == [];
  }

}
