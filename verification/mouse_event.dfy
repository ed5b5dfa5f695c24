/** The event record handed from the receiver to the dispatcher: one record
    type whose `eventType` tag says which of its fields are meaningful, built
    only through the three factories. */
module MouseEvents {
  import opened Bytes
  import opened Wrappers

  const TYPE_MOVE: int32 := 1
  const TYPE_PRESS: int32 := 2
  const TYPE_RELEASE: int32 := 3
  const TYPE_TOUCH: int32 := 4

  /** Bit pattern of the float `0.0f`, the default of an unset float field. */
  const FLOAT_ZERO: FloatBits := 0

  /** The event record. The float fields `x` and `y` are kept as their IEEE 754
      bit patterns and never interpreted; `button` holds an AWT button mask. */
  datatype MouseEvent = MouseEvent(eventType: int32, timestamp: int64, x: FloatBits, y: FloatBits, button: int32)

  /** The private no-argument constructor: every field at its default value. */
  function Blank(): MouseEvent
  {
    MouseEvent(0, 0, FLOAT_ZERO, FLOAT_ZERO, 0)
  }

  function CreateMoveEvent(timestamp: int64, x: FloatBits, y: FloatBits): (e: MouseEvent)
    ensures e.eventType == TYPE_MOVE
    ensures e.timestamp == timestamp && e.x == x && e.y == y
    ensures e.button == 0
  {
    Blank().(eventType := TYPE_MOVE, timestamp := timestamp, x := x, y := y)
  }

  function CreatePressEvent(timestamp: int64, button: int32): (e: MouseEvent)
    ensures e.eventType == TYPE_PRESS
    ensures e.timestamp == timestamp && e.button == button
    ensures e.x == FLOAT_ZERO && e.y == FLOAT_ZERO
  {
    Blank().(eventType := TYPE_PRESS, timestamp := timestamp, button := button)
  }

  function CreateReleaseEvent(timestamp: int64, button: int32): (e: MouseEvent)
    ensures e.eventType == TYPE_RELEASE
    ensures e.timestamp == timestamp && e.button == button
    ensures e.x == FLOAT_ZERO && e.y == FLOAT_ZERO
  {
    Blank().(eventType := TYPE_RELEASE, timestamp := timestamp, button := button)
  }

  /** The wheel factory is a stub that throws UnsupportedOperationException:
      `None` stands for the exception, so no wheel event ever exists. */
  function CreateWheelEvent(timestamp: int64): (r: Option<MouseEvent>)
    ensures r == None
  {
    None
  }

  /** The tagged reading of a record: one constructor per factory. */
  datatype PointerEvent =
    | Move(timestamp: int64, x: FloatBits, y: FloatBits)
    | Press(timestamp: int64, button: int32)
    | Release(timestamp: int64, button: int32)

  /** Builds the record for a tagged event through the matching factory. */
  function Create(p: PointerEvent): MouseEvent
  {
    match p
    case Move(t, x, y) => CreateMoveEvent(t, x, y)
    case Press(t, b) => CreatePressEvent(t, b)
    case Release(t, b) => CreateReleaseEvent(t, b)
  }

  /** Recovers the kind of a record from its type tag alone. */
  function KindOf(e: MouseEvent): (r: Option<PointerEvent>)
    ensures r.Some? <==> e.eventType == TYPE_MOVE || e.eventType == TYPE_PRESS || e.eventType == TYPE_RELEASE
    ensures r.Some? ==> r.value.timestamp == e.timestamp
  {
    if e.eventType == TYPE_MOVE then Some(Move(e.timestamp, e.x, e.y))
    else if e.eventType == TYPE_PRESS then Some(Press(e.timestamp, e.button))
    else if e.eventType == TYPE_RELEASE then Some(Release(e.timestamp, e.button))
    else None
  }

  /** The fields a factory leaves alone still hold their defaults. */
  predicate HasFactoryDefaults(e: MouseEvent)
  {
    if e.eventType == TYPE_MOVE then e.button == 0 else e.x == FLOAT_ZERO && e.y == FLOAT_ZERO
  }

  /** The type tags are pairwise distinct. */
  lemma TypeTagsDistinct()
    ensures TYPE_MOVE != TYPE_PRESS && TYPE_MOVE != TYPE_RELEASE && TYPE_PRESS != TYPE_RELEASE
    ensures TYPE_TOUCH != TYPE_MOVE && TYPE_TOUCH != TYPE_PRESS && TYPE_TOUCH != TYPE_RELEASE
  {
  }

  /** Every factory-built record is read back as the event it was built from:
      the factories copy their arguments and their tags tell them apart. */
  lemma KindOfCreate(p: PointerEvent)
    ensures KindOf(Create(p)) == Some(p)
    ensures HasFactoryDefaults(Create(p))
  {
  }

  /** Conversely, a record with a known tag and default unused fields is exactly
      what its factory builds. */
  lemma CreateOfKindOf(e: MouseEvent)
    requires KindOf(e).Some? && HasFactoryDefaults(e)
    ensures Create(KindOf(e).value) == e
  {
  }

}
