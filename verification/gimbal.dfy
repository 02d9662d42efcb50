/** `GimbalController`: clamps raw goal positions into a per-axis window and
    sends each to the pan or tilt servo with one driver call. Every call the
    controller makes is recorded in a list of writes. */
module Gimbal {
  import opened Bytes
  import opened Packet
  import opened Driver

  // Centre positions and per-axis windows, in raw steps.
  const PAN_CENTER := 2048
  const TILT_CENTER := 2048
  const PAN_MIN := 0
  const PAN_MAX := 4096
  const TILT_MIN := 1500
  const TILT_MAX := 3000

  // Default servo ids.
  const DEFAULT_PAN_ID := 11
  const DEFAULT_TILT_ID := 12

  datatype Width = ByteWide | WordWide

  /** One driver call: `write_byte` or `write_word` of `value` to register
      `address` of servo `motorId`. */
  datatype Write = Write(width: Width, motorId: int, address: int, value: int)

  /** The controller: the driver, or None when it could not be imported or
      connected (`self.driver` is then None), and the two servo ids. */
  datatype Controller = Controller(driver: Option<Link>, panId: int, tiltId: int)

  /** `max(lo, min(hi, v))` */
  function Clamp(lo: int, hi: int, v: int): (r: int)
    ensures lo <= hi ==> lo <= r <= hi
    ensures lo <= v <= hi ==> r == v
    ensures v < lo ==> r == lo
    ensures lo <= hi && hi < v ==> r == hi
  {
    Max(lo, Min(hi, v))
  }

  /** Clamping twice is clamping once. */
  lemma ClampIdempotent(lo: int, hi: int, v: int)
    requires lo <= hi
    ensures Clamp(lo, hi, Clamp(lo, hi, v)) == Clamp(lo, hi, v)
  {
  }

  /** Clamping keeps the order of goals. */
  lemma ClampMonotone(lo: int, hi: int, v: int, w: int)
    requires lo <= hi && v <= w
    ensures Clamp(lo, hi, v) <= Clamp(lo, hi, w)
  {
  }

  /** The driver call a recorded write stands for. */
  function Perform(link: Link, w: Write): Call<Option<byte>> {
    match w.width
    case ByteWide => WriteByte(link, w.motorId, w.address, w.value)
    case WordWide => WriteWord(link, w.motorId, w.address, w.value)
  }

  /** `set_pan_raw`: with a driver, one word write of the goal clamped into
      [PAN_MIN, PAN_MAX] to the pan servo's goal-position register; without
      one, nothing. An exception from the write is caught. */
  function SetPanRaw(c: Controller, raw: int): (ws: seq<Write>)
    ensures c.driver.None? ==> ws == []
    ensures c.driver.Some? ==>
              |ws| == 1 && ws[0].width == WordWide && ws[0].motorId == c.panId
              && ws[0].address == ADDR_GOAL_POSITION
              && PAN_MIN <= ws[0].value <= PAN_MAX
              && (PAN_MIN <= raw <= PAN_MAX ==> ws[0].value == raw)
              && (raw < PAN_MIN ==> ws[0].value == PAN_MIN)
              && (PAN_MAX < raw ==> ws[0].value == PAN_MAX)
  {
    if c.driver.None? then []
    else [Write(WordWide, c.panId, ADDR_GOAL_POSITION, Clamp(PAN_MIN, PAN_MAX, raw))]
  }

  /** `set_tilt_raw`: with a driver, one word write of the goal clamped into
      [TILT_MIN, TILT_MAX] to the tilt servo's goal-position register;
      without one, nothing. */
  function SetTiltRaw(c: Controller, raw: int): (ws: seq<Write>)
    ensures c.driver.None? ==> ws == []
    ensures c.driver.Some? ==>
              |ws| == 1 && ws[0].width == WordWide && ws[0].motorId == c.tiltId
              && ws[0].address == ADDR_GOAL_POSITION
              && TILT_MIN <= ws[0].value <= TILT_MAX
              && (TILT_MIN <= raw <= TILT_MAX ==> ws[0].value == raw)
              && (raw < TILT_MIN ==> ws[0].value == TILT_MIN)
              && (TILT_MAX < raw ==> ws[0].value == TILT_MAX)
  {
    if c.driver.None? then []
    else [Write(WordWide, c.tiltId, ADDR_GOAL_POSITION, Clamp(TILT_MIN, TILT_MAX, raw))]
  }

  /** `home`: the pan centre, then the tilt centre, both inside their windows
      and so written unchanged. */
  function Home(c: Controller): (ws: seq<Write>)
    ensures c.driver.None? ==> ws == []
    ensures c.driver.Some? ==>
              ws == [Write(WordWide, c.panId, ADDR_GOAL_POSITION, 2048),
                     Write(WordWide, c.tiltId, ADDR_GOAL_POSITION, 2048)]
  {
    SetPanRaw(c, PAN_CENTER) + SetTiltRaw(c, TILT_CENTER)
  }

  /** `set_angles` once its degrees are converted to raw steps: without a
      driver nothing; with one, the pan write then the tilt write. */
  function SetAnglesRaw(c: Controller, panRaw: int, tiltRaw: int): (ws: seq<Write>)
    ensures c.driver.None? ==> ws == []
    ensures c.driver.Some? ==> |ws| == 2 && ws[0].motorId == c.panId && ws[1].motorId == c.tiltId
    ensures c.driver.Some? ==> PAN_MIN <= ws[0].value <= PAN_MAX && TILT_MIN <= ws[1].value <= TILT_MAX
    ensures c.driver.Some? ==>
              ws[0].value == Clamp(PAN_MIN, PAN_MAX, panRaw) && ws[1].value == Clamp(TILT_MIN, TILT_MAX, tiltRaw)
    ensures forall k :: 0 <= k < |ws| ==> ws[k].width == WordWide && ws[k].address == ADDR_GOAL_POSITION
  {
    if c.driver.None? then [] else SetPanRaw(c, panRaw) + SetTiltRaw(c, tiltRaw)
  }

  /** The two torque writes `enable_torque` and `disable_torque` make: the
      tilt write is skipped when the pan write raises, as both sit in one
      `try` block. */
  function TorqueWrites(c: Controller, on: int): (ws: seq<Write>)
    ensures c.driver.None? ==> ws == []
    ensures c.driver.Some? ==>
              1 <= |ws| <= 2
              && ws[0] == Write(ByteWide, c.panId, ADDR_TORQUE_ENABLE, on)
              && (|ws| == 2 <==> Perform(c.driver.value, ws[0]).Returned?)
              && (|ws| == 2 ==> ws[1] == Write(ByteWide, c.tiltId, ADDR_TORQUE_ENABLE, on))
  {
    match c.driver
    case None => []
    case Some(link) =>
      var pan := Write(ByteWide, c.panId, ADDR_TORQUE_ENABLE, on);
      if Perform(link, pan).Raised? then [pan]
      else [pan, Write(ByteWide, c.tiltId, ADDR_TORQUE_ENABLE, on)]
  }

  /** `enable_torque` */
  function EnableTorque(c: Controller): seq<Write> {
    TorqueWrites(c, 1)
  }

  /** `disable_torque` */
  function DisableTorque(c: Controller): seq<Write> {
    TorqueWrites(c, 0)
  }

  /** `__init__`: a connected controller starts with `enable_torque`'s
      writes; an unconnected one has no driver and writes nothing. */
  function Init(connected: Option<Link>, panId: int, tiltId: int): (r: (Controller, seq<Write>))
    ensures r.0 == Controller(connected, panId, tiltId)
    ensures connected.None? ==> r.1 == []
    ensures connected.Some? ==> 1 <= |r.1| <= 2 && r.1[0] == Write(ByteWide, panId, ADDR_TORQUE_ENABLE, 1)
    ensures connected.Some? ==>
              (|r.1| == 2 <==> WriteByte(connected.value, panId, ADDR_TORQUE_ENABLE, 1).Returned?)
              && (|r.1| == 2 ==> r.1[1] == Write(ByteWide, tiltId, ADDR_TORQUE_ENABLE, 1))
  {
    var c := Controller(connected, panId, tiltId);
    (c, EnableTorque(c))
  }

  /** A controller built with the default ids 11 and 12 enables torque on
      both servos, unless the pan servo's reply has a length byte of 0. */
  lemma DefaultInitEnablesBoth(link: Link)
    ensures var r := Init(Some(link), DEFAULT_PAN_ID, DEFAULT_TILT_ID);
            r.1[0] == Write(ByteWide, 11, ADDR_TORQUE_ENABLE, 1)
            && (|r.1| == 2 || WriteByte(link, 11, ADDR_TORQUE_ENABLE, 1) == Raised(IndexError))
            && (|r.1| == 2 ==> r.1[1] == Write(ByteWide, 12, ADDR_TORQUE_ENABLE, 1))
  {
  }

  /** With servo ids that fit in a byte, no goal write of the controller
      makes the driver raise ValueError, and the value the servo receives
      reads back unchanged as an unsigned word. */
  lemma GoalWritesReachTheWire(c: Controller, raw: int)
    requires c.driver.Some? && IsByte(c.panId) && IsByte(c.tiltId)
    ensures var ws := SetPanRaw(c, raw) + SetTiltRaw(c, raw);
            forall k :: 0 <= k < |ws| ==>
              Perform(c.driver.value, ws[k]) != Raised(ValueError)
              && DecodeUnsigned(LowByte(ws[k].value), HighByte(ws[k].value)) == ws[k].value
  {
    var ws := SetPanRaw(c, raw) + SetTiltRaw(c, raw);
    UnsignedWordRoundTrip(ws[0].value);
    UnsignedWordRoundTrip(ws[1].value);
  }
}
