/** Value types of the crop/frame synchronisation engine: fixed-width integers,
    the crop rectangle, the command lifecycle, the apply event and the snapshot
    handed to callers (device/crop_sync.h). */
module CropTypes {

  /** Capacity of the per-device command ring and of a snapshot's history. */
  const HISTORY: nat := 64

  type int32 = x: int | -0x8000_0000 <= x < 0x8000_0000
  type uint32 = x: int | 0 <= x < 0x1_0000_0000
  type int64 = x: int | -0x8000_0000_0000_0000 <= x < 0x8000_0000_0000_0000
  type uint64 = x: int | 0 <= x < 0x1_0000_0000_0000_0000

  datatype Option<+T> = None | Some(value: T)

  /** `(int32_t)u`: two's-complement reinterpretation of an unsigned 32-bit value. */
  function ToInt32(u: uint32): (r: int32)
    ensures 0 <= r ==> r == u
    ensures r < 0 ==> r == u - 0x1_0000_0000
    ensures (r % 0x1_0000_0000) == u
  {
    if u < 0x8000_0000 then u else u - 0x1_0000_0000
  }

  /** `(int64_t)t`: two's-complement reinterpretation of an unsigned 64-bit value. */
  function ToInt64(t: uint64): (r: int64)
    ensures 0 <= r ==> r == t
    ensures r < 0 ==> r == t - 0x1_0000_0000_0000_0000
    ensures (r % 0x1_0000_0000_0000_0000) == t
  {
    if t < 0x8000_0000_0000_0000 then t else t - 0x1_0000_0000_0000_0000
  }

  /** A crop rectangle; `valid == false` means "no crop" (full sensor). */
  datatype Rect = Rect(valid: bool, x: int32, y: int32, width: uint32, height: uint32)

  /** The all-zero rectangle left by `calloc`/`memset`. */
  const ZeroRect: Rect := Rect(false, 0, 0, 0, 0)

  /** `rect_matches`: the field-by-field comparison the engine uses. */
  function RectMatches(r: Rect, valid: bool, x: int32, y: int32, w: uint32, h: uint32): (b: bool)
    ensures b <==> r == Rect(valid, x, y, w, h)
  {
    r.valid == valid && r.x == x && r.y == y && r.width == w && r.height == h
  }

  /** Lifecycle of a submitted command; the header numbers them 0, 1, 2. */
  datatype CmdState = Pending | Applied | Superseded

  /** The number a caller reads in the `state` field of a command copied out
      by `snapshot` or `get_cmd`: the header's enumerator values. */
  function StateCode(st: CmdState): (code: nat)
    ensures code < 3
    ensures code == 0 <==> st == Pending
    ensures code == 1 <==> st == Applied
    ensures code == 2 <==> st == Superseded
  {
    match st
    case Pending => 0
    case Applied => 1
    case Superseded => 2
  }

  /** One submitted command. Ids are unbounded here (see README, "Left out"). */
  datatype Command = Command(
    cmdId: nat,
    state: CmdState,
    supersededBy: nat,
    desired: Rect,
    lastBeforeUs: int64,
    firstAfterUs: int64,
    applied: Rect)

  /** The all-zero command left by `calloc`/`memset`. */
  const ZeroCommand: Command := Command(0, Pending, 0, ZeroRect, 0, 0, ZeroRect)

  /** The most recent observed transition of the hardware crop. */
  datatype ApplyEvent = ApplyEvent(
    valid: bool,
    cmdId: nat,
    lastBeforeUs: int64,
    firstAfterUs: int64,
    applied: Rect)

  const NoEvent: ApplyEvent := ApplyEvent(false, 0, 0, 0, ZeroRect)

  /** What `device_crop_sync_snapshot` copies out: a fixed 64-slot history of
      which only the first `historyCount` entries are meaningful. */
  datatype Snapshot = Snapshot(
    currentApplied: Rect,
    lastFrameUs: int64,
    lastEvent: ApplyEvent,
    history: seq<Command>,
    historyCount: nat)

  function Min(a: nat, b: nat): nat
  {
    if a <= b then a else b
  }
}
