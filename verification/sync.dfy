/** The per-device synchronisation state and its transitions
    (device/crop_sync.c). Each public call runs as one atomic step: the
    mutexes, the atomics and the lock-free fast path of `on_frame` collapse into
    sequential functions from state to state. */
module CropSync {
  import opened CropTypes
  import opened CropHash
  import opened CropRing

  /** `device_crop_sync_t` without its mutex. */
  datatype SyncState = SyncState(
    lastFrameUs: int64,
    lastAppliedHash: bv64,
    currentApplied: Rect,
    lastEvent: ApplyEvent,
    ring: seq<Command>,
    head: nat,
    count: nat,
    nextCmdId: nat,
    lastOptionCmdId: nat)

  predicate Wf(s: SyncState)
  {
    WellFormedRing(s.ring, s.head, s.count)
  }

  /** The live commands, newest first. */
  function Hist(s: SyncState): (h: seq<Command>)
    requires Wf(s)
    ensures |h| == s.count
  {
    History(s.ring, s.head, s.count)
  }

  /** The state `sync_get` allocates: everything zero (`calloc`), no crop, no
      event, an empty ring (device/crop_sync.c:59-68). */
  function Init(): (s: SyncState)
    ensures Wf(s) && Hist(s) == []
    ensures Inv(s)
    ensures s.lastFrameUs == 0 && s.lastAppliedHash == 0
    ensures s.currentApplied == ZeroRect && !s.currentApplied.valid
    ensures s.lastEvent == NoEvent && s.nextCmdId == 0 && s.lastOptionCmdId == 0
  {
    SyncState(0, 0, ZeroRect, NoEvent, seq(HISTORY, _ => ZeroCommand), 0, 0, 0, 0)
  }

  // ---------------------------------------------------------------------------
  // What every reachable state satisfies

  /** Field relations a command keeps for its whole life: a Pending command has
      never been touched, an Applied one shows what it asked for, and a
      Superseded one was superseded by the command submitted right after it. */
  predicate CommandInv(c: Command)
  {
    && (c.state == Pending ==>
          c.supersededBy == 0 && c.lastBeforeUs == 0 && c.firstAfterUs == 0 && c.applied == ZeroRect)
    && (c.state == Applied ==> c.supersededBy == 0 && c.applied == c.desired)
    && (c.state == Superseded ==>
          c.supersededBy == c.cmdId + 1 && (c.applied == ZeroRect || c.applied == c.desired))
  }

  /** Entry `i` of a newest-first history carries id `top - i`. */
  predicate IdsDescendFrom(h: seq<Command>, top: nat)
  {
    forall i :: 0 <= i < |h| ==> h[i].cmdId == top - i
  }

  /** Only the newest entry of a history may still be Pending, and every entry
      keeps its field relations. */
  predicate WellFormedHistory(h: seq<Command>)
  {
    && (forall i :: 0 < i < |h| ==> h[i].state != Pending)
    && (forall i :: 0 <= i < |h| ==> CommandInv(h[i]))
  }

  /** Ids 1..nextCmdId were handed out, the newest 64 of them are live, and
      the take-and-clear slot holds nothing or the latest id. */
  predicate CounterInv(s: SyncState)
    requires Wf(s)
  {
    && s.count == Min(s.nextCmdId, HISTORY)
    && IdsDescendFrom(Hist(s), s.nextCmdId)
    && (s.lastOptionCmdId == 0 || s.lastOptionCmdId == s.nextCmdId)
  }

  /** The stored fingerprint is that of the applied rectangle (or the initial
      0), and the last event describes the applied rectangle. */
  predicate AppliedInv(s: SyncState)
  {
    && (s.lastAppliedHash == RectHash(s.currentApplied)
        || (s.lastAppliedHash == 0 && s.currentApplied == ZeroRect))
    && (s.lastEvent.valid ==>
          s.lastEvent.applied == s.currentApplied && s.lastEvent.cmdId <= s.nextCmdId)
    && (!s.lastEvent.valid ==> s.lastEvent == NoEvent)
  }

  /** What every reachable state satisfies. */
  predicate Inv(s: SyncState)
  {
    Wf(s) && CounterInv(s) && WellFormedHistory(Hist(s)) && AppliedInv(s)
  }

  // ---------------------------------------------------------------------------
  // Scanning the history newest-first

  /** `i` is the first index of `h` whose entry satisfies `p`. */
  predicate FirstWhere(h: seq<Command>, p: Command -> bool, i: nat)
  {
    i < |h| && p(h[i]) && forall j :: 0 <= j < i ==> !p(h[j])
  }

  /** The newest-first scans of `submit` and `on_frame`, which walk the live
      entries from offset `from` and stop at the first one that passes the
      test. */
  function FindFirst(h: seq<Command>, p: Command -> bool, from: nat): (r: Option<nat>)
    requires from <= |h|
    requires forall j :: 0 <= j < from ==> !p(h[j])
    decreases |h| - from
    ensures r.Some? ==> from <= r.value && FirstWhere(h, p, r.value)
    ensures r.None? <==> forall j :: 0 <= j < |h| ==> !p(h[j])
  {
    if from == |h| then None
    else if p(h[from]) then Some(from)
    else FindFirst(h, p, from + 1)
  }

  /** A command `submit` may supersede: not yet bracketed and still Pending
      (device/crop_sync.c:129). */
  predicate Supersedable(c: Command)
  {
    c.firstAfterUs == 0 && c.state == Pending
  }

  /** A command a frame showing `obs` may bracket: not yet bracketed, whatever
      its state, and desiring exactly `obs` (device/crop_sync.c:207-208). */
  predicate Bracketable(c: Command, obs: Rect)
  {
    c.firstAfterUs == 0 && c.desired == obs
  }

  function BracketableFor(obs: Rect): Command -> bool
  {
    c => Bracketable(c, obs)
  }

  /** A freshly inserted command (device/crop_sync.c:137-149). */
  function NewCommand(id: nat, desired: Rect): Command
  {
    Command(id, Pending, 0, desired, 0, 0, ZeroRect)
  }

  /** Records the transition interval on a command, promoting it only if it
      was Pending (device/crop_sync.c:209-212 and 155-158). */
  function Bracket(c: Command, before: int64, after: int64, applied: Rect): Command
  {
    c.(lastBeforeUs := before, firstAfterUs := after, applied := applied,
       state := if c.state == Pending then Applied else c.state)
  }

  // ---------------------------------------------------------------------------
  // device_crop_sync_submit (device/crop_sync.c:121-167)

  function Supersede(c: Command, id: nat): Command
  {
    c.(state := Superseded, supersededBy := id)
  }

  /** The history after `submit`'s scan (device/crop_sync.c:126-134): the
      newest supersedable command is superseded by `id`, nothing else changes. */
  function SupersedeFirst(h: seq<Command>, id: nat): (h': seq<Command>)
    ensures |h'| == |h|
    ensures forall i :: 0 <= i < |h| ==>
      h'[i] == if FirstWhere(h, Supersedable, i) then Supersede(h[i], id) else h[i]
  {
    match FindFirst(h, Supersedable, 0)
    case None => h
    case Some(k) =>
      assert forall i :: 0 <= i < |h| && FirstWhere(h, Supersedable, i) ==> i == k;
      h[k := Supersede(h[k], id)]
  }

  /** The same scan carried out on the ring slots. */
  function SupersedeInRing(s: SyncState, id: nat): (ring': seq<Command>)
    requires Wf(s)
    ensures WellFormedRing(ring', s.head, s.count)
    ensures History(ring', s.head, s.count) == SupersedeFirst(Hist(s), id)
  {
    var h := Hist(s);
    match FindFirst(h, Supersedable, 0)
    case None => s.ring
    case Some(k) =>
      UpdateOneEntry(s.ring, s.head, s.count, k, Supersede(h[k], id));
      s.ring[NewestSlot(s.head, k) := Supersede(h[k], id)]
  }

  /** Whether `submit` resolves a new command at once: a frame has been seen
      and the hardware already shows the desired rectangle. */
  predicate ResolvesAtOnce(s: SyncState, desired: Rect)
  {
    s.lastFrameUs != 0 && s.currentApplied == desired
  }

  function Submit(s: SyncState, desired: Rect): (res: (SyncState, nat))
    requires Wf(s)
    ensures Wf(res.0)
    ensures res.1 == s.nextCmdId + 1 == res.0.nextCmdId
    ensures res.0.lastOptionCmdId == res.1
    ensures res.0.count == Min(s.count + 1, HISTORY) && res.0.count >= 1
    ensures res.0.head == (s.head + 1) % HISTORY
    ensures res.0.lastFrameUs == s.lastFrameUs && res.0.lastAppliedHash == s.lastAppliedHash
    ensures res.0.currentApplied == s.currentApplied
    // the new command is the newest entry
    ensures var e := Hist(res.0)[0];
      && e.cmdId == res.1 && e.desired == desired && e.supersededBy == 0
      && (ResolvesAtOnce(s, desired) ==>
            && e.state == Applied && e.applied == desired
            && e.lastBeforeUs == e.firstAfterUs == s.lastFrameUs
            && res.0.lastEvent == ApplyEvent(true, res.1, s.lastFrameUs, s.lastFrameUs, desired))
      && (!ResolvesAtOnce(s, desired) ==>
            && e.state == Pending && e.applied == ZeroRect
            && e.lastBeforeUs == e.firstAfterUs == 0
            && res.0.lastEvent == s.lastEvent)
    // older entries shift back by one, the oldest falls off a full ring
    ensures Hist(res.0)[1..] == SupersedeFirst(Hist(s), res.1)[..res.0.count - 1]
  {
    var id := s.nextCmdId + 1;
    var ring1 := SupersedeInRing(s, id);
    var resolve := s.lastFrameUs != 0 &&
      RectMatches(s.currentApplied, desired.valid, desired.x, desired.y, desired.width, desired.height);
    var e := if resolve then Bracket(NewCommand(id, desired), s.lastFrameUs, s.lastFrameUs, desired)
             else NewCommand(id, desired);
    InsertPushesFront(ring1, s.head, s.count, e);
    var s' := s.(
      ring := ring1[s.head := e],
      head := (s.head + 1) % HISTORY,
      count := if s.count < HISTORY then s.count + 1 else s.count,
      nextCmdId := id,
      lastOptionCmdId := id,
      lastEvent := if resolve then ApplyEvent(true, id, s.lastFrameUs, s.lastFrameUs, desired)
                   else s.lastEvent);
    assert Hist(s') == [e] + SupersedeFirst(Hist(s), id)[..s'.count - 1];
    (s', id)
  }

  // ---------------------------------------------------------------------------
  // device_crop_sync_take_last_cmd_id (device/crop_sync.c:169-177)

  function TakeLastCmdId(s: SyncState): (SyncState, nat)
  {
    (s.(lastOptionCmdId := 0), s.lastOptionCmdId)
  }

  // ---------------------------------------------------------------------------
  // device_crop_sync_on_frame (device/crop_sync.c:179-219)

  /** The rectangle `on_frame` observes: x and y arrive unsigned and are
      reinterpreted as `int32_t` (device/crop_sync.c:183-184). */
  function Observed(valid: bool, x: uint32, y: uint32, w: uint32, h: uint32): (r: Rect)
    ensures r.valid == valid && r.width == w && r.height == h
    ensures r.x % 0x1_0000_0000 == x && r.y % 0x1_0000_0000 == y
  {
    Rect(valid, ToInt32(x), ToInt32(y), w, h)
  }

  /** The history after `on_frame`'s matching scan (device/crop_sync.c:204-215),
      with the id of the bracketed command, or 0 when none matched. */
  function BracketFirst(h: seq<Command>, obs: Rect, before: int64, after: int64)
    : (res: (seq<Command>, nat))
    ensures |res.0| == |h|
    ensures forall i :: 0 <= i < |h| ==>
      if FirstWhere(h, BracketableFor(obs), i)
      then res.0[i] == Bracket(h[i], before, after, obs) && res.1 == h[i].cmdId
      else res.0[i] == h[i]
    ensures (forall i :: 0 <= i < |h| ==> !Bracketable(h[i], obs)) ==> res == (h, 0)
  {
    match FindFirst(h, BracketableFor(obs), 0)
    case None => (h, 0)
    case Some(k) =>
      (h[k := Bracket(h[k], before, after, obs)], h[k].cmdId)
  }

  /** The same scan carried out on the ring slots. */
  function BracketInRing(s: SyncState, obs: Rect, before: int64, after: int64)
    : (res: (seq<Command>, nat))
    requires Wf(s)
    ensures WellFormedRing(res.0, s.head, s.count)
    ensures (History(res.0, s.head, s.count), res.1) == BracketFirst(Hist(s), obs, before, after)
  {
    var h := Hist(s);
    match FindFirst(h, BracketableFor(obs), 0)
    case None => (s.ring, 0)
    case Some(k) =>
      UpdateOneEntry(s.ring, s.head, s.count, k, Bracket(h[k], before, after, obs));
      (s.ring[NewestSlot(s.head, k) := Bracket(h[k], before, after, obs)], h[k].cmdId)
  }

  function OnFrame(s: SyncState, t: uint64, valid: bool, x: uint32, y: uint32, w: uint32, h: uint32)
    : (s': SyncState)
    requires Wf(s)
    ensures Wf(s')
    // the frame time is always recorded
    ensures s'.lastFrameUs == ToInt64(t)
    // bookkeeping that only `submit` touches
    ensures s'.head == s.head && s'.count == s.count
    ensures s'.nextCmdId == s.nextCmdId && s'.lastOptionCmdId == s.lastOptionCmdId
    ensures var obs := Observed(valid, x, y, w, h);
      RectHash(obs) == s.lastAppliedHash ==> s' == s.(lastFrameUs := ToInt64(t))
    ensures var obs := Observed(valid, x, y, w, h);
      RectHash(obs) != s.lastAppliedHash ==>
        var (h', id) := BracketFirst(Hist(s), obs, s.lastFrameUs, ToInt64(t));
        && s'.currentApplied == obs
        && s'.lastAppliedHash == RectHash(obs)
        && s'.lastEvent == ApplyEvent(true, id, s.lastFrameUs, ToInt64(t), obs)
        && Hist(s') == h'
  {
    var prev := s.lastFrameUs;
    var now := ToInt64(t);
    var obs := Observed(valid, x, y, w, h);
    var hv := RectHash(obs);
    var s1 := s.(lastFrameUs := now);
    if hv == s.lastAppliedHash then s1
    else
      var (ring', id) := BracketInRing(s, obs, prev, now);
      s1.(currentApplied := obs, lastAppliedHash := hv, ring := ring',
          lastEvent := ApplyEvent(true, id, prev, now, obs))
  }

  // ---------------------------------------------------------------------------
  // device_crop_sync_snapshot and device_crop_sync_get_cmd
  // (device/crop_sync.c:221-256)

  function TakeSnapshot(s: SyncState): (snap: Snapshot)
    requires Wf(s)
    ensures |snap.history| == HISTORY
    ensures snap.historyCount == s.count <= HISTORY
    ensures snap.currentApplied == s.currentApplied
    ensures snap.lastFrameUs == s.lastFrameUs && snap.lastEvent == s.lastEvent
    ensures forall i :: 0 <= i < s.count ==>
      RingNewest(s.ring, s.head, s.count, i) == Some(snap.history[i])
    ensures forall i :: s.count <= i < HISTORY ==> snap.history[i] == ZeroCommand
    // so a caller reading past `history_count` sees id 0 and state code 0
    ensures forall i :: s.count <= i < HISTORY ==>
      snap.history[i].cmdId == 0 && StateCode(snap.history[i].state) == 0
  {
    var h := Hist(s);
    Snapshot(s.currentApplied, s.lastFrameUs, s.lastEvent,
             seq(HISTORY, i requires 0 <= i < HISTORY => if i < s.count then h[i] else ZeroCommand),
             s.count)
  }

  function GetCmd(s: SyncState, id: nat): (r: Option<Command>)
    requires Wf(s)
    ensures r.Some? ==> r.value.cmdId == id && r.value in Hist(s)
    ensures r.Some? ==> exists i: nat :: FirstWhere(Hist(s), (c: Command) => c.cmdId == id, i) && r.value == Hist(s)[i]
    ensures r.None? <==> forall i :: 0 <= i < s.count ==> Hist(s)[i].cmdId != id
  {
    var h := Hist(s);
    match FindFirst(h, (c: Command) => c.cmdId == id, 0)
    case None => None
    case Some(i) => Some(h[i])
  }
}
