/** The process-wide device registry (the node type and `g_head` at
    device/crop_sync.c:20-27, `sync_get` at 43-82 and
    `device_crop_sync_detach` at 90-109) and the public
    entry points that look a device up before delegating to its state
    (device/crop_sync.c:121-256). The linked list becomes a sequence of nodes,
    newest first; a device becomes a number, 0 standing for NULL. The
    two `calloc` calls of `sync_get` are summed up by one flag, `allocOk`:
    when it is false, either allocation failed and nothing was linked. */
module CropRegistry {
  import opened CropTypes
  import opened CropSync
  import opened CropSyncLemmas

  /** A device handle; 0 stands for NULL. */
  type Dev = nat

  const NullDev: Dev := 0

  /** `device_crop_sync_node_t` without its `next` link. */
  datatype Node = Node(dev: Dev, sync: SyncState)

  /** The list starting at `g_head`. */
  type Registry = seq<Node>

  /** No device is linked twice. */
  predicate Distinct(reg: Registry)
  {
    forall i, j :: 0 <= i < j < |reg| ==> reg[i].dev != reg[j].dev
  }

  /** Every node satisfies `p`. */
  predicate Every(reg: Registry, p: Node -> bool)
  {
    forall i :: 0 <= i < |reg| ==> p(reg[i])
  }

  /** The node is keyed by a real device and holds a reachable state. */
  predicate GoodNode(n: Node)
  {
    n.dev != NullDev && Inv(n.sync)
  }

  predicate WfNode(n: Node)
  {
    Wf(n.sync)
  }

  predicate AllGood(reg: Registry)
  {
    Every(reg, GoodNode)
  }

  /** Every linked state has the shape of a ring of 64 slots (implied by
      `AllGood`, stated apart so the entry points need only this). */
  predicate AllWf(reg: Registry)
  {
    Every(reg, WfNode)
  }

  lemma EveryPut(reg: Registry, i: nat, n: Node, p: Node -> bool)
    requires Every(reg, p) && i < |reg| && p(n)
    ensures Every(reg[i := n], p)
  {
  }

  lemma EveryPrepend(reg: Registry, n: Node, p: Node -> bool)
    requires Every(reg, p) && p(n)
    ensures Every([n] + reg, p)
  {
    assert forall j :: 0 < j < |reg| + 1 ==> ([n] + reg)[j] == reg[j - 1];
  }

  lemma DistinctRemove(reg: Registry, i: nat)
    requires Distinct(reg) && i < |reg|
    ensures Distinct(reg[..i] + reg[i + 1..])
  {
    var reg' := reg[..i] + reg[i + 1..];
    assert forall j :: 0 <= j < |reg'| ==> reg'[j] == reg[if j < i then j else j + 1];
  }

  lemma DistinctPut(reg: Registry, i: nat, n: Node)
    requires Distinct(reg) && i < |reg| && n.dev == reg[i].dev
    ensures Distinct(reg[i := n])
  {
    assert forall j :: 0 <= j < |reg| ==> reg[i := n][j].dev == reg[j].dev;
  }

  lemma EveryRemove(reg: Registry, i: nat, p: Node -> bool)
    requires Every(reg, p) && i < |reg|
    ensures Every(reg[..i] + reg[i + 1..], p)
  {
    var reg' := reg[..i] + reg[i + 1..];
    assert forall j :: 0 <= j < |reg'| ==> reg'[j] == reg[if j < i then j else j + 1];
  }

  predicate RegistryInv(reg: Registry)
  {
    Distinct(reg) && AllWf(reg) && AllGood(reg)
  }

  /** The walk of `sync_get` and `detach` from the head: the position of the
      first node for `dev`. */
  function Lookup(reg: Registry, dev: Dev): (r: Option<nat>)
    ensures r.Some? ==> r.value < |reg| && reg[r.value].dev == dev
    ensures r.Some? ==> forall j :: 0 <= j < r.value ==> reg[j].dev != dev
    ensures r.None? <==> forall j :: 0 <= j < |reg| ==> reg[j].dev != dev
  {
    if reg == [] then None
    else if reg[0].dev == dev then Some(0)
    else match Lookup(reg[1..], dev)
      case None => None
      case Some(i) => Some(i + 1)
  }

  /** The state linked for `dev`, if any. */
  function Find(reg: Registry, dev: Dev): Option<SyncState>
  {
    match Lookup(reg, dev)
    case None => None
    case Some(i) => Some(reg[i].sync)
  }

  // ---------------------------------------------------------------------------
  // sync_get (device/crop_sync.c:43-82)

  /** The registry after the lookup and the position of the device's state, or
      None for NULL: a NULL device, an unknown device when `create` is false,
      or a failed allocation. A new state is linked at the head. */
  function SyncGet(reg: Registry, dev: Dev, create: bool, allocOk: bool): (res: (Registry, Option<nat>))
    ensures res.1.Some? ==> res.1.value < |res.0| && res.0[res.1.value].dev == dev
    ensures res.1.None? <==>
      dev == NullDev || (Lookup(reg, dev).None? && !(create && allocOk))
    ensures res.1.None? ==> res.0 == reg
    ensures Lookup(reg, dev).Some? && dev != NullDev ==>
      res == (reg, Lookup(reg, dev))
    ensures dev != NullDev && Lookup(reg, dev).None? && create && allocOk ==>
      res == ([Node(dev, Init())] + reg, Some(0))
  {
    if dev == NullDev then (reg, None)
    else match Lookup(reg, dev)
      case Some(i) => (reg, Some(i))
      case None =>
        if !create || !allocOk then (reg, None)
        else ([Node(dev, Init())] + reg, Some(0))
  }

  /** The state an entry point works on: the linked one, or a fresh one. */
  function Current(reg: Registry, dev: Dev): (s: SyncState)
    ensures AllWf(reg) ==> Wf(s)
  {
    match Find(reg, dev)
    case None => Init()
    case Some(s) => s
  }

  /** Replaces the state at position `i`. */
  function Put(reg: Registry, i: nat, s: SyncState): (reg': Registry)
    requires i < |reg|
    ensures |reg'| == |reg| && reg'[i] == Node(reg[i].dev, s)
    ensures forall j :: 0 <= j < |reg| && j != i ==> reg'[j] == reg[j]
  {
    reg[i := Node(reg[i].dev, s)]
  }

  /** `Lookup` only looks at the devices, so two lists with the same devices
      in the same order agree on every lookup. */
  lemma LookupSameDevs(a: Registry, b: Registry, d: Dev)
    requires |a| == |b| && forall j :: 0 <= j < |a| ==> a[j].dev == b[j].dev
    ensures Lookup(a, d) == Lookup(b, d)
  {
    match Lookup(a, d)
    case None =>
    case Some(i) =>
      assert b[i].dev == d;
      var k := Lookup(b, d).value;
      assert a[k].dev == d;
  }

  /** Overwriting the state at the position `Lookup` reports for `reg[i].dev`
      changes what `Find` reports for that device and for no other. */
  lemma FindAfterPut(reg: Registry, i: nat, s: SyncState)
    requires i < |reg| && Lookup(reg, reg[i].dev) == Some(i)
    ensures forall d :: Find(Put(reg, i, s), d) == if d == reg[i].dev then Some(s) else Find(reg, d)
  {
    var reg' := Put(reg, i, s);
    forall d
      ensures Find(reg', d) == if d == reg[i].dev then Some(s) else Find(reg, d)
    {
      LookupSameDevs(reg', reg, d);
    }
  }

  /** A node linked at the head answers for its device and hides nothing
      else. */
  lemma FindAfterPrepend(reg: Registry, n: Node)
    ensures forall d :: Find([n] + reg, d) == if d == n.dev then Some(n.sync) else Find(reg, d)
  {
    var reg' := [n] + reg;
    assert reg'[1..] == reg;
  }

  /** When `sync_get` yields a state, it is the device's current one, the
      lookup finds it where it was returned, and every other device still
      finds what it found before. */
  lemma SyncGetFacts(reg: Registry, dev: Dev, create: bool, allocOk: bool)
    requires AllWf(reg)
    ensures var (reg1, r) := SyncGet(reg, dev, create, allocOk);
      && (forall d :: d != dev ==> Find(reg1, d) == Find(reg, d))
      && (r.Some? ==>
            && Lookup(reg1, dev) == r
            && reg1[r.value].sync == Current(reg, dev)
            && Wf(reg1[r.value].sync))
  {
    var (reg1, r) := SyncGet(reg, dev, create, allocOk);
    if dev != NullDev && Lookup(reg, dev).None? && create && allocOk {
      FindAfterPrepend(reg, Node(dev, Init()));
      assert Lookup(reg1, dev) == Some(0);
    }
  }

  // ---------------------------------------------------------------------------
  // The public entry points

  /** `device_crop_sync_submit`: 0 when no state can be had, else the new id. */
  function DeviceSubmit(reg: Registry, dev: Dev, desired: Rect, allocOk: bool): (res: (Registry, nat))
    requires AllWf(reg)
    ensures res.1 == 0 <==> dev == NullDev || (Find(reg, dev).None? && !allocOk)
    ensures res.1 == 0 ==> res.0 == reg
    ensures res.1 != 0 ==>
      && res.1 == Current(reg, dev).nextCmdId + 1
      && Find(res.0, dev) == Some(Submit(Current(reg, dev), desired).0)
    ensures forall d :: d != dev ==> Find(res.0, d) == Find(reg, d)
  {
    SyncGetFacts(reg, dev, true, allocOk);
    match SyncGet(reg, dev, true, allocOk)
    case (reg1, None) => (reg1, 0)
    case (reg1, Some(i)) =>
      var (s', id) := Submit(reg1[i].sync, desired);
      FindAfterPut(reg1, i, s');
      (Put(reg1, i, s'), id)
  }

  /** `device_crop_sync_on_frame`: creates the device's state if needed. */
  function DeviceOnFrame(reg: Registry, dev: Dev, t: uint64, valid: bool,
                         x: uint32, y: uint32, w: uint32, h: uint32, allocOk: bool): (reg': Registry)
    requires AllWf(reg)
    ensures dev == NullDev || (Find(reg, dev).None? && !allocOk) ==> reg' == reg
    ensures dev != NullDev && (Find(reg, dev).Some? || allocOk) ==>
      Find(reg', dev) == Some(OnFrame(Current(reg, dev), t, valid, x, y, w, h))
    ensures forall d :: d != dev ==> Find(reg', d) == Find(reg, d)
  {
    SyncGetFacts(reg, dev, true, allocOk);
    match SyncGet(reg, dev, true, allocOk)
    case (reg1, None) => reg1
    case (reg1, Some(i)) =>
      var s' := OnFrame(reg1[i].sync, t, valid, x, y, w, h);
      FindAfterPut(reg1, i, s');
      Put(reg1, i, s')
  }

  /** `device_crop_sync_take_last_cmd_id`: 0 for an unknown device, which is
      not created. */
  function DeviceTakeLastCmdId(reg: Registry, dev: Dev): (res: (Registry, nat))
    requires AllWf(reg)
    ensures dev == NullDev || Find(reg, dev).None? ==> res == (reg, 0)
    ensures dev != NullDev && Find(reg, dev).Some? ==>
      && res.1 == Find(reg, dev).value.lastOptionCmdId
      && Find(res.0, dev) == Some(Find(reg, dev).value.(lastOptionCmdId := 0))
    ensures forall d :: d != dev ==> Find(res.0, d) == Find(reg, d)
  {
    SyncGetFacts(reg, dev, false, true);
    match SyncGet(reg, dev, false, true)
    case (reg1, None) => (reg1, 0)
    case (reg1, Some(i)) =>
      var (s', id) := TakeLastCmdId(reg1[i].sync);
      FindAfterPut(reg1, i, s');
      (Put(reg1, i, s'), id)
  }

  /** `device_crop_sync_snapshot`: None (-1) when `out` is NULL or the device
      is unknown; the device is never created. */
  function DeviceSnapshot(reg: Registry, dev: Dev, outPresent: bool): (r: Option<Snapshot>)
    requires AllWf(reg)
    ensures r.Some? <==> outPresent && dev != NullDev && Find(reg, dev).Some?
    ensures r.Some? ==> r.value == TakeSnapshot(Find(reg, dev).value)
  {
    SyncGetFacts(reg, dev, false, true);
    if !outPresent then None
    else match SyncGet(reg, dev, false, true)
      case (_, None) => None
      case (reg1, Some(i)) => Some(TakeSnapshot(reg1[i].sync))
  }

  /** `device_crop_sync_get_cmd`: None (-1) when `out` is NULL, the device is
      unknown or no live command carries the id. */
  function DeviceGetCmd(reg: Registry, dev: Dev, id: nat, outPresent: bool): (r: Option<Command>)
    requires AllWf(reg)
    ensures r.Some? <==> outPresent && dev != NullDev && Find(reg, dev).Some?
                          && GetCmd(Find(reg, dev).value, id).Some?
    ensures r.Some? ==> r == GetCmd(Find(reg, dev).value, id)
  {
    SyncGetFacts(reg, dev, false, true);
    if !outPresent then None
    else match SyncGet(reg, dev, false, true)
      case (_, None) => None
      case (reg1, Some(i)) => GetCmd(reg1[i].sync, id)
  }

  /** The list with its first node for `dev` unlinked. */
  function Unlink(reg: Registry, dev: Dev): (reg': Registry)
    ensures Lookup(reg, dev).None? ==> reg' == reg
    ensures Lookup(reg, dev).Some? ==>
      reg' == reg[..Lookup(reg, dev).value] + reg[Lookup(reg, dev).value + 1..]
  {
    if reg == [] then []
    else if reg[0].dev == dev then reg[1..]
    else
      var rest := Unlink(reg[1..], dev);
      assert Lookup(reg[1..], dev).Some? ==>
        [reg[0]] + reg[1..][..Lookup(reg[1..], dev).value] == reg[..Lookup(reg, dev).value];
      [reg[0]] + rest
  }

  /** `device_crop_sync_detach`: a NULL device is ignored, an unknown one
      leaves the list as it is. */
  function Detach(reg: Registry, dev: Dev): (reg': Registry)
    requires Distinct(reg)
    ensures dev != NullDev ==> Find(reg', dev).None?
    ensures forall d :: d != dev ==> Find(reg', d) == Find(reg, d)
    ensures AllWf(reg) ==> AllWf(reg')
  {
    UnlinkFind(reg, dev);
    if dev == NullDev then reg else Unlink(reg, dev)
  }

  /** Unlinking a device from a list that holds it at most once makes it
      unknown and leaves every other device where it was. */
  lemma {:induction false} UnlinkFind(reg: Registry, dev: Dev)
    requires Distinct(reg)
    ensures Find(Unlink(reg, dev), dev).None?
    ensures forall d :: d != dev ==> Find(Unlink(reg, dev), d) == Find(reg, d)
  {
    if reg != [] {
      var tail := reg[1..];
      assert reg == [reg[0]] + tail;
      FindAfterPrepend(tail, reg[0]);
      if reg[0].dev == dev {
        assert Lookup(tail, dev).None?;
      } else {
        UnlinkFind(tail, dev);
        FindAfterPrepend(Unlink(tail, dev), reg[0]);
      }
    }
  }

  // ---------------------------------------------------------------------------
  // The registry invariant

  /** Storing a reachable state in place keeps the registry invariant. */
  lemma PutKeepsInv(reg: Registry, i: nat, s: SyncState)
    requires RegistryInv(reg) && i < |reg| && Inv(s)
    ensures RegistryInv(Put(reg, i, s))
  {
    var n := Node(reg[i].dev, s);
    assert GoodNode(reg[i]);
    EveryPut(reg, i, n, GoodNode);
    EveryPut(reg, i, n, WfNode);
    DistinctPut(reg, i, n);
  }

  /** `sync_get` keeps the registry invariant and hands out a reachable
      state. */
  lemma SyncGetKeepsInv(reg: Registry, dev: Dev, create: bool, allocOk: bool)
    requires RegistryInv(reg)
    ensures var (reg1, r) := SyncGet(reg, dev, create, allocOk);
      && RegistryInv(reg1)
      && (r.Some? ==> Inv(reg1[r.value].sync))
  {
    var (reg1, r) := SyncGet(reg, dev, create, allocOk);
    if dev != NullDev && Lookup(reg, dev).None? && create && allocOk {
      PrependKeepsInv(reg, Node(dev, Init()));
    } else if r.Some? {
      assert GoodNode(reg[r.value]);
    }
  }

  /** Linking a good node for a device not yet present keeps the invariant. */
  lemma PrependKeepsInv(reg: Registry, n: Node)
    requires RegistryInv(reg) && GoodNode(n)
    requires forall j :: 0 <= j < |reg| ==> reg[j].dev != n.dev
    ensures RegistryInv([n] + reg)
  {
    EveryPrepend(reg, n, GoodNode);
    EveryPrepend(reg, n, WfNode);
    DistinctPrepend(reg, n);
  }

  lemma DistinctPrepend(reg: Registry, n: Node)
    requires Distinct(reg)
    requires forall j :: 0 <= j < |reg| ==> reg[j].dev != n.dev
    ensures Distinct([n] + reg)
  {
    var reg1 := [n] + reg;
    forall i, j | 0 <= i < j < |reg1|
      ensures reg1[i].dev != reg1[j].dev
    {
      assert reg1[j] == reg[j - 1];
      if i > 0 {
        assert reg1[i] == reg[i - 1];
      }
    }
  }

  lemma DeviceSubmitKeepsInv(reg: Registry, dev: Dev, desired: Rect, allocOk: bool)
    requires RegistryInv(reg)
    ensures RegistryInv(DeviceSubmit(reg, dev, desired, allocOk).0)
  {
    SyncGetKeepsInv(reg, dev, true, allocOk);
    match SyncGet(reg, dev, true, allocOk)
    case (reg1, None) =>
    case (reg1, Some(i)) =>
      SubmitPreservesInv(reg1[i].sync, desired);
      PutKeepsInv(reg1, i, Submit(reg1[i].sync, desired).0);
  }

  lemma DeviceOnFrameKeepsInv(reg: Registry, dev: Dev, t: uint64, valid: bool,
                              x: uint32, y: uint32, w: uint32, h: uint32, allocOk: bool)
    requires RegistryInv(reg)
    ensures RegistryInv(DeviceOnFrame(reg, dev, t, valid, x, y, w, h, allocOk))
  {
    SyncGetKeepsInv(reg, dev, true, allocOk);
    match SyncGet(reg, dev, true, allocOk)
    case (reg1, None) =>
    case (reg1, Some(i)) =>
      OnFramePreservesInv(reg1[i].sync, t, valid, x, y, w, h);
      PutKeepsInv(reg1, i, OnFrame(reg1[i].sync, t, valid, x, y, w, h));
  }

  lemma DeviceTakeKeepsInv(reg: Registry, dev: Dev)
    requires RegistryInv(reg)
    ensures RegistryInv(DeviceTakeLastCmdId(reg, dev).0)
  {
    SyncGetKeepsInv(reg, dev, false, true);
    match SyncGet(reg, dev, false, true)
    case (reg1, None) =>
    case (reg1, Some(i)) =>
      TakePreservesInv(reg1[i].sync);
      PutKeepsInv(reg1, i, TakeLastCmdId(reg1[i].sync).0);
  }

  /** Unlinking a node keeps the registry invariant. */
  lemma DetachKeepsInv(reg: Registry, dev: Dev)
    requires RegistryInv(reg)
    ensures RegistryInv(Detach(reg, dev))
  {
    if dev != NullDev && Lookup(reg, dev).Some? {
      var i := Lookup(reg, dev).value;
      EveryRemove(reg, i, GoodNode);
      EveryRemove(reg, i, WfNode);
      DistinctRemove(reg, i);
    }
  }

  // ---------------------------------------------------------------------------
  // Detaching

  /** After `detach`, the queries that do not create a state fail for the
      device, and the next `submit` starts it afresh with id 1. */
  lemma DetachForgets(reg: Registry, dev: Dev, id: nat, desired: Rect)
    requires RegistryInv(reg) && dev != NullDev
    ensures var reg' := Detach(reg, dev);
      && DeviceTakeLastCmdId(reg', dev) == (reg', 0)
      && DeviceSnapshot(reg', dev, true).None?
      && DeviceGetCmd(reg', dev, id, true).None?
      && DeviceSubmit(reg', dev, desired, true).1 == 1
  {
    DetachKeepsInv(reg, dev);
  }
}
