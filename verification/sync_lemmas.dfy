/** Properties of the per-device transitions: the invariant is preserved, ids
    are handed out 1, 2, 3, ..., supersession chains each command to the next,
    and the ring keeps exactly the newest 64 ids. */
module CropSyncLemmas {
  import opened CropTypes
  import opened CropHash
  import opened CropRing
  import opened CropSync

  // ---------------------------------------------------------------------------
  // Invariant preservation

  /** Superseding the first supersedable entry, pushing a fresh newest entry
      and cutting the tail keeps a history well formed. */
  lemma PushKeepsHistory(h: seq<Command>, top: nat, h': seq<Command>)
    requires IdsDescendFrom(h, top) && WellFormedHistory(h)
    requires 1 <= |h'| <= |h| + 1
    requires h'[0].cmdId == top + 1 && CommandInv(h'[0])
    requires h'[1..] == SupersedeFirst(h, top + 1)[..|h'| - 1]
    ensures IdsDescendFrom(h', top + 1)
    ensures WellFormedHistory(h')
  {
    var sup := SupersedeFirst(h, top + 1);
    forall i | 0 < i < |h'|
      ensures h'[i].cmdId == top + 1 - i
      ensures h'[i].state != Pending
      ensures CommandInv(h'[i])
    {
      assert h'[i] == h'[1..][i - 1] == sup[i - 1];
      if FirstWhere(h, Supersedable, i - 1) {
        assert i - 1 == 0;
      } else if i - 1 == 0 {
        assert !Supersedable(h[0]);
      }
    }
  }

  /** The command `submit` inserts starts out with consistent fields. */
  lemma SubmitNewEntryInv(s: SyncState, desired: Rect)
    requires Wf(s)
    ensures CommandInv(Hist(Submit(s, desired).0)[0])
  {
  }

  lemma SubmitKeepsHistory(s: SyncState, desired: Rect)
    requires Wf(s) && IdsDescendFrom(Hist(s), s.nextCmdId) && WellFormedHistory(Hist(s))
    ensures IdsDescendFrom(Hist(Submit(s, desired).0), Submit(s, desired).0.nextCmdId)
    ensures WellFormedHistory(Hist(Submit(s, desired).0))
  {
    var r := Submit(s, desired);
    SubmitNewEntryInv(s, desired);
    PushKeepsHistory(Hist(s), s.nextCmdId, Hist(r.0));
  }

  lemma SubmitPreservesInv(s: SyncState, desired: Rect)
    requires Inv(s)
    ensures Inv(Submit(s, desired).0)
  {
    SubmitKeepsHistory(s, desired);
    var s' := Submit(s, desired).0;
    assert CounterInv(s');
    assert AppliedInv(s');
  }

  /** A bracketed entry keeps its id and cannot become Pending. */
  lemma BracketKeepsHistory(h: seq<Command>, top: nat, obs: Rect, before: int64, after: int64)
    requires IdsDescendFrom(h, top) && WellFormedHistory(h)
    ensures IdsDescendFrom(BracketFirst(h, obs, before, after).0, top)
    ensures WellFormedHistory(BracketFirst(h, obs, before, after).0)
    ensures BracketFirst(h, obs, before, after).1 <= top
  {
    var (h', id) := BracketFirst(h, obs, before, after);
    if id != 0 {
      var k :| 0 <= k < |h| && FirstWhere(h, BracketableFor(obs), k);
      assert id == h[k].cmdId;
    }
  }

  lemma OnFramePreservesInv(s: SyncState, t: uint64, valid: bool, x: uint32, y: uint32, w: uint32, h: uint32)
    requires Inv(s)
    ensures Inv(OnFrame(s, t, valid, x, y, w, h))
  {
    var s' := OnFrame(s, t, valid, x, y, w, h);
    var obs := Observed(valid, x, y, w, h);
    if RectHash(obs) == s.lastAppliedHash {
      assert Hist(s') == Hist(s);
    } else {
      BracketKeepsHistory(Hist(s), s.nextCmdId, obs, s.lastFrameUs, ToInt64(t));
      assert s'.lastAppliedHash == RectHash(s'.currentApplied);
    }
  }

  lemma TakePreservesInv(s: SyncState)
    requires Inv(s)
    ensures Inv(TakeLastCmdId(s).0)
  {
    assert Hist(TakeLastCmdId(s).0) == Hist(s);
  }

  /** What a caller of `take_last_cmd_id` gets: the id of the latest
      `submit` or 0, and only once, since a second take finds the slot
      cleared. */
  lemma TakeReturnsLatest(s: SyncState)
    requires Inv(s)
    ensures var (s', id) := TakeLastCmdId(s);
      && (id == 0 || id == s.nextCmdId)
      && TakeLastCmdId(s').1 == 0
      && s'.nextCmdId == s.nextCmdId && Hist(s') == Hist(s)
  {
  }

  /** A take right after a `submit` returns the id that `submit` returned. */
  lemma TakeAfterSubmit(s: SyncState, desired: Rect)
    requires Wf(s)
    ensures var (s1, id) := Submit(s, desired);
      id != 0 && TakeLastCmdId(s1).1 == id
  {
  }

  /** Bracketing a command with what it asked for, as both `submit`
      (device/crop_sync.c:154-158) and `on_frame` (device/crop_sync.c:207-212)
      do, settles it: it is no longer Pending, a Superseded command stays
      Superseded, and the command keeps its lifecycle relations. */
  lemma BracketSettles(c: Command, before: int64, after: int64)
    requires CommandInv(c)
    ensures var c' := Bracket(c, before, after, c.desired);
      && CommandInv(c')
      && c'.state != Pending
      && (c'.state == Superseded <==> c.state == Superseded)
      && c'.cmdId == c.cmdId && c'.firstAfterUs == after && c'.lastBeforeUs == before
  {
  }

  // ---------------------------------------------------------------------------
  // Supersession

  /** In a reachable state `submit` supersedes at most the command submitted
      just before it, and only when that one is still Pending; every other
      entry moves back one place untouched. */
  lemma SupersedesOnlyPrevious(s: SyncState, desired: Rect)
    requires Inv(s)
    ensures var (s', id) := Submit(s, desired);
      forall i :: 1 <= i < s'.count ==>
        Hist(s')[i] == if i == 1 && Hist(s)[0].state == Pending
                       then Supersede(Hist(s)[0], id)
                       else Hist(s)[i - 1]
    ensures var (s', id) := Submit(s, desired);
      s.count > 0 && Hist(s)[0].state == Pending ==>
        Hist(s')[1].state == Superseded && Hist(s')[1].supersededBy == id
        && Hist(s')[1].cmdId == id - 1
  {
    var r := Submit(s, desired);
    var s', id := r.0, r.1;
    var h, h' := Hist(s), Hist(s');
    var sup := SupersedeFirst(h, id);
    forall i | 1 <= i < s'.count
      ensures h'[i] == if i == 1 && h[0].state == Pending then Supersede(h[0], id) else h[i - 1]
    {
      assert h'[i] == h'[1..][i - 1] == sup[i - 1];
      if i == 1 && h[0].state == Pending {
        assert FirstWhere(h, Supersedable, 0);
      } else if i > 1 {
        assert !FirstWhere(h, Supersedable, i - 1) by {
          if h[0].state == Pending {
            assert Supersedable(h[0]);
          } else {
            assert h[i - 1].state != Pending;
          }
        }
      }
    }
  }

  /** A submission leaves a newest command that is no longer Pending as it
      was, one place further back. */
  lemma SubmitKeepsSettled(s: SyncState, desired: Rect)
    requires Wf(s) && s.count > 0 && Hist(s)[0].state != Pending
    ensures Submit(s, desired).0.count >= 2
    ensures Hist(Submit(s, desired).0)[1] == Hist(s)[0]
  {
    var s' := Submit(s, desired).0;
    assert !FirstWhere(Hist(s), Supersedable, 0);
    assert Hist(s')[1] == Hist(s')[1..][0];
  }

  // ---------------------------------------------------------------------------
  // Lookup by id and eviction

  /** With ids counting down from `top`, id `id` sits at offset `top - id`
      and nowhere else. */
  lemma IdLocated(h: seq<Command>, top: nat, id: nat)
    requires IdsDescendFrom(h, top) && |h| <= top
    ensures (exists i :: 0 <= i < |h| && h[i].cmdId == id) <==> top - |h| < id <= top
    ensures top - |h| < id <= top ==> h[top - id].cmdId == id
    ensures forall i :: 0 <= i < |h| && h[i].cmdId == id ==> i == top - id
  {
    if top - |h| < id <= top {
      assert h[top - id].cmdId == id;
    }
  }

  /** `get_cmd` finds exactly the newest `count` ids, i.e. ids in
      `(nextCmdId - count, nextCmdId]`, and returns the entry at the matching
      offset. Anything older has been overwritten; id 0 is never found. */
  lemma GetCmdFindsLive(s: SyncState, id: nat)
    requires Inv(s)
    ensures GetCmd(s, id).Some? <==> s.nextCmdId - s.count < id <= s.nextCmdId
    ensures GetCmd(s, id).Some? ==> GetCmd(s, id).value == Hist(s)[s.nextCmdId - id]
  {
    IdLocated(Hist(s), s.nextCmdId, id);
  }

  /** Once the ring is full, a submission evicts the oldest live id, which
      `get_cmd` then no longer finds; the other 63 stay findable. */
  lemma SubmitEvictsOldest(s: SyncState, desired: Rect)
    requires Inv(s) && s.count == HISTORY
    ensures var oldest := s.nextCmdId - (HISTORY - 1);
      && GetCmd(s, oldest).Some?
      && GetCmd(Submit(s, desired).0, oldest).None?
      && forall id :: oldest < id <= s.nextCmdId ==> GetCmd(Submit(s, desired).0, id).Some?
  {
    var s' := Submit(s, desired).0;
    SubmitPreservesInv(s, desired);
    var oldest := s.nextCmdId - (HISTORY - 1);
    GetCmdFindsLive(s, oldest);
    GetCmdFindsLive(s', oldest);
    forall id | oldest < id <= s.nextCmdId
      ensures GetCmd(s', id).Some?
    {
      GetCmdFindsLive(s', id);
    }
  }

  // ---------------------------------------------------------------------------
  // Frames

  /** With ids counting down from `top`, the matching scan names a command
      exactly when some unbracketed command desired `obs`, and the id it
      reports locates the bracketed entry. */
  lemma BracketFirstAttribution(h: seq<Command>, top: nat, obs: Rect, before: int64, after: int64)
    requires IdsDescendFrom(h, top) && |h| <= top
    ensures var (h', id) := BracketFirst(h, obs, before, after);
      && (id != 0 <==> exists i :: 0 <= i < |h| && Bracketable(h[i], obs))
      && (id != 0 ==>
            && top - id < |h|
            && FirstWhere(h, BracketableFor(obs), top - id)
            && h'[top - id] == Bracket(h[top - id], before, after, obs))
  {
    var r := FindFirst(h, BracketableFor(obs), 0);
    if r.Some? {
      assert h[r.value].cmdId == top - r.value;
    }
  }

  /** When the ids descend from the counter (as in every reachable state), a
      frame that changes the fingerprint attributes its event to a command
      exactly when some unbracketed command desired the observed rectangle;
      the attributed command is the newest such one and receives the bracket
      (previous frame time, this frame's time). */
  lemma FrameAttribution(s: SyncState, t: uint64, valid: bool, x: uint32, y: uint32, w: uint32, h: uint32)
    requires Wf(s) && IdsDescendFrom(Hist(s), s.nextCmdId) && s.count <= s.nextCmdId
    requires RectHash(Observed(valid, x, y, w, h)) != s.lastAppliedHash
    ensures var s', obs := OnFrame(s, t, valid, x, y, w, h), Observed(valid, x, y, w, h);
      && (s'.lastEvent.cmdId != 0 <==> exists i :: 0 <= i < s.count && Bracketable(Hist(s)[i], obs))
      && (s'.lastEvent.cmdId != 0 ==>
            var k := s.nextCmdId - s'.lastEvent.cmdId;
            && 0 <= k < s.count
            && FirstWhere(Hist(s), BracketableFor(obs), k)
            && Hist(s')[k] == Bracket(Hist(s)[k], s.lastFrameUs, ToInt64(t), obs))
  {
    BracketFirstAttribution(Hist(s), s.nextCmdId, Observed(valid, x, y, w, h), s.lastFrameUs, ToInt64(t));
  }

  /** A frame that changes the fingerprint brackets the newest entry `k`
      that is unbracketed and asked for what the frame shows, names it in the
      event, and leaves every other entry as it was. */
  lemma FrameBracketsAt(s: SyncState, t: uint64, valid: bool, x: uint32, y: uint32, w: uint32, h: uint32, k: nat)
    requires Wf(s) && k < s.count
    requires RectHash(Observed(valid, x, y, w, h)) != s.lastAppliedHash
    requires Bracketable(Hist(s)[k], Observed(valid, x, y, w, h))
    requires forall j :: 0 <= j < k ==> !Bracketable(Hist(s)[j], Observed(valid, x, y, w, h))
    ensures var s' := OnFrame(s, t, valid, x, y, w, h);
      && Hist(s')[k] == Bracket(Hist(s)[k], s.lastFrameUs, ToInt64(t), Observed(valid, x, y, w, h))
      && (forall j :: 0 <= j < s.count && j != k ==> Hist(s')[j] == Hist(s)[j])
      && s'.lastEvent.cmdId == Hist(s)[k].cmdId
  {
    var obs := Observed(valid, x, y, w, h);
    assert FirstWhere(Hist(s), BracketableFor(obs), k);
    forall j | 0 <= j < s.count && j != k
      ensures !FirstWhere(Hist(s), BracketableFor(obs), j)
    {
      if j < k {
        assert !BracketableFor(obs)(Hist(s)[j]);
      } else {
        assert BracketableFor(obs)(Hist(s)[k]);
      }
    }
  }

  // ---------------------------------------------------------------------------
  // Snapshot

  /** The snapshot lists the live commands newest first, with descending ids. */
  lemma SnapshotNewestFirst(s: SyncState)
    requires Inv(s)
    ensures var snap := TakeSnapshot(s);
      && snap.history[..snap.historyCount] == Hist(s)
      && forall i :: 0 <= i < snap.historyCount ==> snap.history[i].cmdId == s.nextCmdId - i
  {
    var snap := TakeSnapshot(s);
    forall i | 0 <= i < s.count
      ensures snap.history[i] == Hist(s)[i]
    {
      assert RingNewest(s.ring, s.head, s.count, i) == Some(snap.history[i]);
    }
  }
}
