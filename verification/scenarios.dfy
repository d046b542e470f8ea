/** Concrete call sequences on one device, worked through the model: a
    request that a frame confirms, a repeat that resolves at once and a
    return to no crop; supersession; a frame stamped at time 0 and a crop
    change away and back after it; and a crop change hidden by a fingerprint
    collision. */
module CropSyncScenarios {
  import opened CropTypes
  import opened CropHash
  import opened CropSync
  import opened CropSyncLemmas

  const Wide: Rect := Rect(true, 10, 10, 100, 100)
  const Other: Rect := Rect(true, 0, 0, 320, 240)

  lemma HashOfWide()
    ensures RectHash(Wide) == 9067475360467907082
  {
    assert FieldBits(10) == 10;
  }

  lemma WideHash()
    ensures Observed(true, 10, 10, 100, 100) == Wide
    ensures Observed(false, 0, 0, 0, 0) == ZeroRect
    ensures RectHash(Wide) != 0 && RectHash(Wide) != RectHash(ZeroRect)
    ensures RectHash(Observed(true, 10, 10, 100, 100)) != 0
    ensures RectHash(Observed(false, 0, 0, 0, 0)) != RectHash(Wide)
  {
    HashOfWide();
    HashOfNoCrop();
  }

  // The happy path: submit a crop, let a frame at 1000 show it, submit it
  // again, ask for no crop and let a frame at 2000 show that. Each step is
  // proved from what the previous one leaves behind.

  lemma FirstSubmitStep(s0: SyncState)
    requires s0 == Init()
    ensures var (s1, id) := Submit(s0, Wide);
      && id == 1 && s1.count == 1 && s1.nextCmdId == 1
      && Hist(s1)[0] == NewCommand(1, Wide)
      && s1.lastFrameUs == 0 && s1.lastAppliedHash == 0
  {
  }

  lemma FirstFrameStep(s1: SyncState)
    requires Wf(s1) && s1.count == 1 && s1.nextCmdId == 1
    requires Hist(s1)[0] == NewCommand(1, Wide)
    requires s1.lastFrameUs == 0 && s1.lastAppliedHash == 0
    ensures var s2 := OnFrame(s1, 1000, true, 10, 10, 100, 100);
      && s2.count == 1 && s2.nextCmdId == 1
      && Hist(s2)[0] == Bracket(NewCommand(1, Wide), 0, 1000, Wide)
      && s2.lastFrameUs == 1000 && s2.currentApplied == Wide
      && s2.lastAppliedHash == RectHash(Wide)
  {
    WideHash();
    FrameBracketsAt(s1, 1000, true, 10, 10, 100, 100, 0);
  }

  lemma ResubmitStep(s2: SyncState)
    requires Wf(s2) && s2.count == 1 && s2.nextCmdId == 1
    requires Hist(s2)[0].state == Applied
    requires s2.lastFrameUs == 1000 && s2.currentApplied == Wide
    requires s2.lastAppliedHash == RectHash(Wide)
    ensures var (s3, id) := Submit(s2, Wide);
      && id == 2 && s3.count == 2 && s3.nextCmdId == 2
      && Hist(s3)[0].state == Applied
      && Hist(s3)[0].lastBeforeUs == 1000 && Hist(s3)[0].firstAfterUs == 1000
      && s3.lastFrameUs == 1000 && s3.currentApplied == Wide
      && s3.lastAppliedHash == RectHash(Wide)
  {
    assert ResolvesAtOnce(s2, Wide);
  }

  lemma ClearSubmitStep(s3: SyncState)
    requires Wf(s3) && s3.count == 2 && s3.nextCmdId == 2
    requires Hist(s3)[0].state == Applied
    requires s3.lastFrameUs == 1000 && s3.currentApplied == Wide
    requires s3.lastAppliedHash == RectHash(Wide)
    ensures var (s4, id) := Submit(s3, ZeroRect);
      && id == 3 && s4.count == 3
      && Hist(s4)[0].state == Pending && Hist(s4)[0].desired == ZeroRect
      && Hist(s4)[0].firstAfterUs == 0 && Hist(s4)[1].state == Applied
      && s4.lastFrameUs == 1000 && s4.lastAppliedHash == RectHash(Wide)
  {
    WideHash();
    assert !ResolvesAtOnce(s3, ZeroRect);
    SubmitKeepsSettled(s3, ZeroRect);
  }

  lemma ClearFrameStep(s4: SyncState)
    requires Wf(s4) && s4.count == 3
    requires Hist(s4)[0].state == Pending && Hist(s4)[0].desired == ZeroRect
    requires Hist(s4)[0].firstAfterUs == 0
    requires s4.lastFrameUs == 1000 && s4.lastAppliedHash == RectHash(Wide)
    ensures var c := Hist(OnFrame(s4, 2000, false, 0, 0, 0, 0))[0];
      c.state == Applied && c.lastBeforeUs == 1000 && c.firstAfterUs == 2000
  {
    WideHash();
    FrameBracketsAt(s4, 2000, false, 0, 0, 0, 0, 0);
  }

  /** Ids 1, 2, 3; command 1 is bracketed (0, 1000) by the first frame,
      command 2 is Applied at once with (1000, 1000), command 3 waits Pending
      until the frame at 2000 brackets it (1000, 2000). */
  lemma HappyPath(s0: SyncState)
    requires s0 == Init()
    ensures var (s1, id1) := Submit(s0, Wide);
      && id1 == 1 && Hist(s1)[0].state == Pending
      && var s2 := OnFrame(s1, 1000, true, 10, 10, 100, 100);
      && Hist(s2)[0].state == Applied
      && Hist(s2)[0].lastBeforeUs == 0 && Hist(s2)[0].firstAfterUs == 1000
      && var (s3, id2) := Submit(s2, Wide);
      && id2 == 2 && Hist(s3)[0].state == Applied
      && Hist(s3)[0].lastBeforeUs == 1000 && Hist(s3)[0].firstAfterUs == 1000
      && var (s4, id3) := Submit(s3, ZeroRect);
      && id3 == 3 && Hist(s4)[0].state == Pending
      && var s5 := OnFrame(s4, 2000, false, 0, 0, 0, 0);
      && Hist(s5)[0].state == Applied
      && Hist(s5)[0].lastBeforeUs == 1000 && Hist(s5)[0].firstAfterUs == 2000
  {
    var (s1, _) := Submit(s0, Wide);
    FirstSubmitStep(s0);
    var s2 := OnFrame(s1, 1000, true, 10, 10, 100, 100);
    FirstFrameStep(s1);
    var (s3, _) := Submit(s2, Wide);
    ResubmitStep(s2);
    var (s4, _) := Submit(s3, ZeroRect);
    ClearSubmitStep(s3);
    ClearFrameStep(s4);
  }

  // Supersession: two submissions before any frame, then a frame showing
  // the first one. The states are taken from a fresh device `s0`.
  function Sup2(s0: SyncState): SyncState
    requires Wf(s0)
  {
    Submit(Submit(s0, Wide).0, Other).0
  }

  function Sup3(s0: SyncState): SyncState
    requires Wf(s0)
  {
    OnFrame(Sup2(s0), 5000, true, 10, 10, 100, 100)
  }

  /** The second submission supersedes the first. */
  lemma SecondSubmitSupersedes(s0: SyncState)
    requires s0 == Init()
    ensures var s2 := Sup2(s0);
      && s2.count == 2
      && Hist(s2)[1].cmdId == 1 && Hist(s2)[1].state == Superseded
      && Hist(s2)[1].supersededBy == 2 && Hist(s2)[0].state == Pending
      && Hist(s2)[1].desired == Wide && Hist(s2)[1].firstAfterUs == 0
      && Hist(s2)[1].lastBeforeUs == 0
      && Hist(s2)[0].desired == Other && s2.lastAppliedHash == 0 && s2.lastFrameUs == 0
  {
    SupersedesOnlyPrevious(Submit(s0, Wide).0, Other);
  }

  /** From any state whose newest command asked for `Other` and whose
      superseded predecessor asked for `Wide`, with no frame seen yet, a frame
      at 5000 showing `Wide` brackets the predecessor, leaves it Superseded,
      names it in the event and leaves the newest command alone. */
  lemma FrameOnSupersededPair(s2: SyncState)
    requires Wf(s2) && s2.count == 2
    requires Hist(s2)[0].desired == Other
    requires Hist(s2)[1].desired == Wide && Hist(s2)[1].firstAfterUs == 0
    requires Hist(s2)[1].state == Superseded && Hist(s2)[1].cmdId == 1
    requires s2.lastAppliedHash == 0 && s2.lastFrameUs == 0
    ensures var s3 := OnFrame(s2, 5000, true, 10, 10, 100, 100);
      && s3.count == 2
      && Hist(s3)[1].state == Superseded
      && Hist(s3)[1].lastBeforeUs == 0 && Hist(s3)[1].firstAfterUs == 5000
      && Hist(s3)[0] == Hist(s2)[0]
      && s3.lastEvent.cmdId == 1 && s3.currentApplied == Wide
  {
    WideHash();
    forall j | 0 <= j < 1
      ensures !Bracketable(Hist(s2)[j], Wide)
    {
      assert j == 0;
    }
    FrameBracketsAt(s2, 5000, true, 10, 10, 100, 100, 1);
  }

  /** On a fresh device: a frame showing the superseded crop still brackets
      it and leaves it Superseded; the event names it and the governing
      command stays Pending. */
  lemma SupersededStillBracketed(s0: SyncState)
    requires s0 == Init()
    ensures Sup3(s0).count == 2
    ensures var c := Hist(Sup3(s0))[1];
      c.state == Superseded && c.lastBeforeUs == 0 && c.firstAfterUs == 5000
    ensures var c := Hist(Sup3(s0))[0];
      c == Hist(Sup2(s0))[0] && c.state == Pending
    ensures Sup3(s0).lastEvent.cmdId == 1 && Sup3(s0).currentApplied == Wide
  {
    SecondSubmitSupersedes(s0);
    FrameOnSupersededPair(Sup2(s0));
  }

  /** A frame stamped 0 applies a command but leaves `first_after_us` 0, so
      "bracketed" and "Applied" are not the same thing, and the command stays
      selectable by the scan of a later fingerprint change. */
  lemma FrameAtTimeZero()
    ensures var s := OnFrame(Submit(Init(), Wide).0, 0, true, 10, 10, 100, 100);
      && Hist(s)[0].state == Applied && Hist(s)[0].firstAfterUs == 0
      && Bracketable(Hist(s)[0], Wide)
  {
    WideHash();
    FrameBracketsAt(Submit(Init(), Wide).0, 0, true, 10, 10, 100, 100, 0);
  }

  // Changing away and back: from a state like the one the frame stamped 0
  // leaves (one Applied command for `Wide` with `first_after_us` still 0,
  // `Wide` on screen), each step proved from what the previous one leaves.

  /** A frame showing `Wide` again has the same fingerprint: nothing is
      bracketed and no new event is recorded. */
  lemma SameCropStep(s0: SyncState)
    requires Wf(s0) && s0.lastAppliedHash == RectHash(Wide)
    ensures var same := OnFrame(s0, 5, true, 10, 10, 100, 100);
      Hist(same) == Hist(s0) && same.lastEvent == s0.lastEvent
  {
    WideHash();
  }

  /** A frame without a crop at 10 changes the fingerprint but matches no
      command, so the event names none. */
  lemma AwayStep(s0: SyncState)
    requires Wf(s0) && s0.count == 1 && s0.lastAppliedHash != RectHash(ZeroRect)
    requires Hist(s0)[0].desired == Wide
    ensures var s1 := OnFrame(s0, 10, false, 0, 0, 0, 0);
      && s1.count == 1 && Hist(s1) == Hist(s0) && s1.lastEvent.cmdId == 0
      && s1.lastFrameUs == 10 && s1.lastAppliedHash == RectHash(ZeroRect)
  {
    assert Observed(false, 0, 0, 0, 0) == ZeroRect;
  }

  /** A frame showing `Wide` at 20 brackets the still unbracketed command
      with (10, 20). */
  lemma BackStep(s1: SyncState)
    requires Wf(s1) && s1.count == 1
    requires s1.lastFrameUs == 10 && s1.lastAppliedHash == RectHash(ZeroRect)
    requires Bracketable(Hist(s1)[0], Wide) && Hist(s1)[0].state == Applied
    ensures var s2 := OnFrame(s1, 20, true, 10, 10, 100, 100);
      && Hist(s2)[0].lastBeforeUs == 10 && Hist(s2)[0].firstAfterUs == 20
      && Hist(s2)[0].state == Applied && s2.lastEvent.cmdId == Hist(s1)[0].cmdId
  {
    WideHash();
    FrameBracketsAt(s1, 20, true, 10, 10, 100, 100, 0);
  }

  /** The same crop again brackets nothing; once the crop has changed away
      and back, the frame showing it brackets the command with (10, 20). */
  lemma ChangeAwayAndBack(s0: SyncState)
    requires Wf(s0) && s0.count == 1 && s0.lastAppliedHash == RectHash(Wide)
    requires Bracketable(Hist(s0)[0], Wide) && Hist(s0)[0].state == Applied
    ensures var same := OnFrame(s0, 5, true, 10, 10, 100, 100);
      Hist(same) == Hist(s0) && same.lastEvent == s0.lastEvent
    ensures var s1 := OnFrame(s0, 10, false, 0, 0, 0, 0);
      var s2 := OnFrame(s1, 20, true, 10, 10, 100, 100);
      && Hist(s1) == Hist(s0) && s1.lastEvent.cmdId == 0
      && Hist(s2)[0].lastBeforeUs == 10 && Hist(s2)[0].firstAfterUs == 20
      && Hist(s2)[0].state == Applied && s2.lastEvent.cmdId == Hist(s0)[0].cmdId
  {
    SameCropStep(s0);
    WideHash();
    AwayStep(s0);
    BackStep(OnFrame(s0, 10, false, 0, 0, 0, 0));
  }

  /** The frame stamped 0 is not the last chance for command 1: once the
      crop has changed away and back, a later frame showing it brackets the
      command again. */
  lemma RebracketAfterChange()
    ensures var s0 := OnFrame(Submit(Init(), Wide).0, 0, true, 10, 10, 100, 100);
      var s2 := OnFrame(OnFrame(s0, 10, false, 0, 0, 0, 0), 20, true, 10, 10, 100, 100);
      && Hist(s2)[0].lastBeforeUs == 10 && Hist(s2)[0].firstAfterUs == 20
      && Hist(s2)[0].state == Applied && s2.lastEvent.cmdId == 1
  {
    WideHash();
    FrameAtTimeZero();
    FirstSubmitStep(Init());
    var s0 := OnFrame(Submit(Init(), Wide).0, 0, true, 10, 10, 100, 100);
    assert s0.lastAppliedHash == RectHash(Wide);
    ChangeAwayAndBack(s0);
  }

  /** After a frame shows `CollidingA`, a command asking for `CollidingB` is
      not resolved by a frame that shows `CollidingB`: the fingerprints are
      equal, so the frame takes the unchanged path. */
  lemma CollisionHidesChange()
    ensures var s1 := OnFrame(Init(), 1, true, 0, 1387, 0, 0);
      var (s2, _) := Submit(s1, CollidingB);
      var s3 := OnFrame(s2, 2, true, 2, 0, 0, 120066029);
      && s3.currentApplied == CollidingA != CollidingB
      && Hist(s3)[0].desired == CollidingB && Hist(s3)[0].state == Pending
  {
    HashCollision();
    assert Observed(true, 0, 1387, 0, 0) == CollidingA;
    assert Observed(true, 2, 0, 0, 120066029) == CollidingB;
  }
}
