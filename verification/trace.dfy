/** Sequences of public calls on one device: ids are handed out 1, 2, 3, ...
    whatever frames and takes are interleaved, and the take-and-clear
    handshake reports each id at most once, in increasing order. */
module CropSyncTrace {
  import opened CropTypes
  import opened CropSync
  import opened CropSyncLemmas

  /** One public call on a device. */
  datatype Call =
    | SubmitCall(desired: Rect)
    | FrameCall(t: uint64, valid: bool, x: uint32, y: uint32, w: uint32, h: uint32)
    | TakeCall

  /** The state after a run, the ids `submit` returned and the values
      `take_last_cmd_id` returned, in call order. */
  datatype Outcome = Outcome(state: SyncState, submitted: seq<nat>, taken: seq<nat>)

  /** The take-and-clear slot is empty or holds the newest id. */
  predicate Handshake(s: SyncState)
  {
    Wf(s) && (s.lastOptionCmdId == 0 || s.lastOptionCmdId == s.nextCmdId)
  }

  function Step(s: SyncState, c: Call): (o: Outcome)
    requires Handshake(s)
    ensures Handshake(o.state)
    ensures |o.submitted| <= 1 && |o.taken| <= 1
    ensures o.state.nextCmdId == s.nextCmdId + |o.submitted|
    ensures |o.submitted| == 1 ==> o.submitted[0] == o.state.nextCmdId == o.state.lastOptionCmdId
    ensures |o.taken| == 1 ==> o.taken[0] == s.lastOptionCmdId && o.state.lastOptionCmdId == 0
    ensures |o.submitted| == 0 && |o.taken| == 0 ==> o.state.lastOptionCmdId == s.lastOptionCmdId
  {
    match c
    case SubmitCall(d) =>
      var r := Submit(s, d);
      Outcome(r.0, [r.1], [])
    case FrameCall(t, valid, x, y, w, h) =>
      Outcome(OnFrame(s, t, valid, x, y, w, h), [], [])
    case TakeCall =>
      var r := TakeLastCmdId(s);
      Outcome(r.0, [], [r.1])
  }

  function Run(s: SyncState, calls: seq<Call>): (o: Outcome)
    requires Handshake(s)
    decreases |calls|
    ensures Handshake(o.state)
  {
    if calls == [] then Outcome(s, [], [])
    else
      var first := Step(s, calls[0]);
      var rest := Run(first.state, calls[1..]);
      Outcome(rest.state, first.submitted + rest.submitted, first.taken + rest.taken)
  }

  lemma StepPreservesInv(s: SyncState, c: Call)
    requires Inv(s)
    ensures Inv(Step(s, c).state)
  {
    match c
    case SubmitCall(d) => SubmitPreservesInv(s, d);
    case FrameCall(t, valid, x, y, w, h) => OnFramePreservesInv(s, t, valid, x, y, w, h);
    case TakeCall => TakePreservesInv(s);
  }

  /** Every state reachable from one satisfying the device invariant satisfies
      it too; in particular every state reachable from `Init`. */
  lemma {:induction false} RunPreservesInv(s: SyncState, calls: seq<Call>)
    requires Inv(s)
    decreases |calls|
    ensures Inv(Run(s, calls).state)
  {
    if calls != [] {
      StepPreservesInv(s, calls[0]);
      RunPreservesInv(Step(s, calls[0]).state, calls[1..]);
    }
  }

  /** The k-th submission of a run gets the k-th id after the counter. */
  lemma {:induction false} RunSubmitIds(s: SyncState, calls: seq<Call>)
    requires Handshake(s)
    decreases |calls|
    ensures var o := Run(s, calls);
      && o.state.nextCmdId == s.nextCmdId + |o.submitted|
      && forall k :: 0 <= k < |o.submitted| ==> o.submitted[k] == s.nextCmdId + 1 + k
  {
    if calls != [] {
      var first := Step(s, calls[0]);
      RunSubmitIds(first.state, calls[1..]);
      var rest := Run(first.state, calls[1..]);
      var o := Run(s, calls);
      forall k | 0 <= k < |o.submitted|
        ensures o.submitted[k] == s.nextCmdId + 1 + k
      {
        if k >= |first.submitted| {
          assert o.submitted[k] == rest.submitted[k - |first.submitted|];
        }
      }
    }
  }

  /** Every nonzero value of `taken` is `left` or lies in `(lo, hi]`. */
  predicate TakenWithin(taken: seq<nat>, left: nat, lo: nat, hi: nat)
  {
    forall k :: 0 <= k < |taken| && taken[k] != 0 ==> taken[k] == left || lo < taken[k] <= hi
  }

  /** The nonzero values of `taken` are strictly increasing. */
  predicate NonzeroIncreasing(taken: seq<nat>)
  {
    forall i, j :: 0 <= i < j < |taken| && taken[i] != 0 && taken[j] != 0 ==> taken[i] < taken[j]
  }

  lemma WithinConcat(a: seq<nat>, b: seq<nat>, left: nat, lo: nat, left': nat, lo': nat, hi: nat)
    requires TakenWithin(a, left, lo, hi) && TakenWithin(b, left', lo', hi)
    requires lo <= lo'
    requires left' == 0 || left' == left || lo < left' <= hi
    ensures TakenWithin(a + b, left, lo, hi)
  {
    forall k | 0 <= k < |a + b| && (a + b)[k] != 0
      ensures (a + b)[k] == left || lo < (a + b)[k] <= hi
    {
      if k >= |a| {
        assert (a + b)[k] == b[k - |a|];
      }
    }
  }

  lemma IncreasingConcat(a: seq<nat>, b: seq<nat>, lo: nat, hi: nat)
    requires |a| <= 1 && NonzeroIncreasing(b)
    requires forall k :: 0 <= k < |a| ==> a[k] <= lo
    requires TakenWithin(b, 0, lo, hi)
    ensures NonzeroIncreasing(a + b)
  {
    forall i, j | 0 <= i < j < |a + b| && (a + b)[i] != 0 && (a + b)[j] != 0
      ensures (a + b)[i] < (a + b)[j]
    {
      assert (a + b)[j] == b[j - |a|];
      if i >= |a| {
        assert (a + b)[i] == b[i - |a|];
      }
    }
  }

  /** A take reports nothing, the id left over from before the run, or one of
      the run's own ids. */
  lemma {:induction false} RunTakenRange(s: SyncState, calls: seq<Call>)
    requires Handshake(s)
    decreases |calls|
    ensures TakenWithin(Run(s, calls).taken, s.lastOptionCmdId, s.nextCmdId, Run(s, calls).state.nextCmdId)
  {
    if calls != [] {
      var first := Step(s, calls[0]);
      RunTakenRange(first.state, calls[1..]);
      RunSubmitIds(first.state, calls[1..]);
      var rest := Run(first.state, calls[1..]);
      var left' := first.state.lastOptionCmdId;
      assert left' == 0 || left' == s.lastOptionCmdId || s.nextCmdId < left' <= rest.state.nextCmdId;
      WithinConcat(first.taken, rest.taken, s.lastOptionCmdId, s.nextCmdId,
                   first.state.lastOptionCmdId, first.state.nextCmdId, rest.state.nextCmdId);
    }
  }

  /** The handshake never reports the same id twice: the nonzero values a run
      takes are strictly increasing. */
  lemma {:induction false} RunTakenIncreasing(s: SyncState, calls: seq<Call>)
    requires Handshake(s)
    decreases |calls|
    ensures NonzeroIncreasing(Run(s, calls).taken)
  {
    if calls != [] {
      var first := Step(s, calls[0]);
      RunTakenIncreasing(first.state, calls[1..]);
      RunTakenRange(first.state, calls[1..]);
      var rest := Run(first.state, calls[1..]);
      if |first.taken| == 1 {
        IncreasingConcat(first.taken, rest.taken, s.nextCmdId, rest.state.nextCmdId);
      } else {
        assert first.taken + rest.taken == rest.taken;
      }
    }
  }

  /** On a freshly created device the ids are exactly 1, 2, 3, ... and every
      id a take reports was handed out by the run. */
  lemma FreshDeviceIds(calls: seq<Call>)
    ensures var o := Run(Init(), calls);
      && (forall k :: 0 <= k < |o.submitted| ==> o.submitted[k] == k + 1)
      && (forall k :: 0 <= k < |o.taken| && o.taken[k] != 0 ==> o.taken[k] in o.submitted)
  {
    RunSubmitIds(Init(), calls);
    RunTakenRange(Init(), calls);
    var o := Run(Init(), calls);
    forall k | 0 <= k < |o.taken| && o.taken[k] != 0
      ensures o.taken[k] in o.submitted
    {
      assert o.submitted[o.taken[k] - 1] == o.taken[k];
    }
  }
}
