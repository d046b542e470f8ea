/** The 64-slot command ring of a device (`ring`, `head`, `count` in
    device/crop_sync.c:13-15) and its newest-first view. `head` is the slot the
    next command is written to; the `count` most recent commands sit just
    before it, wrapping around. */
module CropRing {
  import opened CropTypes

  /** The shape every ring has: 64 slots, a head slot, at most 64 live entries. */
  predicate WellFormedRing(ring: seq<Command>, head: nat, count: nat)
  {
    |ring| == HISTORY && head < HISTORY && count <= HISTORY
  }

  /** The slot index `ring_newest(s, off)` resolves to:
      `(head + 64 - 1 - off) % 64`. */
  function NewestSlot(head: nat, off: nat): (slot: nat)
    requires head < HISTORY && off < HISTORY
    ensures slot < HISTORY
  {
    (head + HISTORY - 1 - off) % HISTORY
  }

  /** The live entries, newest first: entry `i` is what `ring_newest(s, i)`
      points at. */
  function History(ring: seq<Command>, head: nat, count: nat): (h: seq<Command>)
    requires WellFormedRing(ring, head, count)
    ensures |h| == count
  {
    seq(count, i requires 0 <= i < count => ring[NewestSlot(head, i)])
  }

  /** `ring_newest`: the entry `off` places behind the newest, or nothing
      (NULL) when `off` reaches past the live entries. */
  function RingNewest(ring: seq<Command>, head: nat, count: nat, off: nat): (r: Option<Command>)
    requires WellFormedRing(ring, head, count)
    ensures r.Some? <==> off < count
    ensures r.Some? ==> r.value == History(ring, head, count)[off]
  {
    if off >= count then None else Some(ring[NewestSlot(head, off)])
  }

  /** Distinct offsets name distinct slots, so no two live entries alias. */
  lemma NewestSlotInjective(head: nat, i: nat, j: nat)
    requires head < HISTORY && i < HISTORY && j < HISTORY
    ensures NewestSlot(head, i) == NewestSlot(head, j) <==> i == j
  {
  }

  /** Writing a command at `head` and advancing `head` (as `submit` does at
      device/crop_sync.c:135-151) pushes it to the front of the history and,
      once the ring is full, drops the oldest entry. */
  lemma InsertPushesFront(ring: seq<Command>, head: nat, count: nat, e: Command)
    requires WellFormedRing(ring, head, count)
    ensures WellFormedRing(ring[head := e], (head + 1) % HISTORY, Min(count + 1, HISTORY))
    ensures History(ring[head := e], (head + 1) % HISTORY, Min(count + 1, HISTORY))
         == [e] + History(ring, head, count)[..Min(count + 1, HISTORY) - 1]
  {
    var ring' := ring[head := e];
    var head' := (head + 1) % HISTORY;
    var count' := Min(count + 1, HISTORY);
    var h := History(ring, head, count);
    var h' := History(ring', head', count');
    var expected := [e] + h[..count' - 1];
    assert |h'| == |expected|;
    forall i | 0 <= i < count'
      ensures h'[i] == expected[i]
    {
      if i == 0 {
        assert NewestSlot(head', 0) == head;
      } else {
        assert NewestSlot(head', i) == NewestSlot(head, i - 1);
        assert NewestSlot(head, i - 1) != head;
      }
    }
  }

  /** Overwriting the slot of live entry `j` changes that entry of the history
      and no other. */
  lemma UpdateOneEntry(ring: seq<Command>, head: nat, count: nat, j: nat, c: Command)
    requires WellFormedRing(ring, head, count) && j < count
    ensures WellFormedRing(ring[NewestSlot(head, j) := c], head, count)
    ensures History(ring[NewestSlot(head, j) := c], head, count)
         == History(ring, head, count)[j := c]
  {
    var ring' := ring[NewestSlot(head, j) := c];
    var h := History(ring, head, count);
    var h' := History(ring', head, count);
    forall i | 0 <= i < count
      ensures h'[i] == h[j := c][i]
    {
      NewestSlotInjective(head, i, j);
    }
  }

}
