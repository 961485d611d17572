/** The store and its surroundings: the allocation protocol's atomic steps are the store's (what
    StoreModel does to a state in one call is what a critical section of AllocationProtocol does
    to the pool), and what the scheduler asks for fits the store. */
module StoreInContext {
  import opened StoreModel
  import opened StoreAccounting
  import P = AllocationProtocol
  import Readahead
  import Priorities

  /** The part of a store that the allocation lock guards. */
  function PoolOf(s: Store): P.Pool {
    P.Pool(seq(|s.pieces|, p requires 0 <= p < |s.pieces| => s.pieces[p].bi),
           seq(|s.buffers|, i requires 0 <= i < |s.buffers| => P.Slot(s.buffers[i].isUsed, s.buffers[i].pi)),
           s.bufferLimit, s.bufferUsed)
  }

  /** An initialized store's pool is a consistent start for the protocol, with the store's debt. */
  lemma StorePoolIsConsistent(s: Store)
    requires Inv(s) && s.isInitialized
    ensures P.Consistent(PoolOf(s), Debt(s))
  {
    hide TimesOrdered;
    assert P.UsedSlots(PoolOf(s).slots) == UsedBuffers(s);
  }

  /** A writer's critical section does to the pool what getting a write buffer does to the store. */
  lemma AllocationIsGetBuffer(s: Store, p: int)
    requires Inv(s) && IsPiece(s, p)
    ensures P.AllocatesAtOnce(PoolOf(s), p, p in s.reserved, PoolOf(GetWriteBuffer(s, p)))
  {
    hide TimesOrdered, FirstFree;
    var i, m, t := FirstFree(s.buffers, 0), PoolOf(s), PoolOf(GetWriteBuffer(s, p));
    if !Resident(s, p) && i < |s.buffers| {
      assert P.IsFirstFree(m.slots, i);
      var m' := P.Charged(P.Linked(P.Claimed(m, i, p), p, i), p in s.reserved);
      assert t.owner == m'.owner;
      assert t.slots == m'.slots;
    }
  }

  /** A trimmer's eviction does to the pool what removing a piece does to the store. */
  lemma EvictionIsRemoval(s: Store, bi: int)
    requires Inv(s) && 0 <= bi < |s.buffers| && s.buffers[bi].isUsed
    ensures PoolOf(RemovePiece(s, bi)) == P.EvictAtOnce(PoolOf(s), bi)
  {
    hide TimesOrdered;
    var t, m := PoolOf(RemovePiece(s, bi)), P.EvictAtOnce(PoolOf(s), bi);
    assert t.owner == m.owner;
    assert t.slots == m.slots;
  }

  /** The pieces that a scheduling leaves prioritized and the reserved pieces together have a
      buffer each. */
  lemma ScheduleFitsStore(s: Store, readers: seq<Readahead.Reader>, percents: int, priority: seq<int>, have: set<int>)
    requires Inv(s) && 0 <= BuffersCount(s)
    requires Priorities.ReadersOk(readers, |priority|) && 0 <= percents <= 100
    ensures var window := Readahead.Window(readers, Priorities.ReadaheadPieces(true, BuffersCount(s), percents));
            && Priorities.InRange(window, |priority|) && Readahead.Distinct(window)
            && |Priorities.Positive(Priorities.Scheduled(true, window, priority, have))| + |s.reserved| <= s.bufferSize
  {
    hide Readahead.Window, Priorities.Scheduled;
    Priorities.ScheduleFitsBuffers(readers, BuffersCount(s), percents, priority, have);
  }
}
