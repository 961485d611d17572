/** Two runs of a small store: one that evicts, and one whose growth leaves the pool stuck. */
module StoreExamples {
  import opened Arithmetic
  import opened StoreModel
  import opened StoreEviction
  import opened StoreOps
  import opened StoreRuns
  import opened StoreAccounting
  import opened StoreService

  /** Six pieces of one byte, memory for three. */
  const ThreeOfSix: Config := Config(3, 1, [1, 1, 1, 1, 1, 1], [0, 0, 0, 0, 0, 0], {}, 1)

  function WriteOf(p: int): Op { OpWrite(p, 0, [[1]]) }

  /** A state between calls: which pieces may be resident, the counts and the number of used
      buffers. */
  ghost predicate At(e: Exec, pieces: set<int>, used: int, limit: int, total: int) {
    && Settled(e.store) && !e.spinning && (forall q :: Resident(e.store, q) ==> q in pieces)
    && e.store.bufferUsed == used && e.store.bufferLimit == limit && |UsedBuffers(e.store)| == total
  }

  /** A write that finds a free buffer and leaves the use count below the limit. */
  lemma OpenWrite(e: Exec, pieces: set<int>, used: int, limit: int, total: int, p: int)
    requires At(e, pieces, used, limit, total) && p !in pieces && Legal(e.store, WriteOf(p))
             && total < e.store.bufferSize
    requires if p in e.store.reserved then used < limit - 1 else used + 1 < limit
    ensures var r, free := Step(e, WriteOf(p)), p in e.store.reserved;
            && At(r, pieces + {p}, if free then used else used + 1, if free then limit - 1 else limit, total + 1)
            && SameFrame(e.store, r.store) && r.store.isHandled == e.store.isHandled
            && (Counted(e.store) ==> Counted(r.store)) && |r.log| == |e.log| + 2
            && (forall q :: LastUse(r.log, q) == if q == p then |e.log| else LastUse(e.log, q))
  {
    hide Shape, PiecesLinked, BuffersLinked, TimesOrdered, FirstFree, BeforeTrim, Trim, Contents, UsedBuffers,
         ReservedUsed, OtherUsed, Booked, Counted, Accepted;
    var s := e.store;
    FreeBufferIff(s);
    WriteAdds(s, p, 0, [[1]]);
    WriteKeepsSettled(s, p, 0, [[1]]);
    BeforeTrimKeepsPicker(s, p, 0, [[1]]);
    var event, gone := Wrote(p, 0, Accepted(s, p, 0, [[1]])), EvictedBy(s, p, 0, [[1]]);
    forall q
      ensures LastUse(e.log + [event] + [Evicted(gone)], q) == if q == p then |e.log| else LastUse(e.log, q)
    {
      LastUseNext(e.log + [event], Evicted(gone), q);
      LastUseNext(e.log, event, q);
    }
  }

  /** The store as it starts. */
  lemma Start(reserved: set<int>)
    ensures var e := Run(ThreeOfSix, [OpInitialize, OpReserve(reserved)]);
            && At(e, {}, 0, 3, 0) && Counted(e.store) && e.store.reserved == reserved && |e.store.pieces| == 6
            && e.store.bufferSize == 3
            && e.store.capacity == 3 && e.store.pieceLength == 1 && !e.store.isHandled && e.log == []
  {
    InitializedIsReady(ThreeOfSix, reserved);
    var e := Run(ThreeOfSix, [OpInitialize, OpReserve(reserved)]);
    ReadyIsSettled(e.store);
    RunNext(ThreeOfSix, [], OpInitialize);
    RunNext(ThreeOfSix, [OpInitialize], OpReserve(reserved));
    assert [] + [OpInitialize] == [OpInitialize]
           && [OpInitialize] + [OpReserve(reserved)] == [OpInitialize, OpReserve(reserved)];
    ResidentIsUsed(e.store);
  }

  lemma ResidentIsUsed(s: Store)
    requires Inv(s)
    ensures forall q :: Resident(s, q) ==> s.pieces[q].bi in UsedBuffers(s)
  {
  }

  /** The run's next write is legal and open. */
  lemma NextWrite(ops: seq<Op>, pieces: set<int>, used: int, limit: int, total: int, p: int)
    requires At(Run(ThreeOfSix, ops), pieces, used, limit, total) && p !in pieces
             && IsPiece(Run(ThreeOfSix, ops).store, p)
    requires total < Run(ThreeOfSix, ops).store.bufferSize
    requires if p in Run(ThreeOfSix, ops).store.reserved then used < limit - 1 else used + 1 < limit
    ensures var e, r, free := Run(ThreeOfSix, ops), Run(ThreeOfSix, ops + [WriteOf(p)]),
            p in Run(ThreeOfSix, ops).store.reserved;
            && At(r, pieces + {p}, if free then used else used + 1, if free then limit - 1 else limit, total + 1)
            && SameFrame(e.store, r.store) && r.store.isHandled == e.store.isHandled
            && (Counted(e.store) ==> Counted(r.store)) && |r.log| == |e.log| + 2
            && (forall q :: LastUse(r.log, q) == if q == p then |e.log| else LastUse(e.log, q))
  {
    hide Run, Step, LastUse, UsedBuffers, TimesOrdered, BuffersLinked, Shape;
    OpenWrite(Run(ThreeOfSix, ops), pieces, used, limit, total, p);
    RunNext(ThreeOfSix, ops, WriteOf(p));
  }

  // ---------------------------------------------------------------- a run that evicts

  const TwoWrites: seq<Op> := [OpInitialize, OpReserve({})] + [WriteOf(0)] + [WriteOf(1)]

  lemma AfterTwoWrites()
    ensures var e := Run(ThreeOfSix, TwoWrites);
            && At(e, {0, 1}, 2, 3, 2) && e.store.reserved == {} && |e.store.pieces| == 6 && e.store.bufferSize == 3
            && !e.store.isHandled && e.store.capacity == 3 && Counted(e.store)
            && LastUse(e.log, 0) == 0 && LastUse(e.log, 1) == 2
  {
    hide Run, At, Debt, Counted;
    Start({});
    AtSettled(Run(ThreeOfSix, [OpInitialize, OpReserve({})]), {}, 0, 3, 0);
    NextWrite([OpInitialize, OpReserve({})], {}, 0, 3, 0, 0);
    NextWrite([OpInitialize, OpReserve({})] + [WriteOf(0)], {} + {0}, 1, 3, 1, 1);
    assert {} + {0} + {1} == {0, 1};
  }

  lemma AtSettled(e: Exec, pieces: set<int>, used: int, limit: int, total: int)
    requires At(e, pieces, used, limit, total)
    ensures Settled(e.store)
  {
  }

  /** Two pieces are resident; the write of a third evicts the first and keeps the second. */
  lemma ThirdWriteEvictsFirst()
    ensures var s := Run(ThreeOfSix, TwoWrites).store;
            && Legal(s, WriteOf(2)) && EvictedBy(s, 2, 0, [[1]]) == {0} && 1 !in s.reserved
            && Resident(Write(s, 2, 0, [[1]]).store, 1)
  {
    hide Run, LastUse, BeforeTrim, Trim, Counted, UsedBuffers, FirstFree, TimesOrdered, Contents, Accepted;
    AfterTwoWrites();
    var e := Run(ThreeOfSix, TwoWrites);
    FreeBufferIff(e.store);
    var v, q := SomeGoesSomeStays(e.store, 2);
    RunEvictsLeastRecent(ThreeOfSix, TwoWrites, 2, 0, [[1]], v, q);
  }

  lemma SomeGoesSomeStays(s: Store, p: int) returns (v: int, q: int)
    requires Settled(s) && Counted(s) && Legal(s, WriteOf(p)) && !Resident(s, p) && HasFreeBuffer(s) && s.reserved == {}
    requires s.bufferUsed == 2 && s.bufferLimit == 3
    ensures EvictedBy(s, p, 0, [[1]]) == {v} && q != p && Resident(Write(s, p, 0, [[1]]).store, q)
  {
    hide FirstFree, TimesOrdered, Contents, BeforeTrim, TrimLoop, Accepted, PiecesOf, Freed, Shape, PiecesLinked,
         BuffersLinked, UsedBuffers, ReservedUsed, OtherUsed;
    HasMemory(s);
    WriteAdds(s, p, 0, [[1]]);
    v, q := OneGoes(BeforeTrim(s, p, 0, [[1]]), p);
  }

  lemma OneGoes(t: Store, p: int) returns (v: int, q: int)
    requires Inv(t) && t.isInitialized && Counted(t) && Resident(t, p) && t.bufferUsed == 3 && t.bufferLimit == 3
    ensures var u := TrimLoop(t, p).store;
            && (forall i :: i in Freed(t, u) ==> 0 <= i < |t.buffers|)
            && PiecesOf(t, Freed(t, u)) == {v} && q != p && Resident(u, q)
  {
    hide Shape, PiecesLinked, BuffersLinked, TimesOrdered, TrimLoop, PickerAfter, Contents, Before, OtherUsed;
    TrimTakesFirst(t, p);
    TrimOnlyEvicts(t, p);
    TwoEvictable(t, p);
    var u := TrimLoop(t, p).store;
    var i := OnlyMember(Freed(t, u));
    v := t.buffers[i].pi;
    var j := InDifference(Evictable(t, p), Freed(t, u));
    q := t.buffers[j].pi;
    UsedIsResident(u, j);
  }

  lemma TwoEvictable(t: Store, p: int)
    requires Inv(t) && Counted(t) && Resident(t, p) && t.bufferUsed == 3
    ensures 2 <= |Evictable(t, p)|
  {
    hide Shape, TimesOrdered;
    var b := t.pieces[p].bi;
    assert OtherUsed(t) - {b} <= Evictable(t, p);
    SubsetCard(OtherUsed(t) - {b}, Evictable(t, p));
    SubsetCard(OtherUsed(t), (OtherUsed(t) - {b}) + {b});
  }

  lemma UsedIsResident(s: Store, j: int)
    requires Inv(s) && j in UsedBuffers(s)
    ensures Resident(s, s.buffers[j].pi)
  {
  }

  lemma OnlyMember<T>(a: set<T>) returns (x: T)
    requires |a| == 1
    ensures a == {x}
  {
    x :| x in a;
    assert |a - {x}| == 0;
  }

  // ---------------------------------------------------------------- a growth that forgets a charge

  const Reserved: seq<Op> := [OpInitialize, OpReserve({0})] + [WriteOf(0)]
  const Grown: seq<Op> := Reserved + [OpGrow(4)] + [OpReserve({4, 5})]
  const Full: seq<Op> := Grown + [WriteOf(1)] + [WriteOf(2)] + [WriteOf(3)]

  /** Piece 0 is reserved and has its buffer, charged to the limit. Buffering a second file grows the
      pool to four buffers, which sets the limit to four, and reserves pieces 4 and 5. */
  lemma AfterGrowth()
    ensures var e := Run(ThreeOfSix, Grown);
            && At(e, {0}, 0, 4, 1) && e.store.reserved == {4, 5} && |e.store.pieces| == 6 && e.store.bufferSize == 4
            && Debt(e.store) == 1
  {
    hide Run, Resident, PiecesLinked, BuffersLinked, TimesOrdered, UsedBuffers, LastUse;
    Start({0});
    NextWrite([OpInitialize, OpReserve({0})], {}, 0, 3, 0, 0);
    var e := Run(ThreeOfSix, Reserved);
    assert {} + {0} == {0};
    GrowKeepsSettled(e.store, 4);
    GrowKeepsInv(e.store, 4);
    GrowKeepsPrefix(e.store, 4);
    RunNext(ThreeOfSix, Reserved, OpGrow(4));
    var s := Grow(e.store, 4);
    ReserveKeepsSettled(s, {4, 5});
    RunNext(ThreeOfSix, Reserved + [OpGrow(4)], OpReserve({4, 5}));
    SameResident(e.store, Reserve(s, {4, 5}));
    SameUse(s, {4, 5});
  }

  lemma SameUse(s: Store, ps: set<int>)
    ensures UsedBuffers(Reserve(s, ps)) == UsedBuffers(s)
  {
  }

  lemma SameResident(s: Store, t: Store)
    requires t.pieces == s.pieces
    ensures forall q :: Resident(t, q) == Resident(s, q)
  {
  }

  /** Three more writes fill the grown pool while the use count stays below the limit: nothing is
      trimmed, and every write of a piece without a buffer returns 0, the reserved ones included. */
  lemma GrownPoolIsStuck()
    ensures var s := Run(ThreeOfSix, Full).store;
            && Inv(s) && s.bufferUsed == 3 && s.bufferLimit == 4 && |UsedBuffers(s)| == s.bufferSize == 4
            && |s.pieces| == 6 && s.reserved == {4, 5}
            && (forall pi :: Trim(s, pi) == TrimResult(s, true))
            && (forall p, offset, chunks :: 4 <= p < 6 && Legal(s, OpWrite(p, offset, chunks)) ==>
                  Write(s, p, offset, chunks) == WriteResult(s, 0, true))
  {
    hide Run, At, Debt, UsedBuffers, LastUse, Trim, Write, Counted, Booked, PiecesLinked, BuffersLinked, TimesOrdered,
         Shape;
    AfterGrowth();
    AtSettled(Run(ThreeOfSix, Grown), {0}, 0, 4, 1);
    NextWrite(Grown, {0}, 0, 4, 1, 1);
    NextWrite(Grown + [WriteOf(1)], {0} + {1}, 1, 4, 2, 2);
    NextWrite(Grown + [WriteOf(1)] + [WriteOf(2)], {0} + {1} + {2}, 2, 4, 3, 3);
    FullIsStuck(Run(ThreeOfSix, Full), {0} + {1} + {2} + {3});
  }

  lemma FullIsStuck(e: Exec, pieces: set<int>)
    requires At(e, pieces, 3, 4, 4) && e.store.bufferSize == 4
    ensures Inv(e.store) && e.store.bufferUsed == 3 && e.store.bufferLimit == 4 && |UsedBuffers(e.store)| == 4
    ensures forall pi :: Trim(e.store, pi) == TrimResult(e.store, true)
    ensures forall p, offset, chunks :: p !in pieces && Legal(e.store, OpWrite(p, offset, chunks)) ==>
              Write(e.store, p, offset, chunks) == WriteResult(e.store, 0, true)
  {
    hide Shape, PiecesLinked, BuffersLinked, TimesOrdered, Write;
    forall p, offset, chunks | p !in pieces && Legal(e.store, OpWrite(p, offset, chunks))
      ensures Write(e.store, p, offset, chunks) == WriteResult(e.store, 0, true)
    {
      DebtHidesFullPool(e.store, 0, p, offset, chunks);
    }
  }
}
