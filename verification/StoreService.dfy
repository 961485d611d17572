/** Exactly when the store serves every write, over all runs that keep the reserved set, with and
    without growth of the pool. */
module StoreService {
  import opened Arithmetic
  import opened StoreModel
  import opened StoreEviction
  import opened StoreOps
  import opened StoreRuns
  import opened StoreAccounting

  // ---------------------------------------------------------------- the books

  /** Used buffers of reserved pieces, and of the other pieces. */
  ghost function ReservedUsed(s: Store): set<int> {
    set i | i in UsedBuffers(s) && s.buffers[i].pi in s.reserved
  }

  ghost function OtherUsed(s: Store): set<int> {
    set i | i in UsedBuffers(s) && s.buffers[i].pi !in s.reserved
  }

  /** The pieces of the torrent that are reserved. */
  ghost function ReservedPieces(s: Store): set<int> {
    set p | 0 <= p < |s.pieces| && p in s.reserved
  }

  /** The limit is charged and never raised, and no buffer is charged twice. */
  predicate Booked(s: Store) {
    s.bufferLimit <= s.bufferSize && 0 <= Debt(s)
  }

  /** The use count stands for the buffers of unreserved pieces, as it does until the reserved set
      changes under resident pieces. */
  ghost predicate Counted(s: Store) {
    s.bufferUsed == |OtherUsed(s)|
  }

  lemma UsedSplit(s: Store)
    ensures |UsedBuffers(s)| == |ReservedUsed(s)| + |OtherUsed(s)|
  {
    assert UsedBuffers(s) == ReservedUsed(s) + OtherUsed(s);
  }

  /** The books read only the reserved set and which buffers serve which pieces. */
  lemma SameBooks(s: Store, t: Store)
    requires |t.buffers| == |s.buffers| && t.reserved == s.reserved
    requires forall i :: 0 <= i < |s.buffers| ==>
             t.buffers[i].pi == s.buffers[i].pi && t.buffers[i].isUsed == s.buffers[i].isUsed
    ensures UsedBuffers(t) == UsedBuffers(s) && ReservedUsed(t) == ReservedUsed(s) && OtherUsed(t) == OtherUsed(s)
  {
    assert UsedBuffers(t) == UsedBuffers(s);
  }

  /** Distinct used buffers serve distinct pieces. */
  lemma {:induction false} ServedCard(s: Store, bs: set<int>)
    requires Inv(s) && bs <= UsedBuffers(s)
    ensures |PiecesOf(s, bs)| == |bs|
    decreases |bs|
  {
    if bs == {} {
      assert PiecesOf(s, bs) == {};
    } else {
      var i :| i in bs;
      ServedCard(s, bs - {i});
      assert PiecesOf(s, bs) == PiecesOf(s, bs - {i}) + {s.buffers[i].pi};
      assert s.buffers[i].pi !in PiecesOf(s, bs - {i});
    }
  }

  lemma ReservedUsedBound(s: Store)
    requires Inv(s)
    ensures |ReservedUsed(s)| <= |ReservedPieces(s)|
  {
    ServedCard(s, ReservedUsed(s));
    SubsetCard(PiecesOf(s, ReservedUsed(s)), ReservedPieces(s));
  }

  /** With fewer used buffers than pieces, some piece has no buffer. */
  lemma PickAbsent(s: Store) returns (p: int)
    requires Inv(s) && |UsedBuffers(s)| < |s.pieces|
    ensures IsPiece(s, p) && !Resident(s, p)
  {
    hide Shape, TimesOrdered;
    var used := UsedBuffers(s);
    ServedCard(s, used);
    p := InDifference(Range(|s.pieces|), PiecesOf(s, used));
  }

  /** With fewer reserved pieces resident than there are, one has no buffer. */
  lemma PickAbsentReserved(s: Store) returns (p: int)
    requires Inv(s) && |ReservedUsed(s)| < |ReservedPieces(s)|
    ensures IsPiece(s, p) && p in s.reserved && !Resident(s, p)
  {
    hide Shape, TimesOrdered;
    var used := ReservedUsed(s);
    ServedCard(s, used);
    p := InDifference(ReservedPieces(s), PiecesOf(s, used));
  }

  /** If every piece has room, a piece without a buffer finds one free. */
  lemma RoomForAll(s: Store, p: int)
    requires Inv(s) && s.isInitialized && s.bufferSize == |s.pieces| && IsPiece(s, p) && !Resident(s, p)
    ensures HasFreeBuffer(s)
  {
    hide Shape, TimesOrdered, FirstFree;
    var used := UsedBuffers(s);
    ServedCard(s, used);
    assert p !in PiecesOf(s, used);
    assert PiecesOf(s, used) <= Range(|s.pieces|) - {p};
    SubsetCard(PiecesOf(s, used), Range(|s.pieces|) - {p});
    FreeBufferIff(s);
  }

  // ---------------------------------------------------------------- writes and the books

  lemma AssignBooks(s: Store, p: int, i: int)
    requires Inv(s) && IsPiece(s, p) && 0 <= i < |s.buffers| && !s.buffers[i].isUsed
    ensures var t := Assign(s, p, i);
            && t.pieces[p].bi == i && i !in UsedBuffers(s) && UsedBuffers(t) == UsedBuffers(s) + {i}
            && (p in s.reserved ==> ReservedUsed(t) == ReservedUsed(s) + {i} && OtherUsed(t) == OtherUsed(s))
            && (p !in s.reserved ==> ReservedUsed(t) == ReservedUsed(s) && OtherUsed(t) == OtherUsed(s) + {i})
  {
    hide Shape, TimesOrdered;
    var t := Assign(s, p, i);
    assert t.buffers[i].pi == p && t.buffers[i].isUsed;
    assert forall j :: 0 <= j < |s.buffers| && j != i ==> t.buffers[j] == s.buffers[j];
    assert UsedBuffers(t) == UsedBuffers(s) + {i};
  }

  /** What a write does to the books before it trims. */
  ghost predicate Added(s: Store, t: Store, p: int) {
    var added, reserved := !Resident(s, p), p in s.reserved;
    && Inv(t) && t.isInitialized && Resident(t, p) && Debt(t) == Debt(s)
    && (Booked(s) ==> Booked(t)) && (Counted(s) ==> Counted(t))
    && t.reserved == s.reserved && t.bufferSize == s.bufferSize && |t.pieces| == |s.pieces| && t.capacity == s.capacity
    && |UsedBuffers(t)| == |UsedBuffers(s)| + (if added then 1 else 0)
    && |ReservedUsed(t)| == |ReservedUsed(s)| + (if added && reserved then 1 else 0)
    && t.bufferUsed == s.bufferUsed + (if added && !reserved then 1 else 0)
    && t.bufferLimit == s.bufferLimit - (if added && reserved then 1 else 0)
    && (OtherUsed(s) == {} ==> OtherUsed(t) <= {t.pieces[p].bi})
    && (forall q :: Resident(t, q) ==> Resident(s, q) || q == p)
  }

  lemma GetBufferAdds(s: Store, p: int)
    requires Inv(s) && IsPiece(s, p) && s.isInitialized && (Resident(s, p) || HasFreeBuffer(s))
    ensures Added(s, GetWriteBuffer(s, p), p)
  {
    hide Shape, PiecesLinked, BuffersLinked, TimesOrdered, FirstFree, UsedBuffers, ReservedUsed, OtherUsed;
    GetBufferKeepsInv(s, p);
    if !Resident(s, p) {
      var i := FirstFree(s.buffers, 0);
      FreeIsUnused(s, p);
      AssignKeepsInv(s, p, i);
      AssignBooks(s, p, i);
      UsedSplit(s);
      UsedSplit(Assign(s, p, i));
    }
  }

  lemma CopyAdds(s: Store, p: int, offset: nat, bytes: seq<Byte>)
    requires Inv(s) && Resident(s, p) && offset + |bytes| <= s.pieces[p].length
    ensures var t := CopyIn(s, p, offset, bytes);
            && Inv(t) && UsedBuffers(t) == UsedBuffers(s) && ReservedUsed(t) == ReservedUsed(s)
            && OtherUsed(t) == OtherUsed(s)
  {
    hide TimesOrdered, Overlay;
    CopyInKeepsInv(s, p, offset, bytes);
    SameBooks(s, CopyIn(s, p, offset, bytes));
  }

  lemma WriteAdds(s: Store, p: int, offset: nat, chunks: seq<seq<Byte>>)
    requires Inv(s) && IsPiece(s, p) && offset <= s.pieces[p].length && s.isInitialized
    requires Resident(s, p) || HasFreeBuffer(s)
    ensures Resident(GetWriteBuffer(s, p), p) && Added(s, BeforeTrim(s, p, offset, chunks), p)
  {
    hide Shape, PiecesLinked, BuffersLinked, TimesOrdered, FirstFree, UsedBuffers, ReservedUsed, OtherUsed, Overlay,
         Accepted;
    GetBufferKeepsInv(s, p);
    GetBufferAdds(s, p);
    CopyAdds(GetWriteBuffer(s, p), p, offset, Accepted(s, p, offset, chunks));
  }

  /** Eviction keeps the books, since it takes no reserved piece. */
  lemma TrimKeepsBooks(s: Store, pi: int)
    requires Inv(s) && s.isInitialized
    ensures var t := Trim(s, pi).store;
            && ReservedUsed(t) == ReservedUsed(s) && Debt(t) == Debt(s)
            && (Booked(s) ==> Booked(t)) && (Counted(s) ==> Counted(t))
  {
    hide PiecesLinked, BuffersLinked, TimesOrdered, Shape, TrimLoop, Before, FindLast, Contents;
    TrimKeepsDebt(s, pi);
    if !(s.capacity < 0 || !MustTrim(s)) {
      TrimOnlyEvicts(s, pi);
      TrimTakesFirst(s, pi);
      var t := TrimLoop(s, pi).store;
      var gone := Freed(s, t);
      assert forall i :: i in gone ==> s.buffers[i].pi !in s.reserved;
      assert ReservedUsed(t) == ReservedUsed(s);
      assert OtherUsed(s) == OtherUsed(t) + gone;
    }
  }

  // ---------------------------------------------------------------- settled states

  /** A state between calls: the books are right and nothing is left to trim. A pool without buffers
      is as it is. */
  ghost predicate Settled(s: Store) {
    Inv(s) && s.isInitialized && Booked(s) && (0 < s.bufferSize ==> !MustTrim(s))
  }

  /** What stays the same as long as neither the reserved set nor the memory size changes. */
  ghost predicate SameFrame(s: Store, t: Store) {
    && t.bufferSize == s.bufferSize && |t.pieces| == |s.pieces| && t.reserved == s.reserved
    && t.capacity == s.capacity && Debt(t) == Debt(s)
  }

  /** A write that returns leaves a settled state. */
  lemma WriteKeepsSettled(s: Store, p: int, offset: nat, chunks: seq<seq<Byte>>)
    requires Settled(s) && Legal(s, OpWrite(p, offset, chunks))
    ensures var r := Write(s, p, offset, chunks);
            && Inv(r.store) && SameFrame(s, r.store)
            && (r.halts ==> Settled(r.store) && (Counted(s) ==> Counted(r.store)))
            && (Resident(s, p) || HasFreeBuffer(s) ==>
                  |ReservedUsed(r.store)| == |ReservedUsed(s)| + (if !Resident(s, p) && p in s.reserved then 1 else 0))
  {
    hide Shape, PiecesLinked, BuffersLinked, TimesOrdered, FirstFree, Contents, BeforeTrim, TrimLoop, UsedBuffers,
         Accepted, Booked, Counted, ReservedUsed, OtherUsed, Trimmed, Before;
    HasMemory(s);
    WriteKeepsShape(s, p, offset, chunks);
    WriteKeepsInv(s, p, offset, chunks);
    WriteKeepsDebt(s, p, offset, chunks);
    if Resident(s, p) || HasFreeBuffer(s) {
      WriteAdds(s, p, offset, chunks);
      var t := BeforeTrim(s, p, offset, chunks);
      TrimKeepsBooks(t, p);
      TrimReachesLimit(t, p);
    } else {
      WriteFails(s, p, offset, chunks);
    }
  }

  /** Buffers take memory. */
  lemma HasMemory(s: Store)
    requires Inv(s)
    ensures 0 < s.bufferSize ==> 0 < s.capacity
  {
    if s.capacity <= 0 {
      DivMonotone(s.capacity + s.pieceLength - 1, s.pieceLength - 1, s.pieceLength);
    }
  }

  lemma TrimReachesLimit(t: Store, p: int)
    requires Inv(t)
    ensures 0 <= t.capacity && Trim(t, p).halts ==> !MustTrim(Trim(t, p).store)
  {
    hide Inv, TrimLoop, UsedBuffers, Evictable, Before;
    TrimTakesFirst(t, p);
  }

  lemma OtherStepsKeepSettled(e: Exec, op: Op)
    requires Settled(e.store) && !e.spinning && Legal(e.store, op) && Steady(op) && !op.OpWrite?
    ensures var r := Step(e, op);
            && SameFrame(e.store, r.store) && (!r.spinning ==> Settled(r.store))
            && (0 < e.store.bufferSize ==> !r.spinning)
  {
    hide PiecesLinked, BuffersLinked, TimesOrdered, UsedBuffers, ReservedUsed, OtherUsed, TrimLoop;
    StepKeepsInv(e, op);
    HasMemory(e.store);
    if op.OpTrim? {
      TrimKeepsBooks(e.store, op.protect);
      TrimKeepsInv(e.store, op.protect);
      TrimReachesLimit(e.store, op.protect);
      OnlyEvictedShape(e.store, Trim(e.store, op.protect).store);
    } else {
      SameBooks(e.store, Step(e, op).store);
    }
  }

  // ---------------------------------------------------------------- service

  /** Calls that change neither the reserved set nor the memory size. */
  predicate Steady(op: Op) { op.OpRead? || op.OpWrite? || op.OpTrim? || op.OpAttach? || op.OpPicker? }

  predicate AllSteady(ops: seq<Op>) {
    forall i :: 0 <= i < |ops| ==> Steady(ops[i])
  }

  /** The write gets a buffer, stores all bytes that fit the piece and returns. */
  ghost predicate Served(s: Store, p: int, offset: nat, chunks: seq<seq<Byte>>)
    requires Inv(s) && Legal(s, OpWrite(p, offset, chunks))
  {
    var r := Write(s, p, offset, chunks);
    r.halts && Resident(r.store, p) && r.n == Min(s.pieces[p].length - offset, Total(ChunkSizes(chunks)))
  }

  /** No trim is spinning, and the next write, whatever it is, is served. */
  ghost predicate WritesServed(e: Exec)
    requires Inv(e.store)
  {
    && !e.spinning
    && forall p, offset, chunks :: Legal(e.store, OpWrite(p, offset, chunks)) ==> Served(e.store, p, offset, chunks)
  }

  /** Writes are served after any steady run. */
  ghost predicate NeverStuck(e: Exec)
    requires Inv(e.store)
  {
    forall ops :: AllSteady(ops) ==> WritesServed(RunFrom(e, ops))
  }

  /** Enough buffers: two more than there are reserved pieces or, if the counts are off because a
      growth forgot charges, one for every piece of the torrent. */
  ghost predicate Enough(s: Store) {
    if Debt(s) == 0 then |ReservedPieces(s)| + 2 <= s.bufferSize else s.bufferSize == |s.pieces|
  }

  /** With room for all reserved pieces and two more, a full pool has something to evict. */
  lemma FullPoolHasVictim(t: Store, p: int)
    requires Inv(t) && Booked(t) && Debt(t) == 0 && Resident(t, p) && t.isInitialized && MustTrim(t)
    requires |ReservedPieces(t)| + 2 <= t.bufferSize
    ensures Needed(t) <= |Evictable(t, p)|
  {
    hide TimesOrdered, FirstFree;
    var i := t.pieces[p].bi;
    UsedSplit(t);
    ReservedUsedBound(t);
    FreeBufferIff(t);
    assert OtherUsed(t) - {i} <= Evictable(t, p);
    SubsetCard(OtherUsed(t) - {i}, Evictable(t, p));
    if i in OtherUsed(t) {
      assert OtherUsed(t) == (OtherUsed(t) - {i}) + {i};
    } else {
      assert OtherUsed(t) - {i} == OtherUsed(t);
    }
  }

  /** With enough buffers a piece without one finds one free. */
  lemma EnoughHasFree(s: Store, p: int)
    requires Settled(s) && Enough(s) && IsPiece(s, p) && !Resident(s, p)
    ensures HasFreeBuffer(s)
  {
    hide PiecesLinked, BuffersLinked, TimesOrdered, FirstFree, UsedBuffers, Shape;
    if Debt(s) == 0 {
      FreeBufferIff(s);
    } else {
      RoomForAll(s, p);
    }
  }

  /** With enough buffers a write is served. */
  lemma EnoughServes(s: Store, p: int, offset: nat, chunks: seq<seq<Byte>>)
    requires Settled(s) && Enough(s) && Legal(s, OpWrite(p, offset, chunks))
    ensures Served(s, p, offset, chunks)
  {
    hide Shape, PiecesLinked, BuffersLinked, TimesOrdered, FirstFree, Contents, BeforeTrim, TrimLoop, UsedBuffers,
         Accepted, ReservedUsed, OtherUsed, Before;
    if !Resident(s, p) {
      EnoughHasFree(s, p);
    }
    WriteAdds(s, p, offset, chunks);
    WriteRefines(s, p, offset, chunks);
    AcceptedIs(s, p, offset, chunks);
    var t := BeforeTrim(s, p, offset, chunks);
    FreeBufferIff(t);
    if MustTrim(t) {
      assert ReservedPieces(t) == ReservedPieces(s);
      FullPoolHasVictim(t, p);
      TrimTakesFirst(t, p);
    }
  }

  lemma EnoughServesAll(e: Exec)
    requires Settled(e.store) && !e.spinning && Enough(e.store)
    ensures WritesServed(e)
  {
    forall p, offset, chunks | Legal(e.store, OpWrite(p, offset, chunks))
      ensures Served(e.store, p, offset, chunks)
    {
      EnoughServes(e.store, p, offset, chunks);
    }
  }

  lemma EnoughStays(s: Store, t: Store)
    requires SameFrame(s, t)
    ensures Enough(t) == Enough(s)
  {
    assert ReservedPieces(t) == ReservedPieces(s);
  }

  lemma EnoughHasBuffers(s: Store)
    requires Settled(s) && Enough(s) && 0 < |s.pieces|
    ensures 0 < s.bufferSize
  {
  }

  lemma {:induction false} RunStaysServed(e: Exec, ops: seq<Op>)
    requires Settled(e.store) && !e.spinning && Enough(e.store) && AllSteady(ops) && 0 < |e.store.pieces|
    ensures var r := RunFrom(e, ops);
            Settled(r.store) && !r.spinning && Enough(r.store) && SameFrame(e.store, r.store)
  {
    hide Booked, Step, PiecesLinked, BuffersLinked, TimesOrdered, Shape, Enough, Write, Debt;
    if ops != [] {
      var last, op := RunFrom(e, ops[..|ops| - 1]), ops[|ops| - 1];
      RunStaysServed(e, ops[..|ops| - 1]);
      if Legal(last.store, op) {
        EnoughHasBuffers(last.store);
        StepKeepsFrame(last, op);
        EnoughServesAll(last);
        EnoughStays(last.store, Step(last, op).store);
      }
    }
  }

  /** A steady call that returns leaves a settled state with the same frame. */
  lemma StepKeepsFrame(e: Exec, op: Op)
    requires Settled(e.store) && !e.spinning && Legal(e.store, op) && Steady(op)
    ensures var r := Step(e, op);
            && SameFrame(e.store, r.store) && (!r.spinning ==> Settled(r.store))
            && (op.OpWrite? ==> r.spinning == !Write(e.store, op.piece, op.offset, op.chunks).halts)
            && (!op.OpWrite? && 0 < e.store.bufferSize ==> !r.spinning)
  {
    hide Booked, Write, PiecesLinked, BuffersLinked, TimesOrdered, Shape, Debt;
    if op.OpWrite? {
      WriteKeepsSettled(e.store, op.piece, op.offset, op.chunks);
    } else {
      OtherStepsKeepSettled(e, op);
    }
  }

  // ---------------------------------------------------------------- getting stuck

  lemma {:induction false} RunFromFirst(e: Exec, op: Op, ops: seq<Op>)
    requires Inv(e.store) && !e.spinning && Legal(e.store, op)
    ensures Inv(Step(e, op).store) && RunFrom(e, [op] + ops) == RunFrom(Step(e, op), ops)
  {
    hide Inv, Step, Legal;
    StepKeepsInv(e, op);
    if ops == [] {
      assert [op] + ops == [op] && [op][..0] == [];
    } else {
      var n := |ops| - 1;
      RunFromFirst(e, op, ops[..n]);
      assert ([op] + ops)[..|ops|] == [op] + ops[..n];
    }
  }

  lemma StuckNow(e: Exec)
    requires Inv(e.store) && !WritesServed(e)
    ensures !NeverStuck(e)
  {
    assert AllSteady([]) && RunFrom(e, []) == e;
  }

  /** A run that gets stuck after a steady call gets stuck. */
  lemma StuckLater(e: Exec, op: Op)
    requires Inv(e.store) && !e.spinning && Legal(e.store, op) && Steady(op)
    requires Inv(Step(e, op).store) && !NeverStuck(Step(e, op))
    ensures !NeverStuck(e)
  {
    hide Inv, Step, Legal, WritesServed;
    var ops :| AllSteady(ops) && !WritesServed(RunFrom(Step(e, op), ops));
    RunFromFirst(e, op, ops);
    assert AllSteady([op] + ops);
  }

  /** Writing the last free buffer of a pool of reserved pieces trims for ever. */
  lemma LastBufferSpins(s: Store, p: int)
    requires Settled(s) && Debt(s) == 0 && OtherUsed(s) == {} && |UsedBuffers(s)| + 1 == s.bufferSize
    requires Legal(s, OpWrite(p, 0, [])) && !Resident(s, p)
    ensures !Write(s, p, 0, []).halts
  {
    hide Shape, TimesOrdered, PiecesLinked, BuffersLinked, FirstFree, Contents, BeforeTrim, UsedBuffers, Accepted,
         TrimLoop, Before, ReservedUsed, OtherUsed;
    HasMemory(s);
    FreeBufferIff(s);
    WriteAdds(s, p, 0, []);
    var t := BeforeTrim(s, p, 0, []);
    NothingToEvict(t, p);
    TrimTakesFirst(t, p);
  }

  lemma NothingToEvict(t: Store, p: int)
    requires Inv(t) && t.isInitialized && Resident(t, p) && OtherUsed(t) <= {t.pieces[p].bi}
    ensures Evictable(t, p) == {}
  {
    forall i | i in Evictable(t, p)
      ensures i in OtherUsed(t) && i != t.pieces[p].bi
    {
    }
  }

  lemma LegalAtZero(s: Store, p: int)
    requires Inv(s) && IsPiece(s, p)
    ensures Legal(s, OpWrite(p, 0, []))
  {
  }

  /** Without debt: writing reserved pieces fills the pool with them until the next write, of
      whatever piece, has nothing to evict. */
  lemma {:induction false} SmallPoolGetsStuck(e: Exec)
    requires Settled(e.store) && !e.spinning && 0 < |e.store.pieces| && Debt(e.store) == 0
    requires e.store.bufferSize < |ReservedPieces(e.store)| + 2
    ensures !NeverStuck(e)
    decreases e.store.bufferSize - |ReservedUsed(e.store)|
  {
    hide Shape, TimesOrdered, PiecesLinked, BuffersLinked, FirstFree, Booked, NeverStuck, Write, Step, UsedBuffers,
         ReservedUsed, OtherUsed, Legal, ReservedPieces, Accepted;
    var s := e.store;
    SettledUse(s);
    if s.bufferSize == 0 {
      EmptyPoolFails(e);
    } else if |ReservedUsed(s)| == s.bufferSize - 1 {
      var p := PickAbsent(s);
      LegalAtZero(s, p);
      NoneOther(s);
      LastBufferSpins(s, p);
      NotServed(e, p);
    } else {
      var p := PickAbsentReserved(s);
      LegalAtZero(s, p);
      WriteKeepsSettled(s, p, 0, []);
      StepKeepsFrame(e, OpWrite(p, 0, []));
      StepKeepsInv(e, OpWrite(p, 0, []));
      FreeBufferIff(s);
      var e' := Step(e, OpWrite(p, 0, []));
      WriteStep(e, p);
      if e'.spinning {
        NotServed(e, p);
      } else {
        SameReserved(s, e'.store);
        SmallPoolGetsStuck(e');
        StuckLater(e, OpWrite(p, 0, []));
      }
    }
  }

  lemma WriteStep(e: Exec, p: int)
    requires Inv(e.store) && Legal(e.store, OpWrite(p, 0, []))
    ensures Step(e, OpWrite(p, 0, [])).store == Write(e.store, p, 0, []).store
    ensures Step(e, OpWrite(p, 0, [])).spinning == !Write(e.store, p, 0, []).halts
  {
    hide Write;
  }

  lemma NotServed(e: Exec, p: int)
    requires Inv(e.store) && Legal(e.store, OpWrite(p, 0, [])) && !Served(e.store, p, 0, [])
    ensures !NeverStuck(e)
  {
    hide Write, NeverStuck, Served, Legal;
    StuckNow(e);
  }

  lemma SameReserved(s: Store, t: Store)
    requires SameFrame(s, t)
    ensures ReservedPieces(t) == ReservedPieces(s)
  {
  }

  /** In a settled state without debt fewer buffers are used than there are. */
  lemma SettledUse(s: Store)
    requires Settled(s)
    ensures |ReservedUsed(s)| <= |ReservedPieces(s)| && |UsedBuffers(s)| == |ReservedUsed(s)| + |OtherUsed(s)|
    ensures Debt(s) == 0 && 0 < s.bufferSize ==> |UsedBuffers(s)| < s.bufferSize
    ensures 0 <= s.bufferSize <= |s.pieces|
  {
    UsedSplit(s);
    ReservedUsedBound(s);
  }

  lemma NoneOther(s: Store)
    requires |UsedBuffers(s)| == |ReservedUsed(s)|
    ensures OtherUsed(s) == {}
  {
    UsedSplit(s);
  }

  lemma EmptyPoolFails(e: Exec)
    requires Settled(e.store) && !e.spinning && e.store.bufferSize == 0 && 0 < |e.store.pieces|
    ensures !NeverStuck(e)
  {
    hide TimesOrdered, NeverStuck;
    var s := e.store;
    assert !Resident(s, 0);
    LegalAtZero(s, 0);
    WriteFails(s, 0, 0, []);
    NotServed(e, 0);
  }

  /** With debt the trim loop never runs, so writes fill the pool and the next one finds no buffer. */
  lemma {:induction false} DebtGetsStuck(e: Exec)
    requires Settled(e.store) && !e.spinning && 0 < Debt(e.store) && e.store.bufferSize < |e.store.pieces|
    ensures !NeverStuck(e)
    decreases e.store.bufferSize - |UsedBuffers(e.store)|
  {
    hide Shape, TimesOrdered, PiecesLinked, BuffersLinked, FirstFree, Booked, NeverStuck, Write, Step, UsedBuffers,
         ReservedUsed, OtherUsed, Legal, Served;
    var s := e.store;
    FreeBufferIff(s);
    var p := PickAbsent(s);
    LegalAtZero(s, p);
    if !HasFreeBuffer(s) {
      FullFails(s, p);
      NotServed(e, p);
    } else {
      StepKeepsFrame(e, OpWrite(p, 0, []));
      StepKeepsInv(e, OpWrite(p, 0, []));
      WriteStep(e, p);
      DebtWriteAdds(s, p);
      DebtGetsStuck(Step(e, OpWrite(p, 0, [])));
      StuckLater(e, OpWrite(p, 0, []));
    }
  }

  lemma FullFails(s: Store, p: int)
    requires Inv(s) && Legal(s, OpWrite(p, 0, [])) && !Resident(s, p) && !HasFreeBuffer(s)
    ensures !Served(s, p, 0, [])
  {
    hide FirstFree, TimesOrdered, BuffersLinked;
    WriteFails(s, p, 0, []);
  }

  /** A write in debt that finds a free buffer takes it without trimming. */
  lemma DebtWriteAdds(s: Store, p: int)
    requires Settled(s) && 0 < Debt(s) && Legal(s, OpWrite(p, 0, [])) && !Resident(s, p) && HasFreeBuffer(s)
    ensures Write(s, p, 0, []).halts && |UsedBuffers(Write(s, p, 0, []).store)| == |UsedBuffers(s)| + 1
  {
    hide Shape, PiecesLinked, BuffersLinked, TimesOrdered, FirstFree, BeforeTrim, UsedBuffers, Accepted, ReservedUsed,
         OtherUsed, Trim;
    WriteAdds(s, p, 0, []);
    FreeBufferIff(s);
  }

  // ---------------------------------------------------------------- main results

  /** From any settled state, every write of every steady run is served if and only if there are
      enough buffers. */
  lemma NeverStuckIff(e: Exec)
    requires Settled(e.store) && !e.spinning && 0 < |e.store.pieces|
    ensures NeverStuck(e) <==> Enough(e.store)
  {
    hide Shape, PiecesLinked, BuffersLinked, TimesOrdered, WritesServed;
    if Enough(e.store) {
      forall ops | AllSteady(ops)
        ensures WritesServed(RunFrom(e, ops))
      {
        RunStaysServed(e, ops);
        EnoughServesAll(RunFrom(e, ops));
      }
    } else if Debt(e.store) == 0 {
      SmallPoolGetsStuck(e);
    } else {
      SettledUse(e.store);
      DebtGetsStuck(e);
    }
  }

  /** An initialized pool that no write has touched yet. */
  ghost predicate Ready(s: Store) {
    && Inv(s) && s.isInitialized && UsedBuffers(s) == {}
    && s.bufferUsed == 0 && s.bufferLimit == s.bufferSize
  }

  /** Initializing a new store and reserving pieces makes it ready. */
  lemma InitializedIsReady(c: Config, reserved: set<int>)
    requires ConfigOk(c)
    ensures var e := Run(c, [OpInitialize, OpReserve(reserved)]);
            && Ready(e.store) && e.store.reserved == reserved && !e.spinning
            && e.store.pieceLength == c.pieceLength && |e.store.pieces| == |c.lengths|
            && e.store.bufferSize == PoolSize(c.capacity, c.pieceLength, |c.lengths|) && e.store.capacity == c.capacity
  {
    NewKeepsInv(c);
    InitializeKeepsInv(NewStore(c));
    var e := Exec(NewStore(c), [], false);
    var ops := [OpInitialize, OpReserve(reserved)];
    assert ops[..1] == [OpInitialize] && ops[..1][..0] == [];
    assert RunFrom(e, [OpInitialize]) == Step(e, OpInitialize);
    assert RunFrom(e, ops) == Step(Step(e, OpInitialize), OpReserve(reserved));
  }

  lemma ReadyIsSettled(s: Store)
    requires Ready(s)
    ensures Settled(s) && Counted(s) && Debt(s) == 0
  {
    assert OtherUsed(s) == {};
  }

  /** With the reserved set fixed before the first write and no growth after it, every write of
      every run gets a buffer and returns if and only if the pool has two buffers more than
      there are reserved pieces. */
  lemma WritesNeverFailIff(e: Exec)
    requires Ready(e.store) && !e.spinning && 0 < |e.store.pieces|
    ensures NeverStuck(e) <==> |ReservedPieces(e.store)| + 2 <= e.store.bufferSize
  {
    hide Settled, NeverStuck;
    ReadyIsSettled(e.store);
    NeverStuckIff(e);
  }

  // ---------------------------------------------------------------- growth and reservation

  lemma GrowKeepsSettled(s: Store, size: int)
    requires Settled(s)
    ensures var t := Grow(s, size);
            && Settled(t) && (Counted(s) ==> Counted(t)) && t.reserved == s.reserved && |t.pieces| == |s.pieces|
            && Debt(t) == Debt(s) + (if s.capacity < size then Outstanding(s) else 0)
  {
    hide PoolSize, PiecesLinked, BuffersLinked, TimesOrdered, UsedBuffers, Contents;
    GrowKeepsInv(s, size);
    FreeBufferIff(s);
    UsedSplit(s);
    if size > s.capacity {
      GrowKeepsPool(s, size);
      GrowKeepsPrefix(s, size);
      GrowBooks(s, Grow(s, size));
    }
  }

  lemma GrowBooks(s: Store, t: Store)
    requires |s.buffers| <= |t.buffers| && t.reserved == s.reserved && UsedBuffers(t) == UsedBuffers(s)
    requires forall i :: 0 <= i < |s.buffers| ==> t.buffers[i] == s.buffers[i]
    ensures OtherUsed(t) == OtherUsed(s)
  {
  }

  lemma ReserveKeepsSettled(s: Store, ps: set<int>)
    requires Settled(s)
    ensures Settled(Reserve(s, ps)) && Debt(Reserve(s, ps)) == Debt(s) && Reserve(s, ps).reserved == ps
  {
    assert UsedBuffers(Reserve(s, ps)) == UsedBuffers(s);
  }

  /** Before initialization nothing is used; afterwards the state is settled. */
  ghost predicate Begun(s: Store) {
    if s.isInitialized then Settled(s)
    else Inv(s) && s.bufferUsed == 0 && s.bufferLimit == s.bufferSize && |UsedBuffers(s)| == 0
  }

  lemma StepKeepsBegun(e: Exec, op: Op)
    requires Begun(e.store) && !e.spinning && Inv(e.store) && Legal(e.store, op)
    ensures var r := Step(e, op);
            !r.spinning ==> Begun(r.store) && |r.store.pieces| == |e.store.pieces|
  {
    hide Booked, PiecesLinked, BuffersLinked, TimesOrdered, Shape, Write, Debt, Grow, Trim, Read, UsedBuffers;
    if !e.store.isInitialized {
      StartsSettled(e, op);
    } else if op.OpGrow? {
      GrowKeepsSettled(e.store, op.size);
    } else if op.OpReserve? {
      ReserveKeepsSettled(e.store, op.pieces);
    } else {
      StepKeepsFrame(e, op);
    }
  }

  /** A store that is not initialized does nothing but that. */
  lemma StartsSettled(e: Exec, op: Op)
    requires Begun(e.store) && !e.store.isInitialized && !e.spinning && Inv(e.store) && Legal(e.store, op)
    ensures var r := Step(e, op);
            !r.spinning ==> Begun(r.store) && |r.store.pieces| == |e.store.pieces|
  {
    hide TimesOrdered;
    StepKeepsInv(e, op);
    match op
    case OpInitialize => InitializeKeepsInv(e.store);
    case OpTrim(pi) => TrimOfEmpty(e.store, pi);
    case _ => assert UsedBuffers(Step(e, op).store) == UsedBuffers(e.store);
  }

  lemma TrimOfEmpty(s: Store, pi: int)
    requires Inv(s) && !s.isInitialized
    ensures Trim(s, pi).halts ==> Trim(s, pi).store == s
  {
  }

  lemma {:induction false} RunKeepsBegun(e: Exec, ops: seq<Op>)
    requires Begun(e.store) && !e.spinning && Inv(e.store)
    ensures var r := RunFrom(e, ops);
            !r.spinning ==> Begun(r.store) && |r.store.pieces| == |e.store.pieces|
  {
    hide Begun, Step, Legal, Inv;
    if ops != [] {
      var last, op := RunFrom(e, ops[..|ops| - 1]), ops[|ops| - 1];
      RunKeepsBegun(e, ops[..|ops| - 1]);
      if !last.spinning && Legal(last.store, op) {
        StepKeepsBegun(last, op);
      }
    }
  }

  /** After any run at all, with growths and changes of the reserved set wherever they fall: as long
      as neither happens again, all further writes are served if and only if the growths found no
      charge outstanding and the pool has two buffers more than reserved pieces, or they did and
      every piece of the torrent has a buffer. */
  lemma RunsServeIff(c: Config, ops: seq<Op>)
    requires ConfigOk(c) && 0 < |c.lengths| && Run(c, ops).store.isInitialized && !Run(c, ops).spinning
    ensures Inv(NewStore(c))
    ensures var r := Run(c, ops);
            NeverStuck(r) <==>
              if RunDebt(Exec(NewStore(c), [], false), ops) == 0
              then |ReservedPieces(r.store)| + 2 <= r.store.bufferSize
              else r.store.bufferSize == |c.lengths|
  {
    hide Settled, NeverStuck, RunFrom, RunDebt, ReservedPieces;
    NewKeepsInv(c);
    var e := Exec(NewStore(c), [], false);
    RunKeepsBegun(e, ops);
    RunFromDebt(e, ops);
    NeverStuckIff(Run(c, ops));
  }

  // ---------------------------------------------------------------- changing the reserved set

  /** Calls that keep the memory size and never reserve more than `k` pieces. */
  predicate AllWithin(ops: seq<Op>, k: nat) {
    forall i :: 0 <= i < |ops| ==> Steady(ops[i]) || (ops[i].OpReserve? && |ops[i].pieces| <= k)
  }

  /** Writes are served after any such run. */
  ghost predicate NeverStuckWithin(e: Exec, k: nat)
    requires Inv(e.store)
  {
    forall ops :: AllWithin(ops, k) ==> WritesServed(RunFrom(e, ops))
  }

  /** A state between calls with at most `k` reserved pieces and enough buffers for any `k`. */
  ghost predicate RoomFor(s: Store, k: nat) {
    && Settled(s) && |ReservedPieces(s)| <= k
    && (if Debt(s) == 0 then k + 2 <= s.bufferSize else s.bufferSize == |s.pieces|)
  }

  lemma FewReserved(s: Store, ps: set<int>)
    requires Settled(s)
    ensures ReservedPieces(Reserve(s, ps)) <= ps && |ReservedPieces(Reserve(s, ps))| <= |ps|
    ensures (forall p :: p in ps ==> IsPiece(s, p)) ==> ReservedPieces(Reserve(s, ps)) == ps
  {
    SubsetCard(ReservedPieces(Reserve(s, ps)), ps);
  }

  lemma StepKeepsRoom(e: Exec, op: Op, k: nat)
    requires RoomFor(e.store, k) && !e.spinning && Legal(e.store, op) && AllWithin([op], k) && 0 < |e.store.pieces|
    ensures var r := Step(e, op);
            RoomFor(r.store, k) && !r.spinning && |r.store.pieces| == |e.store.pieces|
  {
    hide Booked, Write, PiecesLinked, BuffersLinked, TimesOrdered, Shape, Debt, Read, Trim;
    assert [op][0] == op;
    if op.OpReserve? {
      ReserveKeepsSettled(e.store, op.pieces);
      FewReserved(e.store, op.pieces);
    } else {
      EnoughHasBuffers(e.store);
      StepKeepsFrame(e, op);
      EnoughServesAll(e);
      SameReserved(e.store, Step(e, op).store);
    }
  }

  lemma {:induction false} RunKeepsRoom(e: Exec, ops: seq<Op>, k: nat)
    requires RoomFor(e.store, k) && !e.spinning && AllWithin(ops, k) && 0 < |e.store.pieces|
    ensures var r := RunFrom(e, ops);
            RoomFor(r.store, k) && !r.spinning && |r.store.pieces| == |e.store.pieces|
  {
    hide Booked, Step, Inv, Debt, ReservedPieces;
    if ops != [] {
      var last, op := RunFrom(e, ops[..|ops| - 1]), ops[|ops| - 1];
      RunKeepsRoom(e, ops[..|ops| - 1], k);
      if Legal(last.store, op) {
        StepKeepsRoom(last, op, k);
      }
    }
  }

  /** Over all runs that may reserve any `k` pieces at any time, whatever is resident: every write
      is served if and only if the pool has two buffers more than that or, in debt, one for every
      piece. */
  lemma ReservingServesIff(e: Exec, k: nat)
    requires Settled(e.store) && !e.spinning && |ReservedPieces(e.store)| <= k <= |e.store.pieces|
             && 0 < |e.store.pieces|
    ensures NeverStuckWithin(e, k) <==>
              if Debt(e.store) == 0 then k + 2 <= e.store.bufferSize else e.store.bufferSize == |e.store.pieces|
  {
    hide Booked, Step, Inv, Debt, ReservedPieces, WritesServed;
    if RoomFor(e.store, k) {
      forall ops | AllWithin(ops, k)
        ensures WritesServed(RunFrom(e, ops))
      {
        RunKeepsRoom(e, ops, k);
        EnoughServesAll(RunFrom(e, ops));
      }
    } else {
      ReservingGetsStuck(e, k);
    }
  }

  lemma ReservingGetsStuck(e: Exec, k: nat)
    requires Settled(e.store) && !e.spinning && k <= |e.store.pieces| && 0 < |e.store.pieces|
    requires if Debt(e.store) == 0 then e.store.bufferSize < k + 2 else e.store.bufferSize != |e.store.pieces|
    ensures !NeverStuckWithin(e, k)
  {
    hide Booked, Inv, Debt, ReservedPieces, WritesServed;
    var op := OpReserve(Range(k));
    ReserveKeepsSettled(e.store, Range(k));
    FewReserved(e.store, Range(k));
    NeverStuckIff(Step(e, op));
    var ops :| AllSteady(ops) && !WritesServed(RunFrom(Step(e, op), ops));
    RunFromFirst(e, op, ops);
    assert AllWithin([op] + ops, k);
  }

  // ---------------------------------------------------------------- buffering a file

  /** What buffering a file asks of the store: a growth if it needs more memory, and new reserved
      pieces. */
  function Prepare(s: Store, size: int, ps: set<int>): Store
    requires Inv(s)
  {
    Reserve(Grow(s, size), ps)
  }

  /** Preparing writes off the outstanding charges if it grows the pool; so all further writes are
      served if and only if no charge is or was written off and the pool has two buffers more than
      the new reserved pieces, or one is and it has a buffer for every piece. */
  lemma PreparedServesIff(e: Exec, size: int, ps: set<int>)
    requires Settled(e.store) && !e.spinning && 0 < |e.store.pieces|
    ensures var s, t := e.store, Prepare(e.store, size, ps);
            && Settled(t) && t.reserved == ps
            && Debt(t) == Debt(s) + (if s.capacity < size then s.bufferSize - s.bufferLimit else 0)
            && (NeverStuck(e.(store := t)) <==>
                  if Debt(s) == 0 && (size <= s.capacity || s.bufferLimit == s.bufferSize)
                  then |ReservedPieces(t)| + 2 <= t.bufferSize
                  else t.bufferSize == |s.pieces|)
  {
    hide NeverStuck, PiecesLinked, BuffersLinked, TimesOrdered, Shape, Debt, Grow;
    GrowKeepsSettled(e.store, size);
    ReserveKeepsSettled(Grow(e.store, size), ps);
    NeverStuckIff(e.(store := Prepare(e.store, size, ps)));
  }
}
