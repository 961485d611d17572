/** The store's slot accounting over whole runs. */
module StoreAccounting {
  import opened Arithmetic
  import opened StoreModel
  import opened StoreEviction
  import opened StoreOps
  import opened StoreRuns

  // ---------------------------------------------------------------- debt

  /** Slots that the limit has been charged for reserved pieces and not been given back. */
  function Outstanding(s: Store): int { s.bufferSize - s.bufferLimit }

  /** Used buffers that neither the use count nor the limit accounts for. */
  function Debt(s: Store): int { |UsedBuffers(s)| - s.bufferUsed - Outstanding(s) }

  /** What a call adds to the debt: an effective growth resets the limit, so it writes off all
      outstanding charges. */
  function AddedDebt(s: Store, op: Op): int {
    if op.OpGrow? && op.size > s.capacity then Outstanding(s) else 0
  }

  lemma OnlyEvictedUse(s: Store, t: Store)
    requires Inv(s) && OnlyEvicted(s, t)
    ensures |Freed(s, t)| == |UsedBuffers(s)| - |UsedBuffers(t)|
  {
    assert UsedBuffers(s) == Freed(s, t) + UsedBuffers(t);
  }

  lemma TrimKeepsDebt(s: Store, pi: int)
    requires Inv(s)
    ensures Debt(Trim(s, pi).store) == Debt(s)
  {
    hide Inv, TrimLoop, UsedBuffers, Evictable, Before;
    if !(s.capacity < 0 || !MustTrim(s)) {
      TrimOnlyEvicts(s, pi);
      TrimTakesFirst(s, pi);
      OnlyEvictedUse(s, TrimLoop(s, pi).store);
    }
  }

  lemma WriteKeepsDebt(s: Store, p: int, offset: nat, chunks: seq<seq<Byte>>)
    requires Inv(s) && IsPiece(s, p) && offset <= s.pieces[p].length
    ensures Debt(Write(s, p, offset, chunks).store) == Debt(s)
  {
    hide Inv, UsedBuffers, FirstFree, Trim;
    GetBufferKeepsInv(s, p);
    if s.isInitialized && Resident(GetWriteBuffer(s, p), p) {
      if !Resident(s, p) {
        FreeIsUnused(s, p);
        AssignKeepsInv(s, p, FirstFree(s.buffers, 0));
        FreeNotUsed(s, FirstFree(s.buffers, 0));
      }
      CopyInKeepsInv(GetWriteBuffer(s, p), p, offset, Accepted(s, p, offset, chunks));
      CopyKeepsInv(s, p, offset, chunks);
      TrimKeepsDebt(BeforeTrim(s, p, offset, chunks), p);
    }
  }

  lemma FreeNotUsed(s: Store, i: int)
    requires 0 <= i < |s.buffers| && !s.buffers[i].isUsed
    ensures i !in UsedBuffers(s)
  {
  }

  /** Allocation, eviction and any change of the reserved set keep the debt; an effective growth
      adds the outstanding charges. */
  lemma StepDebt(e: Exec, op: Op)
    requires Inv(e.store) && Legal(e.store, op)
    ensures Debt(Step(e, op).store) == Debt(e.store) + AddedDebt(e.store, op)
  {
    hide Inv, Write, Trim;
    var s := e.store;
    match op
    case OpInitialize => InitializeKeepsInv(s);
    case OpRead(p, offset, sizes) => if s.isInitialized && Resident(s, p) { TouchKeepsInv(s, p); }
    case OpWrite(p, offset, chunks) => WriteKeepsDebt(s, p, offset, chunks);
    case OpTrim(pi) => TrimKeepsDebt(s, pi);
    case OpGrow(size) => GrowKeepsInv(s, size);
    case OpReserve(_) =>
    case OpAttach =>
    case OpPicker(_, _) =>
  }

  /** The debt that the growths of a run have added. */
  ghost function RunDebt(e: Exec, ops: seq<Op>): int
    requires Inv(e.store)
  {
    if ops == [] then 0
    else
      var front, op := ops[..|ops| - 1], ops[|ops| - 1];
      var last := RunFrom(e, front);
      RunDebt(e, front) + (if last.spinning || !Legal(last.store, op) then 0 else AddedDebt(last.store, op))
  }

  lemma {:induction false} RunFromDebt(e: Exec, ops: seq<Op>)
    requires Inv(e.store)
    ensures Debt(RunFrom(e, ops).store) == Debt(e.store) + RunDebt(e, ops)
  {
    hide Inv, Step, Debt, AddedDebt;
    if ops != [] {
      var last := RunFrom(e, ops[..|ops| - 1]);
      RunFromDebt(e, ops[..|ops| - 1]);
      if !last.spinning && Legal(last.store, ops[|ops| - 1]) {
        StepDebt(last, ops[|ops| - 1]);
      }
    }
  }

  /** In every run the used buffers are those counted, those charged to the limit and the debt
      of the growths so far. */
  lemma RunAccounting(c: Config, ops: seq<Op>)
    requires ConfigOk(c)
    ensures Inv(NewStore(c))
    ensures var s := Run(c, ops).store;
            |UsedBuffers(s)| == s.bufferUsed + (s.bufferSize - s.bufferLimit)
                                + RunDebt(Exec(NewStore(c), [], false), ops)
  {
    NewKeepsInv(c);
    RunFromDebt(Exec(NewStore(c), [], false), ops);
  }

  // ---------------------------------------------------------------- what the counts say of the pool

  lemma AllUsed(s: Store)
    requires !HasFreeBuffer(s)
    ensures |UsedBuffers(s)| == |s.buffers|
  {
    assert UsedBuffers(s) == Range(|s.buffers|);
  }

  lemma SomeUnused(s: Store)
    requires HasFreeBuffer(s)
    ensures |UsedBuffers(s)| < |s.buffers|
  {
    var i := FirstFree(s.buffers, 0);
    assert UsedBuffers(s) <= Range(|s.buffers|) - {i};
    SubsetCard(UsedBuffers(s), Range(|s.buffers|) - {i});
  }

  /** A buffer is free exactly when the use count and the debt together are below the limit; the
      trim loop leaves the debt out. */
  lemma FreeBufferIff(s: Store)
    requires Inv(s) && s.isInitialized
    ensures HasFreeBuffer(s) <==> s.bufferUsed + Debt(s) < s.bufferLimit
    ensures HasFreeBuffer(s) <==> |UsedBuffers(s)| < s.bufferSize
    ensures |UsedBuffers(s)| <= s.bufferSize
  {
    hide PiecesLinked, BuffersLinked, TimesOrdered, UsedBuffers, FirstFree;
    if HasFreeBuffer(s) {
      SomeUnused(s);
    } else {
      AllUsed(s);
    }
  }

  /** A full pool whose use count is below the limit: trimming does nothing, and every write of a
      piece without a buffer stores nothing and returns 0. */
  lemma DebtHidesFullPool(s: Store, pi: int, p: int, offset: nat, chunks: seq<seq<Byte>>)
    requires Inv(s) && s.isInitialized && s.bufferUsed < s.bufferLimit <= s.bufferUsed + Debt(s)
    requires IsPiece(s, p) && offset <= s.pieces[p].length && !Resident(s, p)
    ensures Trim(s, pi) == TrimResult(s, true) && Write(s, p, offset, chunks) == WriteResult(s, 0, true)
  {
    hide Shape, PiecesLinked, BuffersLinked, TimesOrdered, FirstFree;
    FreeBufferIff(s);
    WriteFails(s, p, offset, chunks);
  }
}
