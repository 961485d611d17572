/** Whole runs of the store: every sequence of calls, with the picker free to change priorities
    and holdings between them. */
module StoreRuns {
  import opened Arithmetic
  import opened StoreModel
  import opened StoreEviction
  import opened StoreOps

  datatype Option<T> = None | Some(value: T)

  /** What happened to the contents, in order. */
  datatype Event =
    | Wrote(piece: int, offset: nat, bytes: seq<Byte>)
    | Evicted(pieces: set<int>)
    | WasRead(piece: int)

  /** The last byte written at position `k` of a piece since the piece was last allocated; zero
      if the piece was allocated and the position not written; none if it is not allocated. */
  function ByteAt(log: seq<Event>, p: int, k: int): Option<Byte> {
    if log == [] then None
    else
      var before := ByteAt(log[..|log| - 1], p, k);
      match log[|log| - 1]
      case Evicted(ps) => if p in ps then None else before
      case WasRead(_) => before
      case Wrote(q, offset, bytes) =>
        if q != p then before
        else if offset <= k < offset + |bytes| then Some(bytes[k - offset])
        else if before == None then Some(0) else before
  }

  datatype Op =
    | OpInitialize
    | OpRead(piece: int, offset: nat, sizes: seq<nat>)
    | OpWrite(piece: int, offset: nat, chunks: seq<seq<Byte>>)
    | OpTrim(protect: int)
    | OpGrow(size: int)
    | OpReserve(pieces: set<int>)
    | OpAttach
    | OpPicker(priority: seq<int>, have: set<int>)

  /** A store in a run: its state, what has happened, and whether a trim loop is spinning. */
  datatype Exec = Exec(store: Store, log: seq<Event>, spinning: bool)

  /** What the callers have to respect: initialize once and before growing, name pieces of the
      torrent, and stay within the piece. */
  predicate Legal(s: Store, op: Op) {
    match op
    case OpInitialize => !s.isInitialized
    case OpRead(p, offset, _) => IsPiece(s, p) && offset <= s.pieceLength
    case OpWrite(p, offset, _) => IsPiece(s, p) && offset <= s.pieces[p].length
    case OpTrim(_) => true
    case OpGrow(_) => s.isInitialized
    case OpReserve(_) => true
    case OpAttach => true
    case OpPicker(priority, _) => |priority| == |s.pieces|
  }

  /** One call. */
  ghost function Step(e: Exec, op: Op): Exec
    requires Inv(e.store) && Legal(e.store, op)
  {
    var s := e.store;
    match op
    case OpInitialize => e.(store := Initialize(s))
    case OpRead(p, offset, sizes) =>
      e.(store := Read(s, p, offset, sizes).store, log := e.log + (if Resident(s, p) then [WasRead(p)] else []))
    case OpWrite(p, offset, chunks) =>
      var r := Write(s, p, offset, chunks);
      var got := s.isInitialized && (Resident(s, p) || HasFreeBuffer(s));
      Exec(r.store,
           e.log + (if got then [Wrote(p, offset, Accepted(s, p, offset, chunks))] else [])
           + [Evicted(EvictedBy(s, p, offset, chunks))],
           !r.halts)
    case OpTrim(pi) =>
      var r := Trim(s, pi);
      TrimFrees(s, pi);
      Exec(r.store, e.log + [Evicted(PiecesOf(s, Freed(s, r.store)))], !r.halts)
    case OpGrow(size) => e.(store := Grow(s, size))
    case OpReserve(ps) => e.(store := Reserve(s, ps))
    case OpAttach => e.(store := Attach(s))
    case OpPicker(priority, have) => e.(store := s.(priority := priority, have := have))
  }

  lemma TrimFrees(s: Store, pi: int)
    requires Inv(s)
    ensures forall i :: i in Freed(s, Trim(s, pi).store) ==> 0 <= i < |s.buffers|
  {
  }

  // ---------------------------------------------------------------- the invariant

  lemma NewKeepsInv(c: Config)
    requires ConfigOk(c)
    ensures Inv(NewStore(c)) && UsedBuffers(NewStore(c)) == {} && Contents(NewStore(c)) == map[]
  {
    assert c.capacity + c.pieceLength - 1 >= 0;
    CeilNonNegative(c.capacity, c.pieceLength);
  }

  lemma CeilNonNegative(a: int, b: int)
    requires b > 0 && -b < a
    ensures CeilDiv(a, b) >= 0
  {
  }

  lemma InitializeKeepsInv(s: Store)
    requires Inv(s) && !s.isInitialized
    ensures Inv(Initialize(s)) && UsedBuffers(Initialize(s)) == UsedBuffers(s) && Contents(Initialize(s)) == Contents(s)
  {
    assert forall p :: 0 <= p < |s.pieces| ==> s.pieces[p].bi == -1;
  }

  /** `t` is `s` with fresh buffers added to the pool. */
  predicate Extended(s: Store, t: Store) {
    && s.pieceLength > 0 && |s.buffers| <= |t.buffers|
    && t.pieces == s.pieces && t.pieceLength == s.pieceLength && t.clock == s.clock
    && (forall i :: 0 <= i < |s.buffers| ==> t.buffers[i] == s.buffers[i])
    && (forall i :: |s.buffers| <= i < |t.buffers| ==> t.buffers[i] == FreshBuffer(i, s.pieceLength))
  }

  lemma ExtendLinks(s: Store, t: Store)
    requires Inv(s) && Extended(s, t) && Shape(t)
    ensures Inv(t)
  {
    hide PoolSize;
  }

  /** A pool extended by fresh buffers keeps its links, its times and its contents. */
  lemma ExtendPool(s: Store, t: Store)
    requires Inv(s) && Extended(s, t) && Shape(t)
    ensures Inv(t) && UsedBuffers(t) == UsedBuffers(s) && Contents(t) == Contents(s)
  {
    hide BuffersLinked, TimesOrdered, Shape;
    ExtendLinks(s, t);
  }

  /** Growth adds free zeroed buffers at the end of the pool and keeps all contents. */
  lemma GrowKeepsInv(s: Store, size: int)
    requires Inv(s) && s.isInitialized
    ensures Inv(Grow(s, size)) && UsedBuffers(Grow(s, size)) == UsedBuffers(s) && Contents(Grow(s, size)) == Contents(s)
  {
    hide PoolSize, PiecesLinked, BuffersLinked, TimesOrdered, Contents, UsedBuffers;
    if size > s.capacity {
      GrowKeepsPool(s, size);
      ExtendPool(s, Grow(s, size));
    }
  }

  lemma TrimKeepsInv(s: Store, pi: int)
    requires Inv(s)
    ensures OnlyEvicted(s, Trim(s, pi).store)
  {
    hide Inv, OnlyEvicted, TrimLoop;
    OnlyEvictedTick(s, 0);
    TrimOnlyEvicts(s, pi);
  }

  /** Every call keeps the invariant: the links between pieces and buffers are inverse to each
      other, a buffer is used exactly when it is assigned, free buffers are zero and the pool has
      the size that capacity and piece count ask for. */
  lemma StepKeepsInv(e: Exec, op: Op)
    requires Inv(e.store) && Legal(e.store, op)
    ensures Inv(Step(e, op).store)
  {
    var s := e.store;
    match op
    case OpInitialize => InitializeKeepsInv(s);
    case OpRead(p, offset, sizes) => ReadRefines(s, p, offset, sizes);
    case OpWrite(p, offset, chunks) => WriteKeepsInv(s, p, offset, chunks);
    case OpTrim(pi) => TrimKeepsInv(s, pi);
    case OpGrow(size) => GrowKeepsInv(s, size);
    case OpReserve(_) =>
    case OpAttach =>
    case OpPicker(_, _) =>
  }

  lemma WriteKeepsInv(s: Store, p: int, offset: nat, chunks: seq<seq<Byte>>)
    requires Inv(s) && IsPiece(s, p) && offset <= s.pieces[p].length
    ensures Inv(Write(s, p, offset, chunks).store)
  {
    if s.isInitialized && (Resident(s, p) || HasFreeBuffer(s)) {
      WriteRefines(s, p, offset, chunks);
    } else {
      WriteFails(s, p, offset, chunks);
    }
  }

  /** The run of a sequence of calls. A call is made when it is legal and no trim is spinning;
      any other is left out. */
  ghost function RunFrom(e: Exec, ops: seq<Op>): (r: Exec)
    requires Inv(e.store)
    ensures Inv(r.store)
  {
    if ops == [] then e
    else
      var last := RunFrom(e, ops[..|ops| - 1]);
      var op := ops[|ops| - 1];
      if last.spinning || !Legal(last.store, op) then last
      else
        StepKeepsInv(last, op);
        Step(last, op)
  }

  ghost function Run(c: Config, ops: seq<Op>): (r: Exec)
    requires ConfigOk(c)
    ensures Inv(r.store)
  {
    NewKeepsInv(c);
    RunFrom(Exec(NewStore(c), [], false), ops)
  }

  /** One more call at the end of a run. */
  lemma RunNext(c: Config, ops: seq<Op>, op: Op)
    requires ConfigOk(c) && !Run(c, ops).spinning && Legal(Run(c, ops).store, op)
    ensures Run(c, ops + [op]) == Step(Run(c, ops), op)
  {
    hide Inv, Step, Legal;
    assert (ops + [op])[..|ops|] == ops;
  }

  /** In every reachable state: a buffered piece's buffer serves that piece and the other way
      round, a buffer is used exactly when it is assigned, buffers carry their own index, free
      buffers are all zero, and the pool has the size that capacity and piece count ask for. */
  lemma RunKeepsLinks(c: Config, ops: seq<Op>)
    requires ConfigOk(c)
    ensures var s := Run(c, ops).store;
            && (forall p :: 0 <= p < |s.pieces| && s.pieces[p].bi != -1 ==>
                  0 <= s.pieces[p].bi < |s.buffers| && s.buffers[s.pieces[p].bi].pi == p)
            && (forall i :: 0 <= i < |s.buffers| ==>
                  && s.buffers[i].index == i && (s.buffers[i].isUsed <==> s.buffers[i].pi != -1)
                  && (s.buffers[i].isUsed ==> 0 <= s.buffers[i].pi < |s.pieces| && s.pieces[s.buffers[i].pi].bi == i)
                  && (!s.buffers[i].isUsed ==> forall k :: 0 <= k < |s.buffers[i].data| ==> s.buffers[i].data[k] == 0))
            && (s.isInitialized ==>
                  s.pieceLength > 0 && |s.buffers| == Min(CeilDiv(s.capacity, s.pieceLength), |s.pieces|))
  {
    hide Run, CeilDiv;
  }

  // ---------------------------------------------------------------- contents are the history

  /** A map from pieces to bytes is what the history says: its keys are the pieces written and
      not evicted since, and each byte is the last one written since allocation. */
  ghost predicate Matches(m: map<int, seq<Byte>>, len: int, log: seq<Event>) {
    && (forall p :: p in m ==> |m[p]| == len)
    && (forall p, k :: 0 <= k < len ==> ByteAt(log, p, k) == if p in m then Some(m[p][k]) else None)
  }

  ghost predicate MatchesLog(e: Exec)
    requires Inv(e.store)
  {
    Matches(Contents(e.store), e.store.pieceLength, e.log)
  }

  lemma LogWrote(m: map<int, seq<Byte>>, len: nat, log: seq<Event>, p: int, offset: nat, bytes: seq<Byte>)
    requires Matches(m, len, log) && offset + |bytes| <= len
    ensures var base := if p in m then m[p] else Zeros(len);
            Matches(m[p := Overlay(base, offset, bytes)], len, log + [Wrote(p, offset, bytes)])
  {
    var log' := log + [Wrote(p, offset, bytes)];
    assert log'[..|log|] == log;
    var base := if p in m then m[p] else Zeros(len);
    var m' := m[p := Overlay(base, offset, bytes)];
    forall q, k | 0 <= k < len
      ensures ByteAt(log', q, k) == if q in m' then Some(m'[q][k]) else None
    {
      assert ByteAt(log, q, k) == if q in m then Some(m[q][k]) else None;
    }
  }

  lemma LogRead(m: map<int, seq<Byte>>, len: int, log: seq<Event>, p: int)
    requires Matches(m, len, log)
    ensures Matches(m, len, log + [WasRead(p)])
  {
    assert (log + [WasRead(p)])[..|log|] == log;
  }

  lemma LogEvicted(m: map<int, seq<Byte>>, len: int, log: seq<Event>, gone: set<int>)
    requires Matches(m, len, log)
    ensures Matches(m - gone, len, log + [Evicted(gone)])
  {
    assert (log + [Evicted(gone)])[..|log|] == log;
  }

  lemma WriteMatchesLog(e: Exec, p: int, offset: nat, chunks: seq<seq<Byte>>)
    requires Inv(e.store) && MatchesLog(e) && Legal(e.store, OpWrite(p, offset, chunks))
    ensures Inv(Step(e, OpWrite(p, offset, chunks)).store)
    ensures MatchesLog(Step(e, OpWrite(p, offset, chunks)))
  {
    hide Inv, Contents, Write, EvictedBy, Accepted, Matches, FirstFree, ByteAt;
    var s := e.store;
    var gone := EvictedBy(s, p, offset, chunks);
    WriteKeepsShape(s, p, offset, chunks);
    InContents(s, p);
    if s.isInitialized && (Resident(s, p) || HasFreeBuffer(s)) {
      var bytes := Accepted(s, p, offset, chunks);
      WriteRefines(s, p, offset, chunks);
      LogWrote(Contents(s), s.pieceLength, e.log, p, offset, bytes);
      LogEvicted(Contents(s)[p := Overlay(Base(s, p), offset, bytes)], s.pieceLength,
                 e.log + [Wrote(p, offset, bytes)], gone);
    } else {
      WriteFails(s, p, offset, chunks);
      LogEvicted(Contents(s), s.pieceLength, e.log, gone);
      assert Contents(s) - {} == Contents(s);
      assert e.log + [] == e.log;
    }
  }

  /** The calls that neither write nor evict leave the contents as they are. */
  lemma OtherStepsKeepContents(e: Exec, op: Op)
    requires Inv(e.store) && Legal(e.store, op) && !op.OpWrite? && !op.OpTrim?
    ensures var r := Step(e, op);
            Inv(r.store) && Contents(r.store) == Contents(e.store) && r.store.pieceLength == e.store.pieceLength
            && (r.log == e.log || (op.OpRead? && r.log == e.log + [WasRead(op.piece)]))
  {
    hide Shape, PiecesLinked, BuffersLinked, TimesOrdered;
    StepKeepsInv(e, op);
    var s := e.store;
    match op
    case OpInitialize => InitializeKeepsInv(s);
    case OpRead(p, offset, sizes) =>
      ReadRefines(s, p, offset, sizes);
      assert e.log + [] == e.log;
    case OpGrow(size) => GrowKeepsInv(s, size);
    case OpReserve(_) =>
    case OpAttach =>
    case OpPicker(_, _) =>
  }

  lemma StepMatchesLog(e: Exec, op: Op)
    requires Inv(e.store) && MatchesLog(e) && Legal(e.store, op)
    ensures Inv(Step(e, op).store) && MatchesLog(Step(e, op))
  {
    hide Inv, Contents, Matches;
    if op.OpWrite? {
      WriteMatchesLog(e, op.piece, op.offset, op.chunks);
    } else if op.OpTrim? {
      var s := e.store;
      TrimKeepsInv(s, op.protect);
      LogEvicted(Contents(s), s.pieceLength, e.log, PiecesOf(s, Freed(s, Trim(s, op.protect).store)));
    } else {
      OtherStepsKeepContents(e, op);
      if op.OpRead? {
        LogRead(Contents(e.store), e.store.pieceLength, e.log, op.piece);
      }
    }
  }

  lemma {:induction false} RunFromMatchesLog(e: Exec, ops: seq<Op>)
    requires Inv(e.store) && MatchesLog(e)
    ensures MatchesLog(RunFrom(e, ops))
  {
    hide MatchesLog, Step, Inv;
    if ops != [] {
      var last := RunFrom(e, ops[..|ops| - 1]);
      RunFromMatchesLog(e, ops[..|ops| - 1]);
      if !last.spinning && Legal(last.store, ops[|ops| - 1]) {
        StepMatchesLog(last, ops[|ops| - 1]);
      }
    }
  }

  /** In every run the store is the plain map of its history: a piece is resident exactly when it
      was written and not evicted since, and every byte of it is the last one written there since
      it was allocated, or zero. */
  lemma RunMatchesHistory(c: Config, ops: seq<Op>)
    requires ConfigOk(c)
    ensures MatchesLog(Run(c, ops))
  {
    NewKeepsInv(c);
    RunFromMatchesLog(Exec(NewStore(c), [], false), ops);
  }

  /** In every run a read delivers the history's bytes. */
  lemma RunReadsLastWritten(c: Config, ops: seq<Op>, p: int, offset: nat, sizes: seq<nat>, k: nat)
    requires ConfigOk(c)
    requires var s := Run(c, ops).store; IsPiece(s, p) && offset <= s.pieceLength && Resident(s, p)
    requires k < Read(Run(c, ops).store, p, offset, sizes).n
    ensures var e := Run(c, ops);
            var out := Flatten(Read(e.store, p, offset, sizes).out);
            k < |out| && ByteAt(e.log, p, offset + k) == Some(out[k])
  {
    hide Inv, Run, Read, ByteAt, Contents;
    var e := Run(c, ops);
    RunMatchesHistory(c, ops);
    InContents(e.store, p);
    ReadRefines(e.store, p, offset, sizes);
  }

  // ---------------------------------------------------------------- access times are the history

  /** When the history last used a piece (wrote to it or read from it), or -1. */
  function LastUse(log: seq<Event>, p: int): (r: int)
    ensures -1 <= r < |log|
  {
    if log == [] then -1
    else
      var last := log[|log| - 1];
      if (last.Wrote? || last.WasRead?) && last.piece == p then |log| - 1 else LastUse(log[..|log| - 1], p)
  }

  /** Access time of a resident piece. */
  function AccessTime(s: Store, p: int): int
    requires Inv(s) && Resident(s, p)
  {
    s.buffers[s.pieces[p].bi].accessed
  }

  /** Access times order the resident pieces as the history last used them. */
  ghost predicate Recency(s: Store, log: seq<Event>)
    requires Inv(s)
  {
    && (forall p :: Resident(s, p) ==> 0 <= LastUse(log, p))
    && (forall p, q :: Resident(s, p) && Resident(s, q) ==>
          (AccessTime(s, p) < AccessTime(s, q) <==> LastUse(log, p) < LastUse(log, q)))
  }

  lemma LastUseNext(log: seq<Event>, e: Event, p: int)
    ensures LastUse(log + [e], p) == if (e.Wrote? || e.WasRead?) && e.piece == p then |log| else LastUse(log, p)
  {
    assert (log + [e])[..|log|] == log;
  }

  /** `t` holds the pieces of `s`, and piece `p`, which alone was used just now. */
  ghost predicate UsedNow(s: Store, t: Store, p: int)
    requires Inv(s)
  {
    && Inv(t) && Resident(t, p) && AccessTime(t, p) >= s.clock
    && (forall q :: Resident(t, q) && q != p ==> Resident(s, q) && AccessTime(t, q) == AccessTime(s, q))
  }

  /** `t` holds some of the pieces of `s`, with their access times. */
  ghost predicate KeptSome(s: Store, t: Store)
    requires Inv(s)
  {
    Inv(t) && forall q :: Resident(t, q) ==> Resident(s, q) && AccessTime(t, q) == AccessTime(s, q)
  }

  lemma TimeInPast(s: Store, p: int)
    requires Inv(s) && Resident(s, p)
    ensures AccessTime(s, p) < s.clock
  {
  }

  lemma RecencyUsed(s: Store, t: Store, log: seq<Event>, p: int, e: Event)
    requires Inv(s) && Recency(s, log) && UsedNow(s, t, p) && (e.Wrote? || e.WasRead?) && e.piece == p
    ensures Recency(t, log + [e])
  {
    hide Inv, AccessTime;
    forall q
      ensures LastUse(log + [e], q) == if q == p then |log| else LastUse(log, q)
      ensures Resident(s, q) ==> AccessTime(s, q) < s.clock
    {
      LastUseNext(log, e, q);
      if Resident(s, q) {
        TimeInPast(s, q);
      }
    }
  }

  lemma RecencyKept(s: Store, t: Store, log: seq<Event>)
    requires Inv(s) && Recency(s, log) && KeptSome(s, t)
    ensures Recency(t, log)
  {
    hide Inv, AccessTime;
  }

  lemma RecencyEvicted(s: Store, log: seq<Event>, gone: set<int>)
    requires Inv(s) && Recency(s, log)
    ensures Recency(s, log + [Evicted(gone)])
  {
    hide Inv, AccessTime;
    forall q
      ensures LastUse(log + [Evicted(gone)], q) == LastUse(log, q)
    {
      LastUseNext(log, Evicted(gone), q);
    }
  }

  /** A piece that eviction spares keeps its buffer and its access time. */
  lemma OnlyEvictedKeepsSome(s: Store, t: Store)
    requires Inv(s) && OnlyEvicted(s, t)
    ensures KeptSome(s, t)
  {
    hide TimesOrdered, Shape;
    forall q | Resident(t, q)
      ensures Resident(s, q) && AccessTime(t, q) == AccessTime(s, q)
    {
      var i := t.pieces[q].bi;
      assert i in UsedBuffers(t) && t.buffers[i] == s.buffers[i];
      assert s.pieces[s.buffers[i].pi].bi == i;
    }
  }

  lemma TouchIsUse(s: Store, p: int)
    requires Inv(s) && Resident(s, p)
    ensures UsedNow(s, Touch(s, p), p)
  {
    TouchKeepsInv(s, p);
  }

  lemma AssignKeepsTimes(s: Store, p: int)
    requires Inv(s) && IsPiece(s, p)
    ensures Inv(GetWriteBuffer(s, p)) && s.clock <= GetWriteBuffer(s, p).clock
    ensures forall q :: Resident(GetWriteBuffer(s, p), q) && q != p ==>
              Resident(s, q) && AccessTime(GetWriteBuffer(s, p), q) == AccessTime(s, q)
  {
    GetBufferKeepsInv(s, p);
  }

  lemma CopyIsUse(s: Store, p: int, offset: nat, bytes: seq<Byte>)
    requires Inv(s) && Resident(s, p) && offset + |bytes| <= s.pieces[p].length
    ensures UsedNow(s, CopyIn(s, p, offset, bytes), p)
  {
    hide Overlay;
    CopyInKeepsInv(s, p, offset, bytes);
  }

  lemma CopyIntoIsUse(s: Store, p: int, offset: nat, chunks: seq<seq<Byte>>)
    requires Inv(s) && IsPiece(s, p) && offset <= s.pieces[p].length && s.isInitialized
             && (Resident(s, p) || HasFreeBuffer(s))
    ensures Resident(GetWriteBuffer(s, p), p) && UsedNow(s, BeforeTrim(s, p, offset, chunks), p)
  {
    hide Inv, AccessTime, FirstFree, Contents, CopyIn, Accepted;
    GetBufferKeepsInv(s, p);
    CopyKeepsInv(s, p, offset, chunks);
    AssignKeepsTimes(s, p);
    CopyIsUse(GetWriteBuffer(s, p), p, offset, Accepted(s, p, offset, chunks));
  }

  lemma WriteIsUse(s: Store, p: int, offset: nat, chunks: seq<seq<Byte>>)
    requires Inv(s) && IsPiece(s, p) && offset <= s.pieces[p].length && s.isInitialized
             && (Resident(s, p) || HasFreeBuffer(s))
    ensures UsedNow(s, Write(s, p, offset, chunks).store, p)
  {
    hide Inv, AccessTime, FirstFree, Trim, Contents, OnlyEvicted, BeforeTrim, Accepted;
    CopyIntoIsUse(s, p, offset, chunks);
    var t := BeforeTrim(s, p, offset, chunks);
    TrimKeepsInv(t, p);
    OnlyEvictedKeepsSome(t, Trim(t, p).store);
    WriteRefines(s, p, offset, chunks);
  }

  /** Every call keeps access times in step with the history. */
  lemma StepKeepsRecency(e: Exec, op: Op)
    requires Inv(e.store) && Recency(e.store, e.log) && Legal(e.store, op)
    ensures Inv(Step(e, op).store) && Recency(Step(e, op).store, Step(e, op).log)
  {
    StepKeepsInv(e, op);
    if op.OpWrite? {
      WriteKeepsRecency(e, op.piece, op.offset, op.chunks);
    } else if op.OpTrim? {
      TrimKeepsRecency(e, op.protect);
    } else if op.OpRead? {
      ReadKeepsRecency(e, op);
    } else {
      QuietKeepsSome(e, op);
      RecencyKept(e.store, Step(e, op).store, e.log);
    }
  }

  lemma ReadKeepsRecency(e: Exec, op: Op)
    requires Inv(e.store) && Recency(e.store, e.log) && Legal(e.store, op) && op.OpRead?
    ensures Inv(Step(e, op).store) && Recency(Step(e, op).store, Step(e, op).log)
  {
    hide PiecesLinked, BuffersLinked, TimesOrdered, Recency, Touch;
    StepKeepsInv(e, op);
    if Resident(e.store, op.piece) {
      TouchIsUse(e.store, op.piece);
      RecencyUsed(e.store, Touch(e.store, op.piece), e.log, op.piece, WasRead(op.piece));
      ResidentInitialized(e.store, op.piece);
    } else {
      assert e.log + [] == e.log;
    }
  }

  lemma ResidentInitialized(s: Store, p: int)
    requires Inv(s) && Resident(s, p)
    ensures s.isInitialized
  {
  }

  lemma TrimKeepsRecency(e: Exec, pi: int)
    requires Inv(e.store) && Recency(e.store, e.log)
    ensures Inv(Step(e, OpTrim(pi)).store) && Recency(Step(e, OpTrim(pi)).store, Step(e, OpTrim(pi)).log)
  {
    hide Inv, Recency, Trim, OnlyEvicted;
    var s, t := e.store, Trim(e.store, pi).store;
    StepKeepsInv(e, OpTrim(pi));
    TrimKeepsInv(s, pi);
    OnlyEvictedKeepsSome(s, t);
    RecencyKept(s, t, e.log);
    RecencyEvicted(t, e.log, PiecesOf(s, Freed(s, t)));
  }

  lemma WriteKeepsRecency(e: Exec, p: int, offset: nat, chunks: seq<seq<Byte>>)
    requires Inv(e.store) && Recency(e.store, e.log) && Legal(e.store, OpWrite(p, offset, chunks))
    ensures var r := Step(e, OpWrite(p, offset, chunks)); Inv(r.store) && Recency(r.store, r.log)
  {
    hide Inv, Recency, Write, EvictedBy, Accepted, FirstFree;
    var s, t := e.store, Write(e.store, p, offset, chunks).store;
    var gone := EvictedBy(s, p, offset, chunks);
    if s.isInitialized && (Resident(s, p) || HasFreeBuffer(s)) {
      var event := Wrote(p, offset, Accepted(s, p, offset, chunks));
      WriteIsUse(s, p, offset, chunks);
      RecencyUsed(s, t, e.log, p, event);
      RecencyEvicted(t, e.log + [event], gone);
    } else {
      WriteFails(s, p, offset, chunks);
      RecencyEvicted(s, e.log, gone);
      assert e.log + [] == e.log;
    }
  }

  lemma QuietKeepsSome(e: Exec, op: Op)
    requires Inv(e.store) && Legal(e.store, op) && !op.OpWrite? && !op.OpTrim? && !op.OpRead?
    ensures KeptSome(e.store, Step(e, op).store) && Step(e, op).log == e.log
  {
    hide TimesOrdered, PoolSize;
    StepKeepsInv(e, op);
    var s, t := e.store, Step(e, op).store;
    if op.OpGrow? {
      GrowKeepsPrefix(s, op.size);
    } else if op.OpInitialize? {
      assert forall q :: !Resident(t, q);
    }
  }

  lemma GrowKeepsPrefix(s: Store, size: int)
    requires Inv(s)
    ensures Grow(s, size).pieces == s.pieces
    ensures |s.buffers| <= |Grow(s, size).buffers|
    ensures forall i :: 0 <= i < |s.buffers| ==> Grow(s, size).buffers[i] == s.buffers[i]
  {
    hide PoolSize;
    if size > s.capacity {
      GrowKeepsPool(s, size);
    }
  }

  lemma {:induction false} RunFromKeepsRecency(e: Exec, ops: seq<Op>)
    requires Inv(e.store) && Recency(e.store, e.log)
    ensures Recency(RunFrom(e, ops).store, RunFrom(e, ops).log)
  {
    hide Recency, Step, Inv;
    if ops != [] {
      var last := RunFrom(e, ops[..|ops| - 1]);
      RunFromKeepsRecency(e, ops[..|ops| - 1]);
      if !last.spinning && Legal(last.store, ops[|ops| - 1]) {
        StepKeepsRecency(last, ops[|ops| - 1]);
      }
    }
  }

  /** In every run the access times that eviction goes by order the resident pieces by when the
      run last read or wrote them. */
  lemma RunKeepsRecency(c: Config, ops: seq<Op>)
    requires ConfigOk(c)
    ensures Recency(Run(c, ops).store, Run(c, ops).log)
  {
    NewKeepsInv(c);
    var e := Exec(NewStore(c), [], false);
    assert forall p :: !Resident(e.store, p);
    RunFromKeepsRecency(e, ops);
  }

  /** A piece that goes comes before a piece that stays: with a torrent handle, one of priority 0
      before one that readers gave a priority; else, and among equals, the one that the history
      used less recently. */
  ghost predicate GoesBefore(s: Store, log: seq<Event>, v: int, q: int)
    requires Inv(s)
  {
    && Resident(s, v) && Resident(s, q)
    && (if s.isHandled && (s.priority[v] == 0 || s.priority[q] == 0) && s.priority[v] != s.priority[q]
        then s.priority[v] == 0
        else LastUse(log, v) < LastUse(log, q))
  }

  lemma BeforeTrimKeepsPicker(s: Store, p: int, offset: nat, chunks: seq<seq<Byte>>)
    requires Inv(s) && IsPiece(s, p) && offset <= s.pieces[p].length && s.isInitialized
    requires Resident(GetWriteBuffer(s, p), p)
    ensures var t := BeforeTrim(s, p, offset, chunks);
            && t.priority == s.priority && t.have == s.have && t.isHandled == s.isHandled && t.isInitialized
            && t.reserved == s.reserved && |t.pieces| == |s.pieces|
  {
    hide PiecesLinked, BuffersLinked, TimesOrdered, FirstFree, Accepted;
  }

  /** Of two pieces, neither protected nor reserved, trimming takes the one before the other. */
  lemma TrimTakesBefore(t: Store, p: int, v: int, q: int)
    requires Inv(t) && v in PiecesOf(t, Freed(t, Trim(t, p).store))
    requires Resident(Trim(t, p).store, q) && q != p && !IsReserved(t, q)
    ensures Resident(t, v) && Resident(t, q) && v != p
    ensures t.pieces[v].bi in UsedBuffers(t) && t.pieces[q].bi in UsedBuffers(t)
            && Before(t, t.pieces[v].bi, t.pieces[q].bi)
  {
    hide TrimLoop, TimesOrdered, Before, PickerAfter;
    TrimTakesFirst(t, p);
    TrimKeepsInv(t, p);
    var u := Trim(t, p).store;
    var i :| i in Freed(t, u) && t.buffers[i].pi == v;
    var j := u.pieces[q].bi;
    assert j in UsedBuffers(u) && u.buffers[j] == t.buffers[j];
    assert j in Evictable(t, p);
  }

  /** In every run, when a write evicts piece `v` and another piece `q` that it might have taken
      stays, then `v` is wanted by no reader and `q` is, or else both or neither are and the run
      last read or wrote `v` before `q`. */
  lemma RunEvictsLeastRecent(c: Config, ops: seq<Op>, p: int, offset: nat, chunks: seq<seq<Byte>>, v: int, q: int)
    requires ConfigOk(c) && Legal(Run(c, ops).store, OpWrite(p, offset, chunks))
    requires v in EvictedBy(Run(c, ops).store, p, offset, chunks)
    requires Resident(Write(Run(c, ops).store, p, offset, chunks).store, q) && q != p
             && q !in Run(c, ops).store.reserved
    ensures GoesBefore(Run(c, ops).store, Run(c, ops).log, v, q)
  {
    hide Run, Inv, FirstFree, BeforeTrim, TrimLoop, Recency, Freed, UsedBuffers, Before, PiecesOf;
    var s, log := Run(c, ops).store, Run(c, ops).log;
    RunKeepsRecency(c, ops);
    GetBufferKeepsInv(s, p);
    CopyIntoIsUse(s, p, offset, chunks);
    BeforeTrimKeepsPicker(s, p, offset, chunks);
    var t := BeforeTrim(s, p, offset, chunks);
    TrimTakesBefore(t, p, v, q);
    OrderIsHistory(s, t, log, p, v, q);
  }

  lemma OrderIsHistory(s: Store, t: Store, log: seq<Event>, p: int, v: int, q: int)
    requires Inv(s) && Recency(s, log) && UsedNow(s, t, p) && v != p && q != p && Resident(t, v) && Resident(t, q)
    requires t.priority == s.priority && t.isHandled == s.isHandled && t.isInitialized == s.isInitialized
    requires t.pieces[v].bi in UsedBuffers(t) && t.pieces[q].bi in UsedBuffers(t)
             && Before(t, t.pieces[v].bi, t.pieces[q].bi)
    ensures s.isInitialized ==> GoesBefore(s, log, v, q)
  {
    hide TimesOrdered, LastUse;
  }

  // ---------------------------------------------------------------- piece sizes are the history

  /** Number of bytes written to a piece since it was last allocated. */
  function WrittenSince(log: seq<Event>, p: int): int {
    if log == [] then 0
    else
      var before := WrittenSince(log[..|log| - 1], p);
      match log[|log| - 1]
      case Evicted(ps) => if p in ps then 0 else before
      case WasRead(_) => before
      case Wrote(q, _, bytes) => if q == p then before + |bytes| else before
  }

  ghost predicate Sizes(s: Store, log: seq<Event>) {
    forall p :: 0 <= p < |s.pieces| ==> s.pieces[p].size == WrittenSince(log, p)
  }

  lemma WrittenNext(log: seq<Event>, e: Event, p: int)
    ensures WrittenSince(log + [e], p) ==
              if e.Evicted? && p in e.pieces then 0
              else WrittenSince(log, p) + (if e.Wrote? && e.piece == p then |e.bytes| else 0)
  {
    assert (log + [e])[..|log|] == log;
  }

  lemma SizesEvicted(s: Store, t: Store, log: seq<Event>, gone: set<int>)
    requires Sizes(s, log) && PickerAfter(s, t, gone)
    ensures Sizes(t, log + [Evicted(gone)])
  {
    forall p | 0 <= p < |t.pieces|
      ensures t.pieces[p].size == WrittenSince(log + [Evicted(gone)], p)
    {
      WrittenNext(log, Evicted(gone), p);
    }
  }

  lemma WriteKeepsSizes(e: Exec, p: int, offset: nat, chunks: seq<seq<Byte>>)
    requires Inv(e.store) && Sizes(e.store, e.log) && Legal(e.store, OpWrite(p, offset, chunks))
    ensures var r := Step(e, OpWrite(p, offset, chunks)); Sizes(r.store, r.log)
  {
    hide Inv, Trim, Accepted, FirstFree, Sizes, Contents, PickerAfter;
    var s := e.store;
    if s.isInitialized && (Resident(s, p) || HasFreeBuffer(s)) {
      var bytes := Accepted(s, p, offset, chunks);
      GetBufferKeepsInv(s, p);
      CopyKeepsInv(s, p, offset, chunks);
      var t := BeforeTrim(s, p, offset, chunks);
      CopySizes(s, p, offset, chunks, e.log);
      TrimKeepsInv(t, p);
      OnlyEvictedTick(t, 0);
      assert Freed(t, t) == {} && PiecesOf(t, {}) == {};
      SizesEvicted(t, Write(s, p, offset, chunks).store, e.log + [Wrote(p, offset, bytes)],
                   EvictedBy(s, p, offset, chunks));
    } else {
      WriteFails(s, p, offset, chunks);
      NothingEvicted(s);
      SizesEvicted(s, s, e.log, {});
      assert e.log + [] == e.log;
    }
  }

  lemma NothingEvicted(s: Store)
    requires Inv(s)
    ensures PickerAfter(s, s, {})
  {
    assert s.have - {} == s.have;
  }

  lemma CopySizes(s: Store, p: int, offset: nat, chunks: seq<seq<Byte>>, log: seq<Event>)
    requires Inv(s) && IsPiece(s, p) && offset <= s.pieces[p].length && s.isInitialized && Sizes(s, log)
    requires Resident(GetWriteBuffer(s, p), p)
    ensures Sizes(BeforeTrim(s, p, offset, chunks), log + [Wrote(p, offset, Accepted(s, p, offset, chunks))])
  {
    hide PiecesLinked, BuffersLinked, TimesOrdered, FirstFree, Accepted;
    var t, event := BeforeTrim(s, p, offset, chunks), Wrote(p, offset, Accepted(s, p, offset, chunks));
    forall q | 0 <= q < |t.pieces|
      ensures t.pieces[q].size == WrittenSince(log + [event], q)
    {
      WrittenNext(log, event, q);
    }
  }

  lemma StepKeepsSizes(e: Exec, op: Op)
    requires Inv(e.store) && Sizes(e.store, e.log) && Legal(e.store, op)
    ensures Sizes(Step(e, op).store, Step(e, op).log)
  {
    hide Inv, OnlyEvicted;
    var s := e.store;
    if op.OpWrite? {
      WriteKeepsSizes(e, op.piece, op.offset, op.chunks);
    } else if op.OpTrim? {
      TrimPicker(s, op.protect);
      SizesEvicted(s, Trim(s, op.protect).store, e.log, PiecesOf(s, Freed(s, Trim(s, op.protect).store)));
    } else if op.OpRead? && Resident(s, op.piece) {
      forall p
        ensures WrittenSince(e.log + [WasRead(op.piece)], p) == WrittenSince(e.log, p)
      {
        WrittenNext(e.log, WasRead(op.piece), p);
      }
    } else {
      assert e.log + [] == e.log;
    }
  }

  lemma TrimPicker(s: Store, pi: int)
    requires Inv(s)
    ensures forall i :: i in Freed(s, Trim(s, pi).store) ==> 0 <= i < |s.buffers|
    ensures PickerAfter(s, Trim(s, pi).store, PiecesOf(s, Freed(s, Trim(s, pi).store)))
  {
    hide Inv, Trim, PickerAfter, Contents;
    TrimKeepsInv(s, pi);
  }

  lemma {:induction false} RunFromKeepsSizes(e: Exec, ops: seq<Op>)
    requires Inv(e.store) && Sizes(e.store, e.log)
    ensures Sizes(RunFrom(e, ops).store, RunFrom(e, ops).log)
  {
    hide Sizes, Step, Inv;
    if ops != [] {
      var last := RunFrom(e, ops[..|ops| - 1]);
      RunFromKeepsSizes(e, ops[..|ops| - 1]);
      if !last.spinning && Legal(last.store, ops[|ops| - 1]) {
        StepKeepsSizes(last, ops[|ops| - 1]);
      }
    }
  }

  /** In every run a piece's size is the number of bytes written to it since it was allocated. */
  lemma RunKeepsSizes(c: Config, ops: seq<Op>)
    requires ConfigOk(c)
    ensures Sizes(Run(c, ops).store, Run(c, ops).log)
  {
    NewKeepsInv(c);
    RunFromKeepsSizes(Exec(NewStore(c), [], false), ops);
  }

  // ---------------------------------------------------------------- what the calls asked for

  /** What a call leaves of the torrent's layout, and which flags and reserved pieces it sets. */
  lemma StepKeepsLayout(e: Exec, op: Op)
    requires Inv(e.store) && Legal(e.store, op)
    ensures var s, t := e.store, Step(e, op).store;
            && t.pieceLength == s.pieceLength && |t.pieces| == |s.pieces|
            && (forall p :: 0 <= p < |s.pieces| ==> t.pieces[p].length == s.pieces[p].length)
            && (t.isInitialized <==> s.isInitialized || op.OpInitialize?)
            && (t.isHandled <==> s.isHandled || op.OpAttach?)
            && t.reserved == (if op.OpReserve? && s.isInitialized then op.pieces else s.reserved)
  {
    hide PiecesLinked, BuffersLinked, TimesOrdered, Contents, Write, Trim, PoolSize;
    if op.OpWrite? {
      WriteKeepsLayout(e.store, op.piece, op.offset, op.chunks);
    } else if op.OpTrim? {
      TrimKeepsInv(e.store, op.protect);
      EvictionKeepsLayout(e.store, Trim(e.store, op.protect).store);
    }
  }

  lemma EvictionKeepsLayout(s: Store, t: Store)
    requires Inv(s) && OnlyEvicted(s, t)
    ensures t.pieceLength == s.pieceLength && |t.pieces| == |s.pieces|
    ensures forall p :: 0 <= p < |s.pieces| ==> t.pieces[p].length == s.pieces[p].length
    ensures t.isInitialized == s.isInitialized && t.isHandled == s.isHandled && t.reserved == s.reserved
  {
  }

  lemma WriteKeepsLayout(s: Store, p: int, offset: nat, chunks: seq<seq<Byte>>)
    requires Inv(s) && IsPiece(s, p) && offset <= s.pieces[p].length
    ensures var t := Write(s, p, offset, chunks).store;
            && t.pieceLength == s.pieceLength && |t.pieces| == |s.pieces|
            && (forall q :: 0 <= q < |s.pieces| ==> t.pieces[q].length == s.pieces[q].length)
            && t.isInitialized == s.isInitialized && t.isHandled == s.isHandled && t.reserved == s.reserved
  {
    hide PiecesLinked, BuffersLinked, TimesOrdered, Contents, FirstFree, OnlyEvicted, TrimLoop, Accepted, Overlay;
    GetBufferKeepsInv(s, p);
    if s.isInitialized && Resident(GetWriteBuffer(s, p), p) {
      CopyKeepsInv(s, p, offset, chunks);
      var t := BeforeTrim(s, p, offset, chunks);
      TrimKeepsInv(t, p);
      EvictionKeepsLayout(t, Trim(t, p).store);
    }
  }

  lemma {:induction false} RunFromKeepsLayout(e: Exec, ops: seq<Op>)
    requires Inv(e.store)
    ensures var s, t := e.store, RunFrom(e, ops).store;
            && t.pieceLength == s.pieceLength && |t.pieces| == |s.pieces|
            && (forall p :: 0 <= p < |s.pieces| ==> t.pieces[p].length == s.pieces[p].length)
    ensures !RunFrom(e, ops).spinning ==>
              && (RunFrom(e, ops).store.isHandled <==> e.store.isHandled || OpAttach in ops)
              && (RunFrom(e, ops).store.isInitialized <==> e.store.isInitialized || OpInitialize in ops)
  {
    hide Step, Inv;
    if ops != [] {
      var n := |ops| - 1;
      var last := RunFrom(e, ops[..n]);
      RunFromKeepsLayout(e, ops[..n]);
      assert ops == ops[..n] + [ops[n]];
      if !last.spinning && Legal(last.store, ops[n]) {
        StepKeepsLayout(last, ops[n]);
      }
    }
  }

  /** In every run each piece has the length that the torrent gave it. As long as no trim spins, the
      store is initialized and has its handle exactly if the run made these calls. */
  lemma RunKeepsLayout(c: Config, ops: seq<Op>)
    requires ConfigOk(c)
    ensures var s := Run(c, ops).store;
            && s.pieceLength == c.pieceLength && |s.pieces| == |c.lengths|
            && (forall p :: 0 <= p < |c.lengths| ==> s.pieces[p].length == c.lengths[p])
            && (!Run(c, ops).spinning ==>
                  (s.isInitialized <==> OpInitialize in ops) && (s.isHandled <==> OpAttach in ops))
  {
    NewKeepsInv(c);
    RunFromKeepsLayout(Exec(NewStore(c), [], false), ops);
  }

  /** Nothing is reserved at first; the reserved pieces are those of the last call that names them
      once the store is initialized. */
  lemma RunReserves(c: Config, ops: seq<Op>, op: Op)
    requires ConfigOk(c) && !Run(c, ops).spinning && Legal(Run(c, ops).store, op)
    ensures Run(c, []).store.reserved == {}
    ensures Run(c, ops + [op]).store.reserved ==
            if op.OpReserve? && OpInitialize in ops then op.pieces else Run(c, ops).store.reserved
  {
    hide Step, Inv, Legal;
    RunNext(c, ops, op);
    RunKeepsLayout(c, ops);
    StepKeepsLayout(Run(c, ops), op);
  }

  /** In every run a write that gets a buffer counts the bytes it offers, or those that fit the
      torrent's piece if these are fewer, and the history then has its chunks' bytes, one after
      the other from the offset on; elsewhere in the piece it has what it had, or zero. */
  lemma RunStoresChunks(c: Config, ops: seq<Op>, p: int, offset: nat, chunks: seq<seq<Byte>>)
    requires ConfigOk(c) && !Run(c, ops).spinning && OpInitialize in ops
    requires 0 <= p < |c.lengths| && offset <= c.lengths[p]
    requires Resident(Run(c, ops).store, p) || HasFreeBuffer(Run(c, ops).store)
    ensures var e, r, sizes := Run(c, ops), Run(c, ops + [OpWrite(p, offset, chunks)]), ChunkSizes(chunks);
            var n := Min(c.lengths[p] - offset, Total(sizes));
            && Legal(e.store, OpWrite(p, offset, chunks)) && Write(e.store, p, offset, chunks).n == n
            && (forall i, k :: 0 <= i < |chunks| && 0 <= k < |chunks[i]| ==>
                  var at := Total(sizes[..i]) + k; at < n ==> ByteAt(r.log, p, offset + at) == Some(chunks[i][k]))
            && (forall j :: 0 <= j < c.pieceLength && !(offset <= j < offset + n) ==>
                  ByteAt(r.log, p, j) == if ByteAt(e.log, p, j) == None then Some(0) else ByteAt(e.log, p, j))
  {
    hide Run, Inv, ByteAt, Contents, Write, ChunkSizes, Total, FirstFree;
    var op := OpWrite(p, offset, chunks);
    var e := Run(c, ops);
    RunKeepsLayout(c, ops);
    WriteStores(e.store, p, offset, chunks);
    RunNext(c, ops, op);
    RunMatchesHistory(c, ops);
    RunMatchesHistory(c, ops + [op]);
    WriteKeepsShape(e.store, p, offset, chunks);
    InContents(e.store, p);
  }

  /** In every run a read of a resident piece fills its destinations one after the other with the
      history's bytes from the offset on, up to the piece length. */
  lemma RunFillsDestinations(c: Config, ops: seq<Op>, p: int, offset: nat, sizes: seq<nat>, i: nat, k: nat)
    requires ConfigOk(c) && Resident(Run(c, ops).store, p) && offset <= c.pieceLength && i < |sizes| && k < sizes[i]
    ensures Run(c, ops).store.pieceLength == c.pieceLength
    ensures var e, at := Run(c, ops), Total(sizes[..i]) + k;
            var out := Read(e.store, p, offset, sizes).out;
            && |out| == |sizes| && (k < |out[i]| <==> offset + at < c.pieceLength)
            && (k < |out[i]| ==> ByteAt(e.log, p, offset + at) == Some(out[i][k]))
  {
    hide Run, ByteAt, TimesOrdered, Deal, Total;
    var e := Run(c, ops);
    RunKeepsLayout(c, ops);
    RunMatchesHistory(c, ops);
    ResidentInitialized(e.store, p);
    DealPlaces(e.store.buffers[e.store.pieces[p].bi].data[offset..], sizes, i);
  }

  /** In every run with a torrent handle, a piece that a write evicts loses its priority and is no
      longer held, and every other piece keeps both; without a handle all pieces do. */
  lemma RunForgetsEvicted(c: Config, ops: seq<Op>, p: int, offset: nat, chunks: seq<seq<Byte>>, q: int)
    requires ConfigOk(c) && !Run(c, ops).spinning && 0 <= q < |c.lengths|
    requires Legal(Run(c, ops).store, OpWrite(p, offset, chunks))
    ensures var s := Run(c, ops).store;
            var t := Write(s, p, offset, chunks).store;
            && |s.priority| == |t.priority| == |c.lengths|
            && (if OpAttach in ops && q in EvictedBy(s, p, offset, chunks) then t.priority[q] == 0 && q !in t.have
                else t.priority[q] == s.priority[q] && (q in t.have <==> q in s.have))
  {
    hide Run, PiecesLinked, BuffersLinked, TimesOrdered, Contents, FirstFree, TrimLoop, Accepted, Overlay, UsedBuffers;
    var s := Run(c, ops).store;
    RunKeepsLayout(c, ops);
    GetBufferKeepsInv(s, p);
    if s.isInitialized && Resident(GetWriteBuffer(s, p), p) {
      CopyKeepsInv(s, p, offset, chunks);
      BeforeTrimKeepsPicker(s, p, offset, chunks);
      TrimPicker(BeforeTrim(s, p, offset, chunks), p);
    }
  }
}
