/** Writers and trimming threads on the store's allocation lock (`m_mutex`), interleaved at the
    steps of src/bittorrent/memory_storage.cpp: a writer checks its piece without the lock, takes
    the lock, checks again, scans for a free buffer, claims it, links it, is charged for it and
    unlocks; a trimmer checks the counts without the lock, takes it, and then picks a buffer,
    clears it, counts it out and unlinks its piece until enough are free. Any number of threads
    take part, each step of each may fall between any two steps of the others, and the reserved
    set, which the lock does not guard, may change at any time. */
module AllocationProtocol {
  import opened Arithmetic

  datatype Slot = Slot(isUsed: bool, pi: int)

  const FREE := Slot(false, -1)

  predicate AllUsed(slots: seq<Slot>) {
    forall j :: 0 <= j < |slots| ==> slots[j].isUsed
  }

  type Thread = int

  datatype Lock = Open | HeldBy(thread: Thread)

  /** Where a thread is. The comment says what it is about to do. */
  datatype Pc =
    | Idle
    | CheckPiece(p: int)              // look at the piece without the lock
    | WaitToWrite(p: int)             // take the lock
    | Recheck(p: int)                 // look at the piece again
    | Scan(p: int, i: int)            // look at buffer i
    | Link(p: int, i: int)            // buffer i is claimed: link the piece to it
    | Charge(p: int, i: int)          // linked: charge the limit or the use count
    | WriteUnlock(p: int)             // release the lock
    | CheckCounts(q: int)             // compare the counts without the lock
    | WaitToTrim(q: int)              // take the lock
    | TrimHead(q: int)                // compare the counts, pick a buffer
    | Clear(q: int, i: int)           // buffer i is picked: reset it
    | CountOut(q: int, i: int, p: int)// reset: take it off the use count
    | Unlink(q: int, i: int, p: int)  // counted out: reset the piece it served
    | TrimUnlock(q: int)              // release the lock

  /** What the lock guards: the buffer of each piece (or -1), the buffers and the two counts. */
  datatype Pool = Pool(owner: seq<int>, slots: seq<Slot>, limit: int, used: int)

  /** `entry`, `evicted` and `seen` record the pool as the lock was last taken, the buffers evicted
      since and the reserved set each time the lock holder looked at it, to charge a count or to
      pick a buffer; no step depends on them. */
  datatype State = State(
    pool: Pool,
    entry: Pool,
    evicted: seq<int>,
    seen: seq<set<int>>,
    reserved: set<int>,
    lock: Lock,
    threads: map<Thread, Pc>)

  predicate Critical(pc: Pc) {
    !(pc.Idle? || pc.CheckPiece? || pc.WaitToWrite? || pc.CheckCounts? || pc.WaitToTrim?)
  }

  function Goto(s: State, t: Thread, pc: Pc): State { s.(threads := s.threads[t := pc]) }

  /** A step of thread `t` that changes the pool. */
  function Change(s: State, t: Thread, pool: Pool, pc: Pc): State { s.(pool := pool, threads := s.threads[t := pc]) }

  function Take(s: State, t: Thread, pc: Pc): State {
    s.(lock := HeldBy(t), threads := s.threads[t := pc], entry := s.pool, evicted := [], seen := [])
  }

  /** The lock holder has looked at the reserved set once more. */
  function Look(s: State): State { s.(seen := s.seen + [s.reserved]) }

  function Release(s: State, t: Thread): State { s.(lock := Open, threads := s.threads[t := Idle]) }

  function Claimed(m: Pool, i: int, p: int): Pool
    requires 0 <= i < |m.slots|
  {
    m.(slots := m.slots[i := Slot(true, p)])
  }

  function Cleared(m: Pool, i: int): Pool
    requires 0 <= i < |m.slots|
  {
    m.(slots := m.slots[i := FREE])
  }

  function Linked(m: Pool, p: int, i: int): Pool
    requires 0 <= p < |m.owner|
  {
    m.(owner := m.owner[p := i])
  }

  function Charged(m: Pool, toLimit: bool): Pool {
    if toLimit then m.(limit := m.limit - 1) else m.(used := m.used + 1)
  }

  /** What an idle thread may start on. */
  predicate Start(s: State, pc: Pc) {
    (pc.CheckPiece? && 0 <= pc.p < |s.pool.owner|) || pc.CheckCounts?
  }

  /** One step of a writer. */
  ghost predicate WriterStep(s: State, s': State, t: Thread)
    requires t in s.threads
  {
    var m := s.pool;
    match s.threads[t]
    case CheckPiece(p) => 0 <= p < |m.owner| && s' == Goto(s, t, if m.owner[p] != -1 then Idle else WaitToWrite(p))
    case WaitToWrite(p) => s.lock == Open && s' == Take(s, t, Recheck(p))
    case Recheck(p) => 0 <= p < |m.owner| && s' == Goto(s, t, if m.owner[p] != -1 then WriteUnlock(p) else Scan(p, 0))
    case Scan(p, i) =>
      if !(0 <= i < |m.slots|) then s' == Goto(s, t, WriteUnlock(p))
      else if m.slots[i].isUsed then s' == Goto(s, t, Scan(p, i + 1))
      else s' == Change(s, t, Claimed(m, i, p), Link(p, i))
    case Link(p, i) => 0 <= p < |m.owner| && s' == Change(s, t, Linked(m, p, i), Charge(p, i))
    case Charge(p, _) => s' == Look(Change(s, t, Charged(m, p in s.reserved), WriteUnlock(p)))
    case WriteUnlock(_) => s' == Release(s, t)
    case _ => false
  }

  /** One step of a trimmer that protects piece `q`. The scan picks some buffer that is used, not
      reserved at that moment and not the protected piece's; if there is none the loop turns. */
  ghost predicate TrimmerStep(s: State, s': State, t: Thread)
    requires t in s.threads
  {
    var m := s.pool;
    match s.threads[t]
    case CheckCounts(q) => s' == Goto(s, t, if m.used < m.limit then Idle else WaitToTrim(q))
    case WaitToTrim(q) => s.lock == Open && s' == Take(s, t, TrimHead(q))
    case TrimHead(q) =>
      if m.used < m.limit then s' == Goto(s, t, TrimUnlock(q))
      else if exists i :: CanPick(s, q, i) then exists i :: CanPick(s, q, i) && s' == Look(Goto(s, t, Clear(q, i)))
      else s' == s
    case Clear(q, i) => 0 <= i < |m.slots| && s' == Change(s, t, Cleared(m, i), CountOut(q, i, m.slots[i].pi))
    case CountOut(q, i, p) => s' == Change(s, t, m.(used := m.used - 1), Unlink(q, i, p))
    case Unlink(q, i, p) =>
      s' == Change(s, t, if 0 <= p < |m.owner| then Linked(m, p, -1) else m, TrimHead(q)).(evicted := s.evicted + [i])
    case TrimUnlock(_) => s' == Release(s, t)
    case _ => false
  }

  predicate CanPick(s: State, q: int, i: int) {
    && 0 <= i < |s.pool.slots| && s.pool.slots[i].isUsed && s.pool.slots[i].pi != -1
    && s.pool.slots[i].pi !in s.reserved && s.pool.slots[i].pi != q
  }

  ghost predicate StartStep(s: State, s': State, t: Thread)
    requires t in s.threads
  {
    s.threads[t].Idle? && exists pc :: Start(s, pc) && s' == Goto(s, t, pc)
  }

  ghost predicate ReserveStep(s: State, s': State) {
    s' == s.(reserved := s'.reserved)
  }

  ghost predicate Next(s: State, s': State) {
    || ReserveStep(s, s')
    || exists t :: t in s.threads && (StartStep(s, s', t) || WriterStep(s, s', t) || TrimmerStep(s, s', t))
  }

  // ---------------------------------------------------------------- invariant

  ghost function UsedSlots(slots: seq<Slot>): set<int> {
    set i | 0 <= i < |slots| && slots[i].isUsed
  }

  /** Pieces and buffers point at each other, a buffer is used exactly when it is assigned, and the
      used buffers are those counted and those charged to the limit, up to a fixed debt. */
  ghost predicate Consistent(m: Pool, debt: int) {
    && (forall p :: 0 <= p < |m.owner| && m.owner[p] != -1 ==>
          0 <= m.owner[p] < |m.slots| && m.slots[m.owner[p]].isUsed && m.slots[m.owner[p]].pi == p)
    && (forall i :: 0 <= i < |m.slots| ==>
          && (m.slots[i].isUsed <==> m.slots[i].pi != -1)
          && (m.slots[i].isUsed ==> 0 <= m.slots[i].pi < |m.owner| && m.owner[m.slots[i].pi] == i))
    && |UsedSlots(m.slots)| == m.used + (|m.slots| - m.limit) + debt
  }

  /** What holds of the pool while a thread is at `pc` inside the lock: in the middle of a change,
      undoing the part done so far gives a consistent pool. */
  ghost predicate Midway(m: Pool, pc: Pc, debt: int) {
    match pc
    case Recheck(p) => Consistent(m, debt) && 0 <= p < |m.owner|
    case Scan(p, i) =>
      && Consistent(m, debt) && 0 <= p < |m.owner| && m.owner[p] == -1 && 0 <= i <= |m.slots|
      && (forall j :: 0 <= j < i ==> m.slots[j].isUsed)
    case Link(p, i) =>
      && 0 <= p < |m.owner| && m.owner[p] == -1 && 0 <= i < |m.slots| && m.slots[i] == Slot(true, p)
      && Consistent(Cleared(m, i), debt)
    case Charge(p, i) =>
      && 0 <= p < |m.owner| && m.owner[p] == i && 0 <= i < |m.slots| && m.slots[i] == Slot(true, p)
      && Consistent(Linked(Cleared(m, i), p, -1), debt)
    case WriteUnlock(p) =>
      && Consistent(m, debt) && 0 <= p < |m.owner|
      && (m.owner[p] != -1 || AllUsed(m.slots))
    case Clear(q, i) => Consistent(m, debt) && 0 <= i < |m.slots| && m.slots[i].isUsed && m.slots[i].pi != q
    case CountOut(q, i, p) =>
      && 0 <= i < |m.slots| && m.slots[i] == FREE && 0 <= p < |m.owner| && m.owner[p] == i && p != q
      && Consistent(Claimed(m, i, p), debt)
    case Unlink(q, i, p) =>
      && 0 <= i < |m.slots| && m.slots[i] == FREE && 0 <= p < |m.owner| && m.owner[p] == i && p != q
      && Consistent(Claimed(m, i, p).(used := m.used + 1), debt)
    case _ => Consistent(m, debt)
  }

  ghost predicate Inv(s: State, debt: int) {
    && (forall t :: t in s.threads ==> (Critical(s.threads[t]) <==> s.lock == HeldBy(t)))
    && (forall t :: t in s.threads && (s.threads[t].CheckPiece? || s.threads[t].WaitToWrite?) ==>
          0 <= s.threads[t].p < |s.pool.owner|)
    && (match s.lock
        case Open => Consistent(s.pool, debt)
        case HeldBy(t) => t in s.threads && Midway(s.pool, s.threads[t], debt))
  }

  // ---------------------------------------------------------------- changes inside the lock

  lemma ClaimUsed(slots: seq<Slot>, i: int, p: int)
    requires 0 <= i < |slots| && !slots[i].isUsed
    ensures UsedSlots(slots[i := Slot(true, p)]) == UsedSlots(slots) + {i} && i !in UsedSlots(slots)
  {
  }

  /** A writer's steps inside the lock lead from one midway pool to the next. */
  lemma ScanKeeps(m: Pool, p: int, i: int, debt: int)
    requires Midway(m, Scan(p, i), debt) && i < |m.slots| && !m.slots[i].isUsed
    ensures Midway(Claimed(m, i, p), Link(p, i), debt)
  {
    assert m.slots[i] == FREE;
    assert Claimed(m, i, p).slots[i := FREE] == m.slots;
  }

  lemma LinkKeeps(m: Pool, p: int, i: int, debt: int)
    requires Midway(m, Link(p, i), debt)
    ensures Midway(Linked(m, p, i), Charge(p, i), debt)
  {
    assert Linked(m, p, i).owner[p := -1] == m.owner;
  }

  lemma ChargeKeeps(m: Pool, p: int, i: int, toLimit: bool, debt: int)
    requires Midway(m, Charge(p, i), debt)
    ensures Midway(Charged(m, toLimit), WriteUnlock(p), debt)
  {
    var before := Linked(Cleared(m, i), p, -1);
    ClaimUsed(before.slots, i, p);
    assert before.slots[i := Slot(true, p)] == m.slots;
    forall q | 0 <= q < |m.owner| && m.owner[q] != -1
      ensures 0 <= m.owner[q] < |m.slots| && m.slots[m.owner[q]].isUsed && m.slots[m.owner[q]].pi == q
    {
      assert q != p ==> before.owner[q] == m.owner[q];
    }
    forall j | 0 <= j < |m.slots|
      ensures m.slots[j].isUsed <==> m.slots[j].pi != -1
      ensures m.slots[j].isUsed ==> 0 <= m.slots[j].pi < |m.owner| && m.owner[m.slots[j].pi] == j
    {
      assert j != i ==> before.slots[j] == m.slots[j];
    }
  }

  /** A trimmer's steps inside the lock do the same. */
  lemma ClearKeeps(m: Pool, q: int, i: int, debt: int)
    requires Midway(m, Clear(q, i), debt)
    ensures Midway(Cleared(m, i), CountOut(q, i, m.slots[i].pi), debt)
  {
    assert m.slots[i := FREE][i := Slot(true, m.slots[i].pi)] == m.slots;
  }

  lemma UnlinkKeeps(m: Pool, q: int, i: int, p: int, debt: int)
    requires Midway(m, Unlink(q, i, p), debt)
    ensures Midway(Linked(m, p, -1), TrimHead(q), debt)
  {
    var before := Claimed(m, i, p);
    var after := Linked(m, p, -1);
    ClaimUsed(m.slots, i, p);
    forall r | 0 <= r < |after.owner| && after.owner[r] != -1
      ensures 0 <= after.owner[r] < |after.slots| && after.slots[after.owner[r]].isUsed
              && after.slots[after.owner[r]].pi == r
    {
      assert before.owner[r] != i;
    }
    forall j | 0 <= j < |after.slots|
      ensures after.slots[j].isUsed <==> after.slots[j].pi != -1
      ensures after.slots[j].isUsed ==> 0 <= after.slots[j].pi < |after.owner| && after.owner[after.slots[j].pi] == j
    {
      assert j != i ==> before.slots[j] == m.slots[j];
    }
  }

  // ---------------------------------------------------------------- steps

  /** What the invariant says of a thread, by where it is. */
  lemma InvOfThread(s: State, t: Thread, debt: int)
    requires Inv(s, debt) && t in s.threads
    ensures Critical(s.threads[t]) ==> s.lock == HeldBy(t) && Midway(s.pool, s.threads[t], debt)
    ensures s.lock == Open ==> Consistent(s.pool, debt)
    ensures s.threads[t].CheckPiece? || s.threads[t].WaitToWrite? ==> 0 <= s.threads[t].p < |s.pool.owner|
  {
  }

  /** A step of the lock holder to the next place inside the lock. */
  lemma InsideKeepsInv(s: State, m: Pool, t: Thread, pc: Pc, debt: int)
    requires Inv(s, debt) && t in s.threads && Critical(s.threads[t]) && Critical(pc)
    requires |m.owner| == |s.pool.owner| && Midway(m, pc, debt)
    ensures Inv(Change(s, t, m, pc), debt)
  {
  }

  /** A step outside the lock leaves what the lock holder relies on. */
  lemma OutsideKeepsInv(s: State, t: Thread, pc: Pc, debt: int)
    requires Inv(s, debt) && t in s.threads && !Critical(s.threads[t]) && !Critical(pc)
    requires pc.CheckPiece? || pc.WaitToWrite? ==> 0 <= pc.p < |s.pool.owner|
    ensures Inv(Goto(s, t, pc), debt)
  {
  }

  lemma TakeKeepsInv(s: State, t: Thread, pc: Pc, debt: int)
    requires Inv(s, debt) && t in s.threads && s.lock == Open && Critical(pc) && Midway(s.pool, pc, debt)
    ensures Inv(Take(s, t, pc), debt)
  {
  }

  lemma ReleaseKeepsInv(s: State, t: Thread, debt: int)
    requires Inv(s, debt) && t in s.threads && s.lock == HeldBy(t) && Consistent(s.pool, debt)
    ensures Inv(Release(s, t), debt)
  {
  }

  lemma ScanKeepsInv(s: State, s': State, t: Thread, debt: int)
    requires Inv(s, debt) && t in s.threads && s.threads[t].Scan? && WriterStep(s, s', t)
    ensures Inv(s', debt)
  {
    hide Consistent, Inv;
    var m, p, i := s.pool, s.threads[t].p, s.threads[t].i;
    InvOfThread(s, t, debt);
    if !(0 <= i < |m.slots|) {
      InsideKeepsInv(s, m, t, WriteUnlock(p), debt);
    } else if m.slots[i].isUsed {
      InsideKeepsInv(s, m, t, Scan(p, i + 1), debt);
    } else {
      ScanKeeps(m, p, i, debt);
      InsideKeepsInv(s, Claimed(m, i, p), t, Link(p, i), debt);
    }
  }

  lemma LinkKeepsInv(s: State, s': State, t: Thread, debt: int)
    requires Inv(s, debt) && t in s.threads && (s.threads[t].Link? || s.threads[t].Charge?) && WriterStep(s, s', t)
    ensures Inv(s', debt)
  {
    hide Consistent, Inv;
    var m, p, i := s.pool, s.threads[t].p, s.threads[t].i;
    InvOfThread(s, t, debt);
    if s.threads[t].Link? {
      LinkKeeps(m, p, i, debt);
      InsideKeepsInv(s, Linked(m, p, i), t, Charge(p, i), debt);
    } else {
      ChargeKeeps(m, p, i, p in s.reserved, debt);
      InsideKeepsInv(s, Charged(m, p in s.reserved), t, WriteUnlock(p), debt);
      RecordsDoNotMatter(Change(s, t, Charged(m, p in s.reserved), WriteUnlock(p)), s', debt);
    }
  }

  lemma WriterKeepsInv(s: State, s': State, t: Thread, debt: int)
    requires Inv(s, debt) && t in s.threads && WriterStep(s, s', t)
    ensures Inv(s', debt)
  {
    hide Consistent, Inv, Claimed, Linked, Charged;
    InvOfThread(s, t, debt);
    match s.threads[t]
    case CheckPiece(p) => OutsideKeepsInv(s, t, if s.pool.owner[p] != -1 then Idle else WaitToWrite(p), debt);
    case WaitToWrite(p) => TakeKeepsInv(s, t, Recheck(p), debt);
    case Recheck(p) => InsideKeepsInv(s, s.pool, t, if s.pool.owner[p] != -1 then WriteUnlock(p) else Scan(p, 0), debt);
    case WriteUnlock(_) => ReleaseKeepsInv(s, t, debt);
    case Scan(_, _) => ScanKeepsInv(s, s', t, debt);
    case _ => LinkKeepsInv(s, s', t, debt);
  }

  lemma EvictionKeepsInv(s: State, s': State, t: Thread, debt: int)
    requires Inv(s, debt) && t in s.threads && TrimmerStep(s, s', t)
    requires s.threads[t].Clear? || s.threads[t].CountOut? || s.threads[t].Unlink?
    ensures Inv(s', debt)
  {
    hide Consistent, Inv;
    var m := s.pool;
    InvOfThread(s, t, debt);
    match s.threads[t]
    case Clear(q, i) =>
      ClearKeeps(m, q, i, debt);
      InsideKeepsInv(s, Cleared(m, i), t, CountOut(q, i, m.slots[i].pi), debt);
    case CountOut(q, i, p) => InsideKeepsInv(s, m.(used := m.used - 1), t, Unlink(q, i, p), debt);
    case Unlink(q, i, p) =>
      UnlinkKeeps(m, q, i, p, debt);
      InsideKeepsInv(s, Linked(m, p, -1), t, TrimHead(q), debt);
      RecordsDoNotMatter(Change(s, t, Linked(m, p, -1), TrimHead(q)), s', debt);
  }

  lemma TrimmerKeepsInv(s: State, s': State, t: Thread, debt: int)
    requires Inv(s, debt) && t in s.threads && TrimmerStep(s, s', t)
    ensures Inv(s', debt)
  {
    hide Consistent, Inv, Cleared, Linked;
    var m := s.pool;
    InvOfThread(s, t, debt);
    match s.threads[t]
    case CheckCounts(q) => OutsideKeepsInv(s, t, if m.used < m.limit then Idle else WaitToTrim(q), debt);
    case WaitToTrim(q) => TakeKeepsInv(s, t, TrimHead(q), debt);
    case TrimHead(q) =>
      if m.used < m.limit {
        InsideKeepsInv(s, m, t, TrimUnlock(q), debt);
      } else if s' != s {
        var i :| CanPick(s, q, i) && s' == Look(Goto(s, t, Clear(q, i)));
        InsideKeepsInv(s, m, t, Clear(q, i), debt);
        RecordsDoNotMatter(Goto(s, t, Clear(q, i)), s', debt);
      }
    case TrimUnlock(_) => ReleaseKeepsInv(s, t, debt);
    case _ => EvictionKeepsInv(s, s', t, debt);
  }

  lemma RecordsDoNotMatter(s: State, s': State, debt: int)
    requires Inv(s, debt) && s' == s.(evicted := s'.evicted, seen := s'.seen)
    ensures Inv(s', debt)
  {
  }

  /** Every step of every thread keeps the invariant. */
  lemma NextKeepsInv(s: State, s': State, debt: int)
    requires Inv(s, debt) && Next(s, s')
    ensures Inv(s', debt)
  {
    hide Consistent, WriterStep, TrimmerStep;
    if !ReserveStep(s, s') {
      var t :| t in s.threads && (StartStep(s, s', t) || WriterStep(s, s', t) || TrimmerStep(s, s', t));
      if WriterStep(s, s', t) {
        WriterKeepsInv(s, s', t, debt);
      } else if TrimmerStep(s, s', t) {
        TrimmerKeepsInv(s, s', t, debt);
      }
    }
  }

  // ---------------------------------------------------------------- runs

  /** All threads idle, the lock open and the pool consistent. */
  ghost predicate Init(s: State, debt: int) {
    s.lock == Open && (forall t :: t in s.threads ==> s.threads[t].Idle?) && Consistent(s.pool, debt)
  }

  ghost predicate IsRun(run: seq<State>, debt: int) {
    && 0 < |run| && Init(run[0], debt)
    && forall i :: 0 <= i < |run| - 1 ==> Next(run[i], run[i + 1])
  }

  lemma {:induction false} RunKeepsInv(run: seq<State>, debt: int, n: nat)
    requires IsRun(run, debt) && n < |run|
    ensures Inv(run[n], debt)
  {
    hide Consistent, Midway, Next;
    if n > 0 {
      RunKeepsInv(run, debt, n - 1);
      assert Next(run[n - 1], run[n - 1 + 1]);
      NextKeepsInv(run[n - 1], run[n], debt);
    }
  }

  /** No buffer serves two pieces, no piece owns two buffers, and the counts add up. */
  ghost predicate Exclusive(m: Pool, debt: int) {
    && (forall p, q :: 0 <= p < q < |m.owner| && m.owner[p] != -1 ==> m.owner[p] != m.owner[q])
    && (forall i, j :: 0 <= i < j < |m.slots| && m.slots[i].isUsed && m.slots[j].isUsed ==>
        m.slots[i].pi != m.slots[j].pi)
    && (forall p, i :: 0 <= p < |m.owner| && 0 <= i < |m.slots| ==>
          (m.owner[p] == i <==> m.slots[i].isUsed && m.slots[i].pi == p))
    && |UsedSlots(m.slots)| == m.used + (|m.slots| - m.limit) + debt
  }

  /** Over every interleaving of any number of writers and trimmers: whenever the lock is free,
      allocation is exclusive and the slot accounting holds. */
  lemma LockFreeIsExclusive(run: seq<State>, debt: int, n: nat)
    requires IsRun(run, debt) && n < |run| && run[n].lock == Open
    ensures Exclusive(run[n].pool, debt)
  {
    RunKeepsInv(run, debt, n);
  }

  /** At most one thread is inside the lock. */
  lemma MutualExclusion(run: seq<State>, debt: int, n: nat, t: Thread, u: Thread)
    requires IsRun(run, debt) && n < |run| && t in run[n].threads && u in run[n].threads
    requires Critical(run[n].threads[t]) && Critical(run[n].threads[u])
    ensures t == u
  {
    RunKeepsInv(run, debt, n);
  }

  /** A writer that is about to unlock has its buffer, or no buffer is free. */
  lemma WriterServedOrFull(run: seq<State>, debt: int, n: nat, t: Thread)
    requires IsRun(run, debt) && n < |run| && t in run[n].threads && run[n].threads[t].WriteUnlock?
    ensures var m, p := run[n].pool, run[n].threads[t].p;
            0 <= p < |m.owner| && (m.owner[p] != -1 || AllUsed(m.slots))
  {
    RunKeepsInv(run, debt, n);
  }

  /** A trimmer never clears the piece it protects. */
  lemma TrimmerSparesProtected(run: seq<State>, debt: int, n: nat, t: Thread)
    requires IsRun(run, debt) && n < |run| && t in run[n].threads && run[n].threads[t].Clear?
    ensures var m, pc := run[n].pool, run[n].threads[t];
            0 <= pc.i < |m.slots| && m.slots[pc.i].isUsed && m.slots[pc.i].pi != pc.q
  {
    RunKeepsInv(run, debt, n);
  }

  // ---------------------------------------------------------------- critical sections are atomic

  predicate IsFirstFree(slots: seq<Slot>, i: int) {
    0 <= i < |slots| && !slots[i].isUsed && forall j :: 0 <= j < i ==> slots[j].isUsed
  }

  /** A whole allocation in one step: a piece without a buffer gets the first free one, if any. */
  ghost predicate AllocatesAtOnce(m: Pool, p: int, toLimit: bool, m': Pool)
    requires 0 <= p < |m.owner|
  {
    if m.owner[p] != -1 || AllUsed(m.slots) then m' == m
    else exists i :: IsFirstFree(m.slots, i) && m' == Charged(Linked(Claimed(m, i, p), p, i), toLimit)
  }

  /** A whole eviction in one step. */
  function EvictAtOnce(m: Pool, i: int): Pool {
    if !(0 <= i < |m.slots|) then m
    else
      var p := m.slots[i].pi;
      var m1 := Cleared(m, i).(used := m.used - 1);
      if 0 <= p < |m1.owner| then Linked(m1, p, -1) else m1
  }

  function EvictAll(m: Pool, indices: seq<int>): Pool {
    if indices == [] then m else EvictAtOnce(EvictAll(m, indices[..|indices| - 1]), indices[|indices| - 1])
  }

  /** A buffer that served a piece neither protected nor in the reserved set. */
  predicate MayGo(m: Pool, q: int, i: int, reserved: set<int>) {
    0 <= i < |m.slots| && m.slots[i].isUsed && m.slots[i].pi != q && m.slots[i].pi !in reserved
  }

  /** `m` is `entry` with distinct buffers evicted, each allowed to go by the reserved set seen when
      it was picked; each took one off the use count, and none was taken below the limit. */
  ghost predicate EvictedRight(entry: Pool, m: Pool, evicted: seq<int>, seen: seq<set<int>>, q: int) {
    && m == EvictAll(entry, evicted) && |m.slots| == |entry.slots| && |seen| == |evicted|
    && (forall j :: 0 <= j < |entry.slots| ==> m.slots[j] == if j in evicted then FREE else entry.slots[j])
    && (forall k :: 0 <= k < |evicted| ==> MayGo(entry, q, evicted[k], seen[k]))
    && (forall j, k :: 0 <= j < k < |evicted| ==> evicted[j] != evicted[k])
    && m.limit == entry.limit && m.used == entry.used - |evicted| && (evicted != [] ==> m.used + 1 >= m.limit)
  }

  /** Buffer `i` has been picked and is not evicted yet. */
  ghost predicate Picked(entry: Pool, e: Pool, evicted: seq<int>, seen: seq<set<int>>, q: int, i: int) {
    && 0 < |seen| && EvictedRight(entry, e, evicted, seen[..|seen| - 1], q) && e.used >= e.limit
    && MayGo(e, q, i, seen[|seen| - 1])
  }

  /** How far the lock holder's change has come since it took the lock. */
  ghost predicate Since(m: Pool, entry: Pool, evicted: seq<int>, seen: seq<set<int>>, pc: Pc) {
    match pc
    case Recheck(p) => m == entry && seen == []
    case Scan(p, i) => m == entry && seen == []
    case Link(p, i) =>
      && 0 <= p < |entry.owner| && entry.owner[p] == -1 && IsFirstFree(entry.slots, i) && seen == []
      && m == Claimed(entry, i, p)
    case Charge(p, i) =>
      && 0 <= p < |entry.owner| && entry.owner[p] == -1 && IsFirstFree(entry.slots, i) && seen == []
      && m == Linked(Claimed(entry, i, p), p, i)
    case WriteUnlock(p) =>
      && 0 <= p < |entry.owner| && |seen| <= 1 && (m != entry ==> |seen| == 1)
      && AllocatesAtOnce(entry, p, |seen| == 1 && p in seen[0], m)
    case TrimHead(q) => EvictedRight(entry, m, evicted, seen, q)
    case Clear(q, i) => Picked(entry, m, evicted, seen, q, i)
    case CountOut(q, i, p) =>
      var e := EvictAll(entry, evicted);
      Picked(entry, e, evicted, seen, q, i) && p == e.slots[i].pi && m == Cleared(e, i)
    case Unlink(q, i, p) =>
      var e := EvictAll(entry, evicted);
      Picked(entry, e, evicted, seen, q, i) && p == e.slots[i].pi && m == Cleared(e, i).(used := e.used - 1)
    case TrimUnlock(q) => EvictedRight(entry, m, evicted, seen, q) && m.used < m.limit
    case _ => true
  }

  ghost predicate InvSince(s: State) {
    match s.lock
    case Open => true
    case HeldBy(t) => t in s.threads && Since(s.pool, s.entry, s.evicted, s.seen, s.threads[t])
  }

  lemma EvictAllNext(m: Pool, indices: seq<int>, i: int)
    ensures EvictAll(m, indices + [i]) == EvictAtOnce(EvictAll(m, indices), i)
  {
    assert (indices + [i])[..|indices|] == indices;
  }

  /** One more eviction. */
  lemma EvictedNext(entry: Pool, e: Pool, evicted: seq<int>, seen: seq<set<int>>, q: int, i: int)
    requires Picked(entry, e, evicted, seen, q, i)
    ensures EvictedRight(entry, EvictAtOnce(e, i), evicted + [i], seen, q)
  {
    hide EvictAll;
    EvictAllNext(entry, evicted, i);
    assert i !in evicted;
  }

  lemma ChargedOnce(m: Pool, p: int, i: int, toLimit: bool)
    requires 0 <= p < |m.owner| && m.owner[p] == -1 && IsFirstFree(m.slots, i)
    ensures AllocatesAtOnce(m, p, toLimit, Charged(Linked(Claimed(m, i, p), p, i), toLimit))
  {
  }

  lemma WriterKeepsSince(s: State, s': State, t: Thread, debt: int)
    requires Inv(s, debt) && InvSince(s) && t in s.threads && WriterStep(s, s', t)
    ensures InvSince(s')
  {
    hide Consistent, EvictedRight, AllocatesAtOnce, IsFirstFree;
    match s.threads[t]
    case Recheck(p) => AllocatesNone(s.entry, p);
    case Scan(p, i) => ScanEnds(s.entry, p, i);
    case Charge(p, i) => ChargedOnce(s.entry, p, i, p in s.reserved);
    case _ =>
  }

  lemma AllocatesNone(m: Pool, p: int)
    ensures 0 <= p < |m.owner| && m.owner[p] != -1 ==> AllocatesAtOnce(m, p, false, m)
  {
  }

  lemma ScanEnds(m: Pool, p: int, i: int)
    requires 0 <= p < |m.owner| && 0 <= i <= |m.slots| && forall j :: 0 <= j < i ==> m.slots[j].isUsed
    ensures i == |m.slots| ==> AllocatesAtOnce(m, p, false, m)
    ensures i < |m.slots| && !m.slots[i].isUsed ==> IsFirstFree(m.slots, i)
  {
  }

  lemma TrimmerKeepsSince(s: State, s': State, t: Thread, debt: int)
    requires Inv(s, debt) && InvSince(s) && t in s.threads && TrimmerStep(s, s', t)
    ensures InvSince(s')
  {
    hide Consistent, EvictAll, EvictedRight, AllocatesAtOnce, IsFirstFree;
    match s.threads[t]
    case WaitToTrim(q) => NoneEvicted(s.pool, q);
    case TrimHead(q) => LookKeeps(s.entry, s.pool, s.evicted, s.seen, s.reserved, q);
    case Clear(q, i) => EvictedIs(s.entry, s.pool, s.evicted, s.seen, q, i);
    case Unlink(q, i, p) => EvictedNext(s.entry, EvictAll(s.entry, s.evicted), s.evicted, s.seen, q, i);
    case _ =>
  }

  lemma LookKeeps(entry: Pool, m: Pool, evicted: seq<int>, seen: seq<set<int>>, reserved: set<int>, q: int)
    requires EvictedRight(entry, m, evicted, seen, q)
    ensures forall i :: MayGo(m, q, i, reserved) && m.used >= m.limit ==>
            Picked(entry, m, evicted, seen + [reserved], q, i)
  {
    assert (seen + [reserved])[..|seen|] == seen;
  }

  lemma EvictedIs(entry: Pool, m: Pool, evicted: seq<int>, seen: seq<set<int>>, q: int, i: int)
    requires Picked(entry, m, evicted, seen, q, i)
    ensures m == EvictAll(entry, evicted)
  {
  }

  lemma NoneEvicted(m: Pool, q: int)
    ensures EvictedRight(m, m, [], [], q)
  {
  }

  lemma NextKeepsSince(s: State, s': State, debt: int)
    requires Inv(s, debt) && InvSince(s) && Next(s, s')
    ensures InvSince(s')
  {
    hide Consistent, Midway, WriterStep, TrimmerStep, Since;
    if !ReserveStep(s, s') {
      var t :| t in s.threads && (StartStep(s, s', t) || WriterStep(s, s', t) || TrimmerStep(s, s', t));
      if WriterStep(s, s', t) {
        WriterKeepsSince(s, s', t, debt);
      } else if TrimmerStep(s, s', t) {
        TrimmerKeepsSince(s, s', t, debt);
      }
    }
  }

  lemma {:induction false} RunKeepsSince(run: seq<State>, debt: int, n: nat)
    requires IsRun(run, debt) && n < |run|
    ensures InvSince(run[n])
  {
    hide Consistent, Midway, Next, Since;
    if n > 0 {
      RunKeepsSince(run, debt, n - 1);
      RunKeepsInv(run, debt, n - 1);
      assert Next(run[n - 1], run[n - 1 + 1]);
      NextKeepsSince(run[n - 1], run[n], debt);
    }
  }

  /** Over every interleaving, what a writer leaves when it unlocks is what one atomic allocation
      makes of the pool it found when it locked, charged to the limit exactly if its piece was
      reserved when it looked. */
  lemma WritersAreAtomic(run: seq<State>, debt: int, n: nat, t: Thread)
    requires IsRun(run, debt) && n < |run| && t in run[n].threads && run[n].threads[t].WriteUnlock?
    ensures var s := run[n]; var p := s.threads[t].p;
            && 0 <= p < |s.entry.owner| && (s.pool != s.entry ==> |s.seen| == 1)
            && AllocatesAtOnce(s.entry, p, |s.seen| == 1 && p in s.seen[0], s.pool)
  {
    RunKeepsInv(run, debt, n);
    RunKeepsSince(run, debt, n);
  }

  /** And what a trimmer leaves is the pool it found with some buffers freed: exactly as many as
      bring the use count below the limit, all different, each in use, none serving the protected
      piece or a piece that was reserved when it was picked. */
  lemma TrimmersAreAtomic(run: seq<State>, debt: int, n: nat, t: Thread)
    requires IsRun(run, debt) && n < |run| && t in run[n].threads && run[n].threads[t].TrimUnlock?
    ensures var s := run[n]; var entry, evicted := s.entry, s.evicted;
            && s.pool == EvictAll(entry, evicted) && s.pool.used < s.pool.limit
            && |evicted| == (if entry.used < entry.limit then 0 else entry.used - entry.limit + 1)
            && |s.seen| == |evicted| && |s.pool.slots| == |entry.slots|
            && (forall j :: 0 <= j < |entry.slots| ==> s.pool.slots[j] == if j in evicted then FREE else entry.slots[j])
            && (forall k :: 0 <= k < |evicted| ==> MayGo(entry, s.threads[t].q, evicted[k], s.seen[k]))
            && (forall j, k :: 0 <= j < k < |evicted| ==> evicted[j] != evicted[k])
  {
    RunKeepsInv(run, debt, n);
    RunKeepsSince(run, debt, n);
  }

  // ---------------------------------------------------------------- what a call has achieved

  /** The thread is in a writer's call for piece `p`. */
  predicate WritesFor(pc: Pc, p: int) {
    && (pc.CheckPiece? || pc.WaitToWrite? || pc.Recheck? || pc.Scan? || pc.Link? || pc.Charge? || pc.WriteUnlock?)
    && pc.p == p
  }

  /** The thread is in a trimmer's call that protects piece `q`. */
  predicate TrimsFor(pc: Pc, q: int) {
    && (pc.CheckCounts? || pc.WaitToTrim? || pc.TrimHead? || pc.Clear? || pc.CountOut? || pc.Unlink? || pc.TrimUnlock?)
    && pc.q == q
  }

  /** A step of one thread leaves the others where they are. */
  lemma OthersStay(s: State, s': State, t: Thread, u: Thread)
    requires t in s.threads && u in s.threads && t != u
    requires StartStep(s, s', u) || WriterStep(s, s', u) || TrimmerStep(s, s', u)
    ensures t in s'.threads && s'.threads[t] == s.threads[t]
  {
  }

  lemma WriterStays(s: State, s': State, t: Thread, p: int, debt: int)
    requires Inv(s, debt) && Next(s, s') && t in s.threads && WritesFor(s.threads[t], p)
    ensures t in s'.threads
    ensures || WritesFor(s'.threads[t], p)
            || (s'.threads[t].Idle? && 0 <= p < |s'.pool.owner| && (s'.pool.owner[p] != -1 || AllUsed(s'.pool.slots)))
  {
    hide Consistent;
    if !ReserveStep(s, s') {
      var u :| u in s.threads && (StartStep(s, s', u) || WriterStep(s, s', u) || TrimmerStep(s, s', u));
      if u != t {
        OthersStay(s, s', t, u);
      } else {
        InvOfThread(s, t, debt);
      }
    }
  }

  lemma TrimmerStays(s: State, s': State, t: Thread, q: int, debt: int)
    requires Inv(s, debt) && InvSince(s) && Next(s, s') && t in s.threads && TrimsFor(s.threads[t], q)
    ensures t in s'.threads
    ensures TrimsFor(s'.threads[t], q) || (s'.threads[t].Idle? && s'.pool.used < s'.pool.limit)
  {
    hide Consistent, EvictAll;
    if !ReserveStep(s, s') {
      var u :| u in s.threads && (StartStep(s, s', u) || WriterStep(s, s', u) || TrimmerStep(s, s', u));
      if u != t {
        OthersStay(s, s', t, u);
      } else {
        InvOfThread(s, t, debt);
      }
    }
  }

  /** The thread is busy from state `a` to before state `b`. */
  ghost predicate Busy(run: seq<State>, t: Thread, a: nat, b: nat) {
    a <= b < |run| && forall i :: a <= i < b ==> t in run[i].threads && !run[i].threads[t].Idle?
  }

  lemma {:induction false} StillWriting(run: seq<State>, debt: int, t: Thread, p: int, a: nat, n: nat)
    requires IsRun(run, debt) && a <= n && Busy(run, t, a, n + 1) && WritesFor(run[a].threads[t], p)
    ensures WritesFor(run[n].threads[t], p)
  {
    hide Inv, Next, WritesFor;
    if a < n {
      StillWriting(run, debt, t, p, a, n - 1);
      RunKeepsInv(run, debt, n - 1);
      assert Next(run[n - 1], run[n - 1 + 1]);
      WriterStays(run[n - 1], run[n], t, p, debt);
    }
  }

  lemma {:induction false} StillTrimming(run: seq<State>, debt: int, t: Thread, q: int, a: nat, n: nat)
    requires IsRun(run, debt) && a <= n && Busy(run, t, a, n + 1) && TrimsFor(run[a].threads[t], q)
    ensures TrimsFor(run[n].threads[t], q)
  {
    hide Inv, InvSince, Next, TrimsFor;
    if a < n {
      StillTrimming(run, debt, t, q, a, n - 1);
      RunKeepsInv(run, debt, n - 1);
      RunKeepsSince(run, debt, n - 1);
      assert Next(run[n - 1], run[n - 1 + 1]);
      TrimmerStays(run[n - 1], run[n], t, q, debt);
    }
  }

  /** Over every interleaving, when a writer's call returns, with or without having taken the lock,
      its piece has a buffer at that moment or no buffer is free. */
  lemma WriterReturns(run: seq<State>, debt: int, t: Thread, p: int, a: nat, b: nat)
    requires IsRun(run, debt) && a < b && Busy(run, t, a, b) && run[a].threads[t] == CheckPiece(p)
    requires t in run[b].threads && run[b].threads[t].Idle?
    ensures var m := run[b].pool; 0 <= p < |m.owner| && (m.owner[p] != -1 || AllUsed(m.slots))
  {
    hide Inv, Next;
    StillWriting(run, debt, t, p, a, b - 1);
    RunKeepsInv(run, debt, b - 1);
    assert Next(run[b - 1], run[b - 1 + 1]);
    WriterStays(run[b - 1], run[b], t, p, debt);
  }

  /** And when a trimmer's call returns, the use count is below the limit at that moment. */
  lemma TrimmerReturns(run: seq<State>, debt: int, t: Thread, q: int, a: nat, b: nat)
    requires IsRun(run, debt) && a < b && Busy(run, t, a, b) && run[a].threads[t] == CheckCounts(q)
    requires t in run[b].threads && run[b].threads[t].Idle?
    ensures run[b].pool.used < run[b].pool.limit
  {
    hide Inv, InvSince, Next;
    StillTrimming(run, debt, t, q, a, b - 1);
    RunKeepsInv(run, debt, b - 1);
    RunKeepsSince(run, debt, b - 1);
    assert Next(run[b - 1], run[b - 1 + 1]);
    TrimmerStays(run[b - 1], run[b], t, q, debt);
  }

  // ---------------------------------------------------------------- a thread alone

  /** Steps that one thread takes while all others rest. */
  ghost predicate Alone(path: seq<State>, t: Thread) {
    && 0 < |path|
    && forall i :: 0 <= i < |path| - 1 ==>
         t in path[i].threads && (StartStep(path[i], path[i + 1], t) || WriterStep(path[i], path[i + 1], t)
                                  || TrimmerStep(path[i], path[i + 1], t))
  }

  lemma StepFirst(s: State, path: seq<State>, t: Thread)
    requires Alone(path, t) && t in s.threads
    requires StartStep(s, path[0], t) || WriterStep(s, path[0], t) || TrimmerStep(s, path[0], t)
    ensures Alone([s] + path, t)
  {
    hide StartStep, WriterStep, TrimmerStep;
    var all := [s] + path;
    forall i | 0 <= i < |all| - 1
      ensures t in all[i].threads
      ensures || StartStep(all[i], all[i + 1], t) || WriterStep(all[i], all[i + 1], t)
              || TrimmerStep(all[i], all[i + 1], t)
    {
      if i > 0 {
        assert all[i] == path[i - 1] && all[i + 1] == path[i - 1 + 1];
      }
    }
  }

  /** Where a path ends: the thread is idle and the lock open. */
  predicate Done(path: seq<State>, t: Thread) {
    && 0 < |path|
    && var s := path[|path| - 1]; t in s.threads && s.threads[t].Idle? && s.lock == Open
  }

  lemma {:induction false} ScanAlone(s: State, t: Thread, p: int, i: nat) returns (path: seq<State>)
    requires t in s.threads && s.threads[t] == Scan(p, i) && s.lock == HeldBy(t) && 0 <= p < |s.pool.owner|
    requires s.pool.owner[p] == -1 && i <= |s.pool.slots| && forall j :: 0 <= j < i ==> s.pool.slots[j].isUsed
    ensures Alone(path, t) && path[0] == s && Done(path, t)
    ensures AllocatesAtOnce(s.pool, p, p in s.reserved, path[|path| - 1].pool)
    decreases |s.pool.slots| - i
  {
    hide AllocatesAtOnce;
    var m := s.pool;
    if i == |m.slots| {
      var s1 := Goto(s, t, WriteUnlock(p));
      path := [s, s1, Release(s1, t)];
      ScanEnds(m, p, i);
      NoneLeft(m, p, p in s.reserved);
    } else if m.slots[i].isUsed {
      path := ScanAlone(Goto(s, t, Scan(p, i + 1)), t, p, i + 1);
      StepFirst(s, path, t);
      path := [s] + path;
    } else {
      var s1 := Change(s, t, Claimed(m, i, p), Link(p, i));
      var s2 := Change(s1, t, Linked(s1.pool, p, i), Charge(p, i));
      var s3 := Look(Change(s2, t, Charged(s2.pool, p in s.reserved), WriteUnlock(p)));
      path := [s, s1, s2, s3, Release(s3, t)];
      ScanEnds(m, p, i);
      ChargedOnce(m, p, i, p in s.reserved);
    }
  }

  lemma NoneLeft(m: Pool, p: int, toLimit: bool)
    requires 0 <= p < |m.owner| && AllUsed(m.slots)
    ensures AllocatesAtOnce(m, p, toLimit, m)
  {
  }

  /** A writer that is left alone gets through its call, and makes the one allocation that is due. */
  lemma WriterAlone(s: State, t: Thread, p: int) returns (path: seq<State>)
    requires t in s.threads && s.threads[t].Idle? && s.lock == Open && 0 <= p < |s.pool.owner|
    ensures Alone(path, t) && path[0] == s && Done(path, t)
    ensures AllocatesAtOnce(s.pool, p, p in s.reserved, path[|path| - 1].pool)
  {
    hide AllocatesAtOnce;
    var s1 := Goto(s, t, CheckPiece(p));
    assert Start(s, CheckPiece(p));
    if s.pool.owner[p] != -1 {
      path := [s, s1, Goto(s1, t, Idle)];
      HasOne(s.pool, p, p in s.reserved);
    } else {
      var s2 := Goto(s1, t, WaitToWrite(p));
      var s3 := Take(s2, t, Recheck(p));
      var s4 := Goto(s3, t, Scan(p, 0));
      path := ScanAlone(s4, t, p, 0);
      StepFirst(s3, path, t);
      StepFirst(s2, [s3] + path, t);
      StepFirst(s1, [s2] + ([s3] + path), t);
      StepFirst(s, [s1] + ([s2] + ([s3] + path)), t);
      path := [s] + ([s1] + ([s2] + ([s3] + path)));
    }
  }

  lemma HasOne(m: Pool, p: int, toLimit: bool)
    requires 0 <= p < |m.owner| && m.owner[p] != -1
    ensures AllocatesAtOnce(m, p, toLimit, m)
  {
  }

  /** The buffers that a trimmer may pick. */
  ghost function Pickable(s: State, q: int): set<int> {
    set i | 0 <= i < |s.pool.slots| && CanPick(s, q, i)
  }

  /** A trimmer whose use count has not come below the limit turns without doing anything if and
      only if no buffer serves a piece that is neither protected nor reserved. */
  lemma TrimmerTurnsIff(s: State, s': State, t: Thread, q: int, debt: int)
    requires Inv(s, debt) && t in s.threads && s.threads[t] == TrimHead(q) && TrimmerStep(s, s', t)
    requires s.pool.used >= s.pool.limit
    ensures s' == s <==> forall i :: !MayGo(s.pool, q, i, s.reserved)
  {
    InvOfThread(s, t, debt);
    if i :| MayGo(s.pool, q, i, s.reserved) {
      assert CanPick(s, q, i);
    }
    if i :| CanPick(s, q, i) {
      assert MayGo(s.pool, q, i, s.reserved);
    }
    assert s' != s ==> s'.seen != s.seen;
  }

  /** The state after buffer `i` was picked and evicted. */
  function AfterEviction(s: State, t: Thread, q: int, i: int): State
    requires 0 <= i < |s.pool.slots|
  {
    var p := s.pool.slots[i].pi;
    var s1 := Look(Goto(s, t, Clear(q, i)));
    var s2 := Change(s1, t, Cleared(s.pool, i), CountOut(q, i, p));
    var s3 := Change(s2, t, s2.pool.(used := s.pool.used - 1), Unlink(q, i, p));
    Change(s3, t, if 0 <= p < |s.pool.owner| then Linked(s3.pool, p, -1) else s3.pool, TrimHead(q))
      .(evicted := s.evicted + [i])
  }

  lemma EvictAlone(s: State, t: Thread, q: int, i: int, path: seq<State>)
    requires t in s.threads && s.threads[t] == TrimHead(q) && CanPick(s, q, i) && s.pool.used >= s.pool.limit
    requires Alone(path, t) && path[0] == AfterEviction(s, t, q, i)
    ensures var p := s.pool.slots[i].pi;
            var s1 := Look(Goto(s, t, Clear(q, i)));
            var s2 := Change(s1, t, Cleared(s.pool, i), CountOut(q, i, p));
            var s3 := Change(s2, t, s2.pool.(used := s.pool.used - 1), Unlink(q, i, p));
            Alone([s] + ([s1] + ([s2] + ([s3] + path))), t)
  {
    hide Alone;
    var p := s.pool.slots[i].pi;
    var s1 := Look(Goto(s, t, Clear(q, i)));
    var s2 := Change(s1, t, Cleared(s.pool, i), CountOut(q, i, p));
    var s3 := Change(s2, t, s2.pool.(used := s.pool.used - 1), Unlink(q, i, p));
    StepFirst(s3, path, t);
    StepFirst(s2, [s3] + path, t);
    StepFirst(s1, [s2] + ([s3] + path), t);
    StepFirst(s, [s1] + ([s2] + ([s3] + path)), t);
  }

  lemma EvictionTakesOne(s: State, t: Thread, q: int, i: int)
    requires i in Pickable(s, q)
    ensures Pickable(AfterEviction(s, t, q, i), q) == Pickable(s, q) - {i}
  {
  }

  lemma {:induction false} TrimAlone(s: State, t: Thread, q: int) returns (path: seq<State>)
    requires t in s.threads && s.threads[t] == TrimHead(q) && s.lock == HeldBy(t)
    requires s.pool.used - s.pool.limit + 1 <= |Pickable(s, q)|
    ensures Alone(path, t) && path[0] == s && Done(path, t)
    ensures path[|path| - 1].pool.used < path[|path| - 1].pool.limit
    decreases |Pickable(s, q)|
  {
    if s.pool.used < s.pool.limit {
      var s1 := Goto(s, t, TrimUnlock(q));
      path := [s, s1, Release(s1, t)];
    } else {
      var i := InDifference(Pickable(s, q), {});
      EvictionTakesOne(s, t, q, i);
      var rest := TrimAlone(AfterEviction(s, t, q, i), t, q);
      EvictAlone(s, t, q, i, rest);
      var p := s.pool.slots[i].pi;
      var s1 := Look(Goto(s, t, Clear(q, i)));
      var s2 := Change(s1, t, Cleared(s.pool, i), CountOut(q, i, p));
      var s3 := Change(s2, t, s2.pool.(used := s.pool.used - 1), Unlink(q, i, p));
      path := [s] + ([s1] + ([s2] + ([s3] + rest)));
      assert path[|path| - 1] == rest[|rest| - 1];
    }
  }

  /** A trimmer that is left alone, with enough buffers to pick from, gets through its call. */
  lemma TrimmerAlone(s: State, t: Thread, q: int) returns (path: seq<State>)
    requires t in s.threads && s.threads[t].Idle? && s.lock == Open
    requires s.pool.used - s.pool.limit + 1 <= |Pickable(s, q)|
    ensures Alone(path, t) && path[0] == s && Done(path, t)
    ensures path[|path| - 1].pool.used < path[|path| - 1].pool.limit
  {
    var s1 := Goto(s, t, CheckCounts(q));
    assert Start(s, CheckCounts(q));
    if s.pool.used < s.pool.limit {
      path := [s, s1, Goto(s1, t, Idle)];
    } else {
      var s2 := Goto(s1, t, WaitToTrim(q));
      var s3 := Take(s2, t, TrimHead(q));
      assert Pickable(s3, q) == Pickable(s, q);
      var rest := TrimAlone(s3, t, q);
      StepFirst(s2, rest, t);
      StepFirst(s1, [s2] + rest, t);
      StepFirst(s, [s1] + ([s2] + rest), t);
      path := [s] + ([s1] + ([s2] + rest));
    }
  }
}
