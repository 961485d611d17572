/** The in-memory piece store of src/bittorrent/memory_storage.cpp as a value: its fields, the
    invariant of every reachable state and what each operation does to a state.

    Time is a strictly increasing clock: every reading of the system clock takes the next value.
    libtorrent's piece picker is kept as two fields, the priority of every piece and the set of
    pieces the client has. */
module StoreModel {
  import opened Arithmetic

  newtype Byte = b: int | 0 <= b < 256

  /** One torrent piece; `bi` is its buffer, or -1. */
  datatype Piece = Piece(index: int, length: int, size: int, bi: int) {
    predicate IsBuffered() { bi != -1 }

    function Reset(): Piece { this.(bi := -1, size := 0) }
  }

  /** One buffer of the pool; `pi` is the piece it serves, or -1. */
  datatype Buffer = Buffer(index: int, data: seq<Byte>, pi: int, isUsed: bool, accessed: int) {
    predicate IsAssigned() { pi != -1 }

    function Reset(now: int): Buffer { Buffer(index, Zeros(|data|), -1, false, now) }
  }

  datatype Store = Store(
    pieceLength: int,
    capacity: int,
    pieces: seq<Piece>,
    buffers: seq<Buffer>,
    bufferSize: int,
    bufferLimit: int,
    bufferUsed: int,
    reserved: set<int>,
    isInitialized: bool,
    isHandled: bool,
    priority: seq<int>,
    have: set<int>,
    clock: int)

  function Zeros(n: nat): (r: seq<Byte>)
    ensures |r| == n
  {
    seq(n, _ => 0)
  }

  /** Number of buffers for a memory size: enough to hold it, at most one per piece. */
  function PoolSize(capacity: int, pieceLength: int, pieceCount: nat): int
    requires pieceLength > 0
  {
    Min(CeilDiv(capacity, pieceLength), pieceCount)
  }

  // ---------------------------------------------------------------- invariant

  predicate Shape(s: Store) {
    && s.pieceLength > 0 && s.clock > 0 && 0 <= s.bufferSize
    && s.bufferSize == PoolSize(s.capacity, s.pieceLength, |s.pieces|)
    && |s.buffers| == (if s.isInitialized then s.bufferSize else 0)
    && |s.priority| == |s.pieces|
  }

  predicate PiecesLinked(s: Store) {
    forall p :: 0 <= p < |s.pieces| ==>
      && s.pieces[p].index == p && 0 <= s.pieces[p].length <= s.pieceLength
      && -1 <= s.pieces[p].bi < |s.buffers|
      && (s.pieces[p].IsBuffered() ==> s.buffers[s.pieces[p].bi].isUsed && s.buffers[s.pieces[p].bi].pi == p)
  }

  predicate BuffersLinked(s: Store)
    requires s.pieceLength > 0
  {
    forall i :: 0 <= i < |s.buffers| ==>
      && s.buffers[i].index == i && |s.buffers[i].data| == s.pieceLength
      && -1 <= s.buffers[i].pi < |s.pieces| && (s.buffers[i].isUsed <==> s.buffers[i].IsAssigned())
      && (s.buffers[i].isUsed ==> s.pieces[s.buffers[i].pi].bi == i)
      && (!s.buffers[i].isUsed ==> s.buffers[i].data == Zeros(s.pieceLength))
  }

  /** Access times are in the past, and no two used buffers share one. */
  predicate TimesOrdered(s: Store) {
    && (forall i :: 0 <= i < |s.buffers| ==> s.buffers[i].accessed < s.clock)
    && (forall i, j :: 0 <= i < j < |s.buffers| && s.buffers[i].isUsed && s.buffers[j].isUsed ==>
          s.buffers[i].accessed != s.buffers[j].accessed)
  }

  predicate Inv(s: Store) {
    Shape(s) && PiecesLinked(s) && BuffersLinked(s) && TimesOrdered(s)
  }

  predicate IsPiece(s: Store, p: int) { 0 <= p < |s.pieces| }

  predicate Resident(s: Store, p: int) {
    IsPiece(s, p) && s.pieces[p].IsBuffered()
  }

  /** What the store holds: the bytes of every resident piece. */
  ghost function Contents(s: Store): map<int, seq<Byte>>
    requires Inv(s)
  {
    map p | 0 <= p < |s.pieces| && Resident(s, p) :: s.buffers[s.pieces[p].bi].data
  }

  function UsedBuffers(s: Store): set<int> {
    set i | 0 <= i < |s.buffers| && s.buffers[i].isUsed
  }

  // ---------------------------------------------------------------- construction and growth

  /** What a store is built from: the memory size, the torrent's piece length and the length of
      each piece, and the picker and the time as they are found. */
  datatype Config = Config(capacity: int, pieceLength: int, lengths: seq<int>, priority: seq<int>, have: set<int>,
                           clock: int)

  predicate ConfigOk(c: Config) {
    && 0 < c.pieceLength && -c.pieceLength < c.capacity && 0 < c.clock && |c.priority| == |c.lengths|
    && forall i :: 0 <= i < |c.lengths| ==> 0 <= c.lengths[i] <= c.pieceLength
  }

  /** The state after construction. */
  function NewStore(c: Config): Store
    requires ConfigOk(c)
  {
    var size := PoolSize(c.capacity, c.pieceLength, |c.lengths|);
    Store(c.pieceLength, c.capacity,
          seq(|c.lengths|, i requires 0 <= i < |c.lengths| => Piece(i, c.lengths[i], 0, -1)), [],
          size, size, 0, {}, false, false, c.priority, c.have, c.clock)
  }

  /** A buffer as it is added to the pool: zeroed, unassigned, never accessed. */
  function FreshBuffer(i: int, pieceLength: int): Buffer
    requires pieceLength > 0
  {
    Buffer(i, Zeros(pieceLength), -1, false, 0)
  }

  function FreshBuffers(from: nat, to: nat, pieceLength: int): (r: seq<Buffer>)
    requires from <= to && pieceLength > 0
    ensures |r| == to - from
    ensures forall i :: 0 <= i < |r| ==> r[i] == FreshBuffer(from + i, pieceLength)
  {
    seq(to - from, i requires 0 <= i => FreshBuffer(from + i, pieceLength))
  }

  function Initialize(s: Store): Store
    requires Inv(s)
  {
    s.(buffers := FreshBuffers(0, s.bufferSize, s.pieceLength), isInitialized := true)
  }

  function Grow(s: Store, size: int): Store
    requires Inv(s)
  {
    if size <= s.capacity then s
    else
      GrowKeepsPool(s, size);
      var n := PoolSize(size, s.pieceLength, |s.pieces|);
      s.(capacity := size, bufferSize := n, bufferLimit := n,
         buffers := if s.isInitialized then s.buffers + FreshBuffers(s.bufferSize, n, s.pieceLength) else s.buffers)
  }

  lemma GrowKeepsPool(s: Store, size: int)
    requires Inv(s) && s.capacity <= size
    ensures s.bufferSize <= PoolSize(size, s.pieceLength, |s.pieces|)
  {
    DivMonotone(s.capacity + s.pieceLength - 1, size + s.pieceLength - 1, s.pieceLength);
  }

  function Reserve(s: Store, pieces: set<int>): Store {
    if s.isInitialized then s.(reserved := pieces) else s
  }

  /** Buffers that are not spoken for by reserved pieces. */
  function BuffersCount(s: Store): int { s.bufferSize - |s.reserved| }

  function Attach(s: Store): Store { s.(isHandled := true) }

  // ---------------------------------------------------------------- allocation

  predicate IsReserved(s: Store, p: int) { s.isInitialized && p in s.reserved }

  /** Whether a reader wants the piece; without a torrent handle every piece counts as wanted. */
  predicate IsReadered(s: Store, p: int)
    requires 0 <= p < |s.priority|
  {
    s.isInitialized && (!s.isHandled || s.priority[p] != 0)
  }

  /** Index of the first free buffer at or after `i`, or the pool's length. */
  function FirstFree(buffers: seq<Buffer>, i: nat): (r: nat)
    requires i <= |buffers|
    ensures i <= r <= |buffers|
    ensures r < |buffers| ==> !buffers[r].isUsed
    ensures forall j :: i <= j < r ==> buffers[j].isUsed
    decreases |buffers| - i
  {
    if i == |buffers| || !buffers[i].isUsed then i else FirstFree(buffers, i + 1)
  }

  /** Free buffer `i` is given to piece `p`; a reserved piece is charged to the limit, any other
      to the use count. */
  function Assign(s: Store, p: int, i: int): Store
    requires IsPiece(s, p) && 0 <= i < |s.buffers|
  {
    var charged := p in s.reserved;
    s.(buffers := s.buffers[i := s.buffers[i].(isUsed := true, pi := s.pieces[p].index, accessed := s.clock)],
       pieces := s.pieces[p := s.pieces[p].(bi := s.buffers[i].index)],
       clock := s.clock + 1,
       bufferLimit := if charged then s.bufferLimit - 1 else s.bufferLimit,
       bufferUsed := if charged then s.bufferUsed else s.bufferUsed + 1)
  }

  /** The state after a writer asked for the piece's buffer. */
  function GetWriteBuffer(s: Store, p: int): Store
    requires IsPiece(s, p)
  {
    var i := FirstFree(s.buffers, 0);
    if s.pieces[p].IsBuffered() || i == |s.buffers| then s else Assign(s, p, i)
  }

  // ---------------------------------------------------------------- eviction

  /** A buffer that the eviction scan may pick: used, not reserved, not the protected piece and,
      in the first of the two scans, wanted by no reader. */
  predicate Candidate(s: Store, i: int, pi: int, checkRead: bool)
    requires Inv(s) && 0 <= i < |s.buffers|
  {
    var b := s.buffers[i];
    b.isUsed && b.IsAssigned() && !IsReserved(s, b.pi) && b.pi != pi && (!checkRead || !IsReadered(s, b.pi))
  }

  /** The scan over the first `n` buffers: the last one that beat the earliest access so far. */
  function FindLast(s: Store, pi: int, checkRead: bool, n: nat): (r: int)
    requires Inv(s) && n <= |s.buffers|
    ensures -1 <= r < n
    ensures r != -1 ==> Candidate(s, r, pi, checkRead)
  {
    if n == 0 then -1
    else
      var r := FindLast(s, pi, checkRead, n - 1);
      var minTime := if r == -1 then s.clock else s.buffers[r].accessed;
      if Candidate(s, n - 1, pi, checkRead) && s.buffers[n - 1].accessed < minTime then s.buffers[n - 1].index else r
  }

  /** The buffer that the next eviction takes, or -1: the first scan's, else the second scan's. */
  function Victim(s: Store, pi: int): (r: int)
    requires Inv(s)
    ensures -1 <= r < |s.buffers|
    ensures r != -1 ==> Candidate(s, r, pi, false)
  {
    var r := FindLast(s, pi, true, |s.buffers|);
    if r != -1 then r else FindLast(s, pi, false, |s.buffers|)
  }

  /** An evicted piece loses its priority and is no longer held. */
  function RestorePiece(s: Store, p: int): Store
    requires 0 <= p < |s.priority|
  {
    if s.isHandled then s.(priority := s.priority[p := 0], have := s.have - {p}) else s
  }

  function RemovePiece(s: Store, bi: int): Store
    requires Shape(s) && 0 <= bi < |s.buffers|
  {
    var p := s.buffers[bi].pi;
    var s1 := s.(buffers := s.buffers[bi := s.buffers[bi].Reset(s.clock)],
                 bufferUsed := s.bufferUsed - 1, clock := s.clock + 1);
    if 0 <= p < |s.pieces| then RestorePiece(s1.(pieces := s1.pieces[p := s1.pieces[p].Reset()]), p) else s1
  }

  /** One turn of the trim loop: the clock is read once for each scan, and a victim is evicted. */
  function TrimTurn(s: Store, pi: int): Store
    requires Inv(s)
  {
    var first := FindLast(s, pi, true, |s.buffers|);
    var s1 := s.(clock := s.clock + 1);
    if first != -1 then RemovePiece(s1, first)
    else
      var s2 := s1.(clock := s1.clock + 1);
      var second := FindLast(s, pi, false, |s.buffers|);
      if second != -1 then RemovePiece(s2, second) else s2
  }

  datatype TrimResult = TrimResult(store: Store, halts: bool)

  predicate MustTrim(s: Store) { s.bufferUsed >= s.bufferLimit }

  /** The trim loop: it turns until the use count is below the limit. A turn that finds no
      victim changes nothing but the clock, so the loop then never ends (`halts` is false). */
  function TrimLoop(s: Store, pi: int): TrimResult
    requires Inv(s)
    decreases |UsedBuffers(s)|
  {
    if !MustTrim(s) then TrimResult(s, true)
    else if Victim(s, pi) == -1 then TrimResult(TrimTurn(s, pi), false)
    else
      TurnEvicts(s, pi);
      TrimLoop(TrimTurn(s, pi), pi)
  }

  function Trim(s: Store, pi: int): TrimResult
    requires Inv(s)
  {
    if s.capacity < 0 || !MustTrim(s) then TrimResult(s, true) else TrimLoop(s, pi)
  }

  lemma AccessedBefore(s: Store, t: Store, i: int, pi: int, checkRead: bool)
    requires Inv(s) && Inv(t) && 0 <= i < |s.buffers| && t == s.(clock := t.clock)
    ensures s.buffers[i].accessed < s.clock && t.buffers[i].accessed < t.clock
    ensures Candidate(t, i, pi, checkRead) == Candidate(s, i, pi, checkRead)
  {
  }

  /** A scan does not depend on the time at which it starts. */
  lemma {:induction false} FindLastIgnoresClock(s: Store, t: Store, pi: int, checkRead: bool, n: nat)
    requires Inv(s) && n <= |s.buffers| && s.clock <= t.clock && t == s.(clock := t.clock)
    ensures Inv(t) && FindLast(t, pi, checkRead, n) == FindLast(s, pi, checkRead, n)
  {
    hide Inv, Candidate;
    assert t == s.(clock := s.clock + (t.clock - s.clock));
    Tick(s, t.clock - s.clock);
    if n > 0 {
      FindLastIgnoresClock(s, t, pi, checkRead, n - 1);
      AccessedBefore(s, t, n - 1, pi, checkRead);
    }
  }

  /** Evicting a used buffer keeps the invariant and frees exactly that buffer. */
  lemma RemoveKeepsInv(s: Store, bi: int)
    requires Inv(s) && 0 <= bi < |s.buffers| && s.buffers[bi].isUsed
    ensures Inv(RemovePiece(s, bi))
    ensures UsedBuffers(RemovePiece(s, bi)) == UsedBuffers(s) - {bi}
  {
    var p := s.buffers[bi].pi;
    var t := RemovePiece(s, bi);
    assert t.pieces == s.pieces[p := s.pieces[p].Reset()];
    assert t.buffers == s.buffers[bi := s.buffers[bi].Reset(s.clock)];
  }

  /** The clock may run on. */
  lemma Tick(s: Store, k: nat)
    requires Inv(s)
    ensures Inv(s.(clock := s.clock + k))
    ensures Contents(s.(clock := s.clock + k)) == Contents(s)
    ensures UsedBuffers(s.(clock := s.clock + k)) == UsedBuffers(s)
  {
  }

  /** A turn that finds a victim evicts it and nothing else. */
  lemma TurnEvicts(s: Store, pi: int)
    requires Inv(s)
    ensures Victim(s, pi) != -1 ==>
              && Inv(TrimTurn(s, pi)) && Victim(s, pi) in UsedBuffers(s)
              && UsedBuffers(TrimTurn(s, pi)) == UsedBuffers(s) - {Victim(s, pi)}
              && |UsedBuffers(TrimTurn(s, pi))| < |UsedBuffers(s)|
    ensures Victim(s, pi) == -1 ==>
              && TrimTurn(s, pi) == s.(clock := s.clock + 2) && Inv(TrimTurn(s, pi))
              && UsedBuffers(TrimTurn(s, pi)) == UsedBuffers(s)
  {
    hide Inv, FindLast, RemovePiece;
    var ticks := if FindLast(s, pi, true, |s.buffers|) != -1 then 1 else 2;
    var t := s.(clock := s.clock + ticks);
    Tick(s, ticks);
    if Victim(s, pi) != -1 {
      assert TrimTurn(s, pi) == RemovePiece(t, Victim(s, pi));
      RemoveKeepsInv(t, Victim(s, pi));
    }
  }
}
