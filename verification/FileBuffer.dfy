/** Buffering a file before it is streamed: `File::start_buffer` of src/bittorrent/file.cpp, for a
    torrent with memory storage. */
module FileBuffer {
  import opened Arithmetic
  import opened PieceLayout
  import opened StoreModel
  import opened StoreRuns
  import opened StoreAccounting
  import opened StoreService
  import opened Storage
  import Priorities

  const TOP_PRIORITY := 7

  predicate Increasing(ps: seq<int>) {
    forall i, j :: 0 <= i < j < |ps| ==> ps[i] < ps[j]
  }

  function SumLengths(l: Layout, ps: seq<int>): int {
    if ps == [] then 0 else SumLengths(l, ps[..|ps| - 1]) + l.Length(ps[|ps| - 1])
  }

  /** A piece to be buffered: it holds one of the first `startSize` or the last `endSize` bytes of
      the file, or any byte of a file that is shorter than both together. */
  predicate ToBuffer(l: Layout, offset: int, size: int, startSize: int, endSize: int, p: int)
    requires l.Ok()
  {
    if size >= startSize + endSize
    then Meets(l, p, offset, startSize) || Meets(l, p, offset + size - endSize, endSize)
    else Meets(l, p, offset, size)
  }

  predicate Positives(startSize: int, endSize: int) { 0 < startSize && 0 < endSize }

  /** Position `x` of the file is one of its first `startSize` or last `endSize`, and in piece `p`. */
  predicate AtEnds(l: Layout, offset: int, size: int, startSize: int, endSize: int, p: int, x: int) {
    && 0 <= x < size && (x < startSize || size - endSize <= x)
    && p * l.pieceLength <= offset + x < (p + 1) * l.pieceLength
  }

  /** A piece is to be buffered if and only if it holds such a position. */
  lemma ToBufferIsEnds(l: Layout, offset: int, size: int, startSize: int, endSize: int, p: int)
    requires l.Ok() && InTorrent(l, offset, size) && Positives(startSize, endSize)
    ensures ToBuffer(l, offset, size, startSize, endSize, p) <==>
              0 <= p < l.Count() && exists x :: AtEnds(l, offset, size, startSize, endSize, p, x)
  {
    hide CeilDiv, Meets;
    MeetsIsSharing(l, p, offset, startSize);
    MeetsIsSharing(l, p, offset + size - endSize, endSize);
    MeetsIsSharing(l, p, offset, size);
    if x :| AtEnds(l, offset, size, startSize, endSize, p, x) {
      assert SharesByte(l, p, offset, size, offset + x);
      assert x < startSize ==> SharesByte(l, p, offset, startSize, offset + x);
      assert size - endSize <= x ==> SharesByte(l, p, offset + size - endSize, endSize, offset + x);
    }
    if ToBuffer(l, offset, size, startSize, endSize, p) {
      var b: int;
      if size < startSize + endSize {
        b :| SharesByte(l, p, offset, size, b);
      } else if Meets(l, p, offset, startSize) {
        b :| SharesByte(l, p, offset, startSize, b);
      } else {
        b :| SharesByte(l, p, offset + size - endSize, endSize, b);
      }
      assert AtEnds(l, offset, size, startSize, endSize, p, b - offset);
    }
  }

  // ---------------------------------------------------------------- the buffers hold the pieces

  lemma {:induction false} IncreasingBound(ps: seq<int>, i: nat)
    requires Increasing(ps) && i < |ps| && 0 <= ps[0]
    ensures i <= ps[i]
  {
    if i > 0 {
      IncreasingBound(ps, i - 1);
    }
  }

  /** All pieces are full but the last, which has the rest. */
  lemma LengthOf(l: Layout, p: int)
    requires l.Ok() && 0 <= p < l.Count()
    ensures 1 <= l.Length(p) <= l.pieceLength
    ensures l.Length(p) == if p < l.Count() - 1 then l.pieceLength else l.total - p * l.pieceLength
  {
    hide CeilDiv;
    CountBounds(l);
    StartMonotone(l, p, l.Count() - 1);
    assert (p + 1) * l.pieceLength == l.Start(p) + l.pieceLength;
  }

  lemma {:induction false} SumOfFull(l: Layout, ps: seq<int>)
    requires l.Ok() && forall i :: 0 <= i < |ps| ==> 0 <= ps[i] < l.Count() - 1
    ensures SumLengths(l, ps) == |ps| * l.pieceLength
  {
    hide CeilDiv;
    if ps != [] {
      var n := |ps| - 1;
      SumOfFull(l, ps[..n]);
      LengthOf(l, ps[n]);
      assert (n + 1) * l.pieceLength == n * l.pieceLength + l.pieceLength;
    }
  }

  lemma CeilAtLeast(sum: int, d: int, n: int)
    requires 0 < d && n * d < sum
    ensures n + 1 <= CeilDiv(sum, d)
  {
    assert (n + 1) * d == n * d + d;
    QuotientUnique((n + 1) * d, d, n + 1);
    DivMonotone((n + 1) * d, sum + d - 1, d);
  }

  /** Distinct pieces need as many buffers as they are: all but the torrent's last are full. */
  lemma BuffersForPieces(l: Layout, ps: seq<int>)
    requires l.Ok() && Increasing(ps) && ps != []
    requires forall i :: 0 <= i < |ps| ==> 0 <= ps[i] < l.Count()
    ensures |ps| <= CeilDiv(SumLengths(l, ps), l.pieceLength) && |ps| <= l.Count()
  {
    hide Layout.Count;
    var n := |ps| - 1;
    assert forall i :: 0 <= i < n ==> ps[i] < ps[n];
    SumOfFull(l, ps[..n]);
    LengthOf(l, ps[n]);
    IncreasingBound(ps, n);
    var sum := SumLengths(l, ps);
    CeilAtLeast(sum, l.pieceLength, n);
  }

  /** A store with enough memory for the pieces has a buffer for each of them. */
  lemma PoolHoldsPieces(l: Layout, ps: seq<int>, capacity: int)
    requires l.Ok() && Increasing(ps) && ps != [] && SumLengths(l, ps) <= capacity
    requires forall i :: 0 <= i < |ps| ==> 0 <= ps[i] < l.Count()
    ensures 0 <= l.Count() && |ps| <= PoolSize(capacity, l.pieceLength, l.Count())
  {
    hide Layout.Count;
    BuffersForPieces(l, ps);
    DivMonotone(SumLengths(l, ps) + l.pieceLength - 1, capacity + l.pieceLength - 1, l.pieceLength);
  }

  /** What a plan says: its pieces in order, their total length, and top priority for them and
      for no other piece. */
  ghost predicate Plan(l: Layout, ps: seq<int>, size: int, priority: seq<int>, before: seq<int>) {
    && Increasing(ps) && size == SumLengths(l, ps) && |priority| == |before|
    && (forall p :: 0 <= p < |before| ==> priority[p] == if p in ps then TOP_PRIORITY else before[p])
  }

  /** A planned piece is wanted, and at least as much as any entry of a readahead window. */
  lemma PlannedIsWanted(l: Layout, ps: seq<int>, size: int, priority: seq<int>, before: seq<int>, p: int, i: nat)
    requires Plan(l, ps, size, priority, before) && p in ps && 0 <= p < |before|
    ensures 0 < priority[p] && Priorities.Tier(i) <= priority[p]
  {
  }

  lemma PlanNext(l: Layout, ps: seq<int>, size: int, priority: seq<int>, before: seq<int>, p: int)
    requires Plan(l, ps, size, priority, before) && 0 <= p < |before| && forall q :: q in ps ==> q < p
    ensures Plan(l, ps + [p], size + l.Length(p), priority[p := TOP_PRIORITY], before)
  {
    assert (ps + [p])[..|ps|] == ps;
    assert forall i :: 0 <= i < |ps| ==> ps[i] in ps;
    forall q | 0 <= q < |before|
      ensures priority[p := TOP_PRIORITY][q] == if q in ps + [p] then TOP_PRIORITY else before[q]
    {
      assert q in ps + [p] <==> q in ps || q == p;
    }
  }

  lemma PlanStart(l: Layout, before: seq<int>)
    ensures Plan(l, [], 0, before, before)
  {
  }

  // ---------------------------------------------------------------- the pieces of both ends

  lemma RangeOfFile(l: Layout, offset: int, size: int)
    requires l.Ok() && InTorrent(l, offset, size)
    ensures var f := NewFile(l, offset, size);
            && (f.pieceStart, f.pieceEnd) == RegionPieces(offset, size, l.pieceLength, l.Count())
            && 0 <= f.pieceStart <= f.pieceEnd < l.Count()
  {
    RegionPiecesAre(l, offset, size);
  }

  lemma EndsInOrder(l: Layout, offset: int, size: int, startSize: int, endSize: int)
    requires l.Ok() && InTorrent(l, offset, size) && Positives(startSize, endSize) && startSize + endSize <= size
    ensures var all := RegionPieces(offset, size, l.pieceLength, l.Count());
            var first := RegionPieces(offset, startSize, l.pieceLength, l.Count());
            var last := RegionPieces(offset + size - endSize, endSize, l.pieceLength, l.Count());
            all.0 == first.0 <= first.1 <= last.1 == all.1 && first.0 <= last.0 <= last.1
  {
    hide Layout.Count, RegionPieces;
    RegionPiecesAre(l, offset, size);
    RegionPiecesAre(l, offset, startSize);
    RegionPiecesAre(l, offset + size - endSize, endSize);
    QuotientsInOrder(offset, offset + startSize - 1, offset + size - endSize, offset + size - 1, l.pieceLength);
    assert offset + size - endSize + endSize - 1 == offset + size - 1;
  }

  lemma QuotientsInOrder(a: int, b: int, c: int, d: int, pl: int)
    requires 0 < pl && a <= b <= d && a <= c <= d
    ensures a / pl <= b / pl <= d / pl && a / pl <= c / pl <= d / pl
  {
    DivMonotone(a, b, pl);
    DivMonotone(b, d, pl);
    DivMonotone(a, c, pl);
    DivMonotone(c, d, pl);
  }

  lemma RegionsAreMeeting(l: Layout, offset: int, size: int)
    requires l.Ok() && InTorrent(l, offset, size)
    ensures var r := RegionPieces(offset, size, l.pieceLength, l.Count());
            forall p :: Meets(l, p, offset, size) <==> r.0 <= p <= r.1
  {
    hide Layout.Count, RegionPieces, Meets;
    forall p
      ensures var r := RegionPieces(offset, size, l.pieceLength, l.Count());
              Meets(l, p, offset, size) <==> r.0 <= p <= r.1
    {
      RegionIsMeeting(l, offset, size, p);
    }
  }

  /** A long file: the pieces to buffer are two ranges, one from its first and one to its last
      piece. */
  lemma TwoEnds(l: Layout, offset: int, size: int, startSize: int, endSize: int)
    requires l.Ok() && InTorrent(l, offset, size) && Positives(startSize, endSize) && startSize + endSize <= size
    ensures var all := RegionPieces(offset, size, l.pieceLength, l.Count());
            var first := RegionPieces(offset, startSize, l.pieceLength, l.Count());
            var last := RegionPieces(offset + size - endSize, endSize, l.pieceLength, l.Count());
            && all.0 == first.0 <= first.1 <= last.1 == all.1 && first.0 <= last.0 <= last.1
            && forall p ::
                 ToBuffer(l, offset, size, startSize, endSize, p) <==> first.0 <= p <= first.1 || last.0 <= p <= last.1
  {
    hide Layout.Count, RegionPieces, Meets;
    EndsInOrder(l, offset, size, startSize, endSize);
    RegionsAreMeeting(l, offset, startSize);
    RegionsAreMeeting(l, offset + size - endSize, endSize);
  }

  /** A short file: all its pieces. */
  lemma WholeFile(l: Layout, offset: int, size: int, startSize: int, endSize: int)
    requires l.Ok() && InTorrent(l, offset, size) && size < startSize + endSize
    ensures var all := RegionPieces(offset, size, l.pieceLength, l.Count());
            forall p :: ToBuffer(l, offset, size, startSize, endSize, p) <==> all.0 <= p <= all.1
  {
    hide Layout.Count, RegionPieces, Meets;
    RegionsAreMeeting(l, offset, size);
  }

  // ---------------------------------------------------------------- the file

  class BufferedFile {
    const layout: Layout
    const range: FileRange
    const startSize: int
    const endSize: int
    var isBuffering: bool
    var bufferPieces: seq<int>
    var bufferSize: int

    ghost predicate Valid()
      reads this
    {
      && layout.Ok() && InTorrent(layout, range.offset, range.size) && Positives(startSize, endSize)
      && range == NewFile(layout, range.offset, range.size)
    }

    constructor (l: Layout, offset: int, size: int, start: int, end: int)
      requires l.Ok() && InTorrent(l, offset, size) && Positives(start, end)
      ensures Valid() && layout == l && range == NewFile(l, offset, size) && startSize == start && endSize == end
    {
      layout, range, startSize, endSize := l, NewFile(l, offset, size), start, end;
      isBuffering, bufferPieces, bufferSize := false, [], 0;
    }

    /** The store belongs to the file's torrent and is initialized. */
    ghost predicate Serves(store: MemoryStorage)
      reads this, store
    {
      && Valid() && store.Valid() && store.isInitialized
      && store.pieceLength == layout.pieceLength && |store.pieces| == layout.Count()
    }

    /** A piece joins the plan once, at top priority. */
    method AddBufferPiece(piece: int, store: MemoryStorage)
      requires Serves(store) && 0 <= piece < |store.pieces|
      modifies this`bufferPieces, this`bufferSize, store`priority
      ensures Serves(store)
      ensures bufferPieces == if piece in old(bufferPieces) then old(bufferPieces) else old(bufferPieces) + [piece]
      ensures bufferSize == old(bufferSize) + if piece in old(bufferPieces) then 0 else layout.Length(piece)
      ensures store.priority == if piece in old(bufferPieces) then old(store.priority)
                                else old(store.priority)[piece := TOP_PRIORITY]
      ensures store.State() == old(store.State()).(priority := store.priority)
    {
      if piece in bufferPieces {
        return;
      }
      PriorityKeepsInv(store.State(), store.priority[piece := TOP_PRIORITY]);
      store.priority := store.priority[piece := TOP_PRIORITY];
      bufferSize := bufferSize + layout.Length(piece);
      bufferPieces := bufferPieces + [piece];
    }

    ghost predicate Planned(store: MemoryStorage, before: seq<int>)
      reads this, store
    {
      Plan(layout, bufferPieces, bufferSize, store.priority, before)
    }

    method AddRange(first: int, last: int, store: MemoryStorage, ghost before: seq<int>)
      requires Serves(store) && Planned(store, before) && 0 <= first && last < |store.pieces|
      requires forall p, q :: first <= p <= last && p !in bufferPieces && q in bufferPieces ==> q < p
      modifies this`bufferPieces, this`bufferSize, store`priority
      ensures Serves(store) && Planned(store, before)
      ensures forall p :: p in bufferPieces <==> p in old(bufferPieces) || first <= p <= last
      ensures store.State() == old(store.State()).(priority := store.priority)
    {
      hide Inv, Layout.Count, Plan;
      var i := first;
      while i <= last
        invariant first <= i && (first <= last ==> i <= last + 1)
        invariant Serves(store) && Planned(store, before)
        invariant forall p :: p in bufferPieces <==> p in old(bufferPieces) || (first <= p < i && p <= last)
        invariant store.State() == old(store.State()).(priority := store.priority)
      {
        if i !in bufferPieces {
          PlanLength(layout, bufferPieces, bufferSize, store.priority, before);
          assert store.State().priority == store.priority;
          ShapeOf(store.State());
          PlanNext(layout, bufferPieces, bufferSize, store.priority, before, i);
        }
        AddBufferPiece(i, store);
        i := i + 1;
      }
    }

    /** The pieces to buffer are collected in order and without repeats. */
    method CollectPieces(store: MemoryStorage)
      requires Serves(store)
      modifies this, store`priority
      ensures Serves(store) && isBuffering && Planned(store, old(store.priority))
      ensures forall p :: p in bufferPieces <==> ToBuffer(layout, range.offset, range.size, startSize, endSize, p)
      ensures bufferPieces != [] && bufferPieces[0] == range.pieceStart
              && bufferPieces[|bufferPieces| - 1] == range.pieceEnd
      ensures store.State() == old(store.State()).(priority := store.priority)
    {
      hide Inv, Layout.Count, RegionPieces, ToBuffer, NewFile, Plan;
      ghost var before := store.priority;
      isBuffering := true;
      bufferPieces, bufferSize := [], 0;
      PlanStart(layout, before);
      RangeOfFile(layout, range.offset, range.size);
      if range.size >= startSize + endSize {
        var first := RegionPieces(range.offset, startSize, layout.pieceLength, layout.Count());
        var last := RegionPieces(range.offset + range.size - endSize, endSize, layout.pieceLength, layout.Count());
        TwoEnds(layout, range.offset, range.size, startSize, endSize);
        AddRange(first.0, first.1, store, before);
        AddRange(last.0, last.1, store, before);
      } else {
        var all := RegionPieces(range.offset, range.size, layout.pieceLength, layout.Count());
        WholeFile(layout, range.offset, range.size, startSize, endSize);
        AddRange(all.0, all.1, store, before);
      }
      PlanIs(layout, bufferPieces, bufferSize, store.priority, before);
      assert range.pieceStart in bufferPieces && range.pieceEnd in bufferPieces;
      assert forall p :: p in bufferPieces ==> range.pieceStart <= p <= range.pieceEnd;
      EndsOfIncreasing(bufferPieces, range.pieceStart, range.pieceEnd);
    }

    /** Buffering: the pieces are collected, the store grows if they need more memory, and the
        file's first and last piece are reserved. Afterwards the store has a buffer for every
        collected piece. All further writes are served exactly when no charge was ever written off
        by a growth, this one included, and there are two buffers besides the reserved pieces', or
        when every piece of the torrent has a buffer. */
    method StartBuffer(store: MemoryStorage)
      requires Serves(store)
      modifies this, store
      ensures Serves(store) && isBuffering && Planned(store, old(store.priority))
      ensures forall p :: p in bufferPieces <==> ToBuffer(layout, range.offset, range.size, startSize, endSize, p)
      ensures bufferPieces != [] && bufferPieces[0] == range.pieceStart
              && bufferPieces[|bufferPieces| - 1] == range.pieceEnd
      ensures |bufferPieces| <= store.bufferSize && bufferSize <= store.capacity
      ensures store.reserved == {range.pieceStart, range.pieceEnd}
      ensures Contents(store.State()) == old(Contents(store.State()))
      ensures store.State() ==
                Prepare(old(store.State()), bufferSize, {range.pieceStart, range.pieceEnd}).(priority := store.priority)
      ensures old(Settled(store.State())) ==>
                ServedAfter(old(store.State()), store.State(), bufferSize, range.pieceStart, range.pieceEnd)
    {
      hide Inv, Contents, ToBuffer, RegionPieces, Plan, Layout.Count, Grow, PoolSize, ServedAfter, Settled;
      ghost var before := store.State();
      CollectPieces(store);
      PlanLength(layout, bufferPieces, bufferSize, store.priority, before.priority);
      PriorityKeepsContents(before, store.State());
      GrowIgnoresPriority(before, store.priority, bufferSize);
      if bufferSize > store.capacity {
        GrowKeepsInv(store.State(), bufferSize);
        GrowKeepsPicker(store.State(), bufferSize);
        store.SetMemorySize(bufferSize);
      }
      var reserved := [bufferPieces[0], bufferPieces[|bufferPieces| - 1]];
      ReserveKeepsContents(store.State(), set p | p in reserved);
      InPlanInRange(this);
      store.UpdateReservedPieces(reserved);
      assert store.reserved == {range.pieceStart, range.pieceEnd};
      PlanIs(layout, bufferPieces, bufferSize, store.priority, old(store.priority));
      PoolHoldsPieces(layout, bufferPieces, store.capacity);
      ShapeOf(store.State());
      if Settled(before) {
        PreparedIsServed(before, store.State(), bufferSize, range.pieceStart, range.pieceEnd);
      }
    }
  }

  /** What growing for `size` bytes and reserving pieces `a` and `b` does to the debt, and whether all
      writes are served from then on. */
  ghost predicate ServedAfter(s: Store, t: Store, size: int, a: int, b: int)
    requires Inv(t)
  {
    var grows := s.capacity < size;
    && Settled(t) && Debt(t) == Debt(s) + (if grows then s.bufferSize - s.bufferLimit else 0)
    && (NeverStuck(Exec(t, [], false)) <==>
          if Debt(s) == 0 && !(grows && s.bufferLimit < s.bufferSize)
          then (if a == b then 3 else 4) <= t.bufferSize
          else t.bufferSize == |t.pieces|)
  }

  lemma GrowIgnoresPriority(s: Store, priority: seq<int>, size: int)
    requires Inv(s) && |priority| == |s.priority|
    ensures Inv(s.(priority := priority))
            && Grow(s.(priority := priority), size) == Grow(s, size).(priority := priority)
    ensures size <= s.capacity ==> Grow(s, size) == s
  {
  }

  lemma PreparedIsServed(s: Store, t: Store, size: int, a: int, b: int)
    requires Settled(s) && IsPiece(s, a) && IsPiece(s, b)
    requires t == Prepare(s, size, {a, b}).(priority := t.priority) && |t.priority| == |s.priority|
    ensures Inv(t) && ServedAfter(s, t, size, a, b)
  {
    hide PiecesLinked, BuffersLinked, TimesOrdered, NeverStuck, Grow;
    var e := Exec(s.(priority := t.priority), [], false);
    GrowIgnoresPriority(s, t.priority, size);
    assert UsedBuffers(e.store) == UsedBuffers(s);
    PreparedServesIff(e, size, {a, b});
    GrowKeepsSettled(e.store, size);
    FewReserved(Grow(e.store, size), {a, b});
    assert |{a, b}| == if a == b then 1 else 2;
  }

  lemma PlanIs(l: Layout, ps: seq<int>, size: int, priority: seq<int>, before: seq<int>)
    requires Plan(l, ps, size, priority, before)
    ensures Increasing(ps) && size == SumLengths(l, ps)
  {
  }

  lemma GrowKeepsPicker(s: Store, size: int)
    requires Inv(s) && s.capacity < size
    ensures var t := Grow(s, size);
            t.priority == s.priority && t.pieces == s.pieces && t.pieceLength == s.pieceLength
            && t.isInitialized == s.isInitialized && t.capacity == size
  {
  }

  lemma PlanLength(l: Layout, ps: seq<int>, size: int, priority: seq<int>, before: seq<int>)
    requires Plan(l, ps, size, priority, before)
    ensures |priority| == |before|
  {
  }

  lemma ShapeOf(s: Store)
    requires Inv(s)
    ensures |s.priority| == |s.pieces| && 0 < s.pieceLength
    ensures s.isInitialized ==> s.bufferSize == PoolSize(s.capacity, s.pieceLength, |s.pieces|)
  {
  }

  lemma InPlanInRange(f: BufferedFile)
    requires f.Valid()
    requires forall p :: p in f.bufferPieces <==>
             ToBuffer(f.layout, f.range.offset, f.range.size, f.startSize, f.endSize, p)
    ensures forall i :: 0 <= i < |f.bufferPieces| ==> 0 <= f.bufferPieces[i] < f.layout.Count()
  {
    hide Layout.Count;
    assert forall i :: 0 <= i < |f.bufferPieces| ==> f.bufferPieces[i] in f.bufferPieces;
  }

  lemma EndsOfIncreasing(ps: seq<int>, lo: int, hi: int)
    requires Increasing(ps) && lo in ps && hi in ps && forall p :: p in ps ==> lo <= p <= hi
    ensures ps != [] && ps[0] == lo && ps[|ps| - 1] == hi
  {
    var i :| 0 <= i < |ps| && ps[i] == lo;
    var j :| 0 <= j < |ps| && ps[j] == hi;
    assert ps[0] in ps && ps[|ps| - 1] in ps;
  }

  lemma PriorityKeepsInv(s: Store, priority: seq<int>)
    requires Inv(s) && |priority| == |s.priority|
    ensures Inv(s.(priority := priority))
  {
  }

  lemma PriorityKeepsContents(s: Store, t: Store)
    requires Inv(s) && t == s.(priority := t.priority) && |t.priority| == |s.priority|
    ensures Inv(t) && Contents(t) == Contents(s)
  {
  }

  lemma ReserveKeepsContents(s: Store, ps: set<int>)
    requires Inv(s)
    ensures Inv(Reserve(s, ps)) && Contents(Reserve(s, ps)) == Contents(s)
  {
  }
}
