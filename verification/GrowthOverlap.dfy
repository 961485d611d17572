/** Overlapping calls of `set_memory_size` (src/bittorrent/memory_storage.cpp): the size is compared
    with the capacity before the lock is taken, so several calls can pass the comparison and then
    run their bodies one after the other, in any order. Every size that passes is above the
    capacity at the start, since no body sets a lower one. */
module GrowthOverlap {
  import opened Arithmetic
  import opened StoreModel
  import opened StoreEviction
  import opened StoreRuns

  /** Number of buffers that a call asks for. */
  function Wanted(s: Store, size: int): int
    requires s.pieceLength > 0
  {
    PoolSize(size, s.pieceLength, |s.pieces|)
  }

  /** The part of a call inside the lock: the comparison is not made again. */
  function GrowBody(s: Store, size: int): Store
    requires s.pieceLength > 0 && 0 <= s.bufferSize
  {
    var n := Wanted(s, size);
    s.(capacity := size, bufferSize := n, bufferLimit := n,
       buffers := if s.bufferSize < n then s.buffers + FreshBuffers(s.bufferSize, n, s.pieceLength) else s.buffers)
  }

  /** The bodies of several calls that have all passed the comparison, in the order in which they
      get the lock. */
  function GrowBodies(s: Store, sizes: seq<int>): (t: Store)
    requires Passed(s, sizes)
    ensures t.pieces == s.pieces && t.pieceLength == s.pieceLength && 0 <= t.bufferSize
    ensures t.bufferSize == (if sizes == [] then s.bufferSize else Wanted(s, sizes[|sizes| - 1]))
  {
    if sizes == [] then s
    else
      var n := |sizes| - 1;
      WantedGrows(s, sizes[n]);
      GrowBody(GrowBodies(s, sizes[..n]), sizes[n])
  }

  predicate Passed(s: Store, sizes: seq<int>) {
    Inv(s) && s.isInitialized && forall i :: 0 <= i < |sizes| ==> s.capacity < sizes[i]
  }

  lemma WantedGrows(s: Store, size: int)
    requires Inv(s) && s.capacity <= size
    ensures s.bufferSize <= Wanted(s, size)
  {
    GrowKeepsPool(s, size);
  }

  /** A call that runs alone is the store's growth. */
  lemma AloneIsGrow(s: Store, size: int)
    requires Passed(s, [size])
    ensures GrowBodies(s, [size]) == Grow(s, size)
  {
    assert s.capacity < [size][0];
    GrowKeepsPool(s, size);
    assert GrowBodies(s, [size]) == GrowBody(s, size);
    if s.bufferSize == Wanted(s, size) {
      assert s.buffers + FreshBuffers(s.bufferSize, s.bufferSize, s.pieceLength) == s.buffers;
    }
  }

  /** How much the wanted number falls in all, from call to call. */
  function Lost(s: Store, sizes: seq<int>): (r: nat)
    requires s.pieceLength > 0
  {
    var n := |sizes|;
    if n < 2 then 0 else Lost(s, sizes[..n - 1]) + Max(0, Wanted(s, sizes[n - 2]) - Wanted(s, sizes[n - 1]))
  }

  /** No call asks for fewer buffers than the one before. */
  predicate Rising(s: Store, sizes: seq<int>)
    requires s.pieceLength > 0
  {
    forall i :: 0 <= i < |sizes| - 1 ==> Wanted(s, sizes[i]) <= Wanted(s, sizes[i + 1])
  }

  lemma {:induction false} LostNothingIff(s: Store, sizes: seq<int>)
    requires s.pieceLength > 0
    ensures Lost(s, sizes) == 0 <==> Rising(s, sizes)
  {
    hide PoolSize;
    var n := |sizes|;
    if 2 <= n {
      var front := sizes[..n - 1];
      LostNothingIff(s, front);
      assert forall i :: 0 <= i < n - 1 ==> front[i] == sizes[i];
      if Rising(s, sizes) {
        assert Wanted(s, sizes[n - 2]) <= Wanted(s, sizes[n - 2 + 1]);
      }
    }
  }

  /** The pool ends up with as many buffers too many as the wanted number fell. */
  lemma {:induction false} BodiesSurplus(s: Store, sizes: seq<int>)
    requires Passed(s, sizes)
    ensures |GrowBodies(s, sizes).buffers| == GrowBodies(s, sizes).bufferSize + Lost(s, sizes)
  {
    hide PoolSize, PiecesLinked, BuffersLinked, TimesOrdered;
    var n := |sizes|;
    if n > 0 {
      BodiesSurplus(s, sizes[..n - 1]);
      WantedGrows(s, sizes[n - 1]);
    }
  }

  lemma {:induction false} RisingKeepsInv(s: Store, sizes: seq<int>)
    requires Passed(s, sizes) && Lost(s, sizes) == 0
    ensures Inv(GrowBodies(s, sizes)) && GrowBodies(s, sizes).isInitialized
  {
    hide PoolSize, PiecesLinked, BuffersLinked, TimesOrdered;
    var n := |sizes|;
    if n > 0 {
      RisingKeepsInv(s, sizes[..n - 1]);
      WantedGrows(s, sizes[n - 1]);
      ExtendLinks(GrowBodies(s, sizes[..n - 1]), GrowBodies(s, sizes));
    }
  }

  /** Overlapping growths keep the store's invariant if and only if they get the lock in an order
      in which the wanted number of buffers never falls. */
  lemma OverlapIff(s: Store, sizes: seq<int>)
    requires Passed(s, sizes)
    ensures Inv(GrowBodies(s, sizes)) <==> Rising(s, sizes)
  {
    hide PiecesLinked, BuffersLinked, TimesOrdered, GrowBody, Rising;
    LostNothingIff(s, sizes);
    BodiesSurplus(s, sizes);
    if Lost(s, sizes) == 0 {
      RisingKeepsInv(s, sizes);
    } else {
      BodiesInitialized(s, sizes);
    }
  }

  lemma {:induction false} BodiesInitialized(s: Store, sizes: seq<int>)
    requires Passed(s, sizes)
    ensures GrowBodies(s, sizes).isInitialized
  {
    if sizes != [] {
      BodiesInitialized(s, sizes[..|sizes| - 1]);
    }
  }

  // ---------------------------------------------------------------- stray indices

  /** Every buffer carries its own position. */
  predicate Indexed(buffers: seq<Buffer>) {
    forall i :: 0 <= i < |buffers| ==> buffers[i].index == i
  }

  /** One of the first `n` buffers does not. */
  predicate StrayBefore(buffers: seq<Buffer>, n: int) {
    exists i :: 0 <= i < |buffers| && i < n && buffers[i].index != i
  }

  /** The wanted number rises with the call after `b`, having fallen before. */
  predicate RisesAfterFall(s: Store, sizes: seq<int>, b: int)
    requires s.pieceLength > 0 && 0 <= b < |sizes| - 1
  {
    Wanted(s, sizes[b]) < Wanted(s, sizes[b + 1]) && 0 < Lost(s, sizes[..b + 1])
  }

  /** It does so while the pool has fewer than `n` buffers: those that were wanted last and those
      that are too many. */
  ghost predicate RisesBefore(s: Store, sizes: seq<int>, n: int)
    requires s.pieceLength > 0
  {
    exists b :: 0 <= b < |sizes| - 1 && RisesAfterFall(s, sizes, b) && Wanted(s, sizes[b]) + Lost(s, sizes[..b + 1]) < n
  }

  lemma RisesBeforeNext(s: Store, sizes: seq<int>, n: int)
    requires s.pieceLength > 0 && 2 <= |sizes|
    ensures var front, b := sizes[..|sizes| - 1], |sizes| - 2;
            RisesBefore(s, sizes, n) <==>
              || RisesBefore(s, front, n)
              || (RisesAfterFall(s, sizes, b) && Wanted(s, sizes[b]) + Lost(s, front) < n)
  {
    hide Wanted, Lost;
    var front, last := sizes[..|sizes| - 1], |sizes| - 2;
    forall b | 0 <= b < last
      ensures RisesAfterFall(s, front, b) == RisesAfterFall(s, sizes, b)
      ensures Lost(s, front[..b + 1]) == Lost(s, sizes[..b + 1])
    {
      assert front[..b + 1] == sizes[..b + 1];
    }
    assert sizes[..last + 1] == front;
  }

  lemma StrayNext(buffers: seq<Buffer>, from: nat, to: nat, pl: int, n: int)
    requires pl > 0 && from < to
    ensures StrayBefore(buffers + FreshBuffers(from, to, pl), n) <==>
              StrayBefore(buffers, n) || (|buffers| != from && |buffers| < n)
  {
    var more := FreshBuffers(from, to, pl);
    assert (buffers + more)[|buffers|] == more[0];
    assert forall i :: 0 <= i < |buffers| ==> (buffers + more)[i] == buffers[i];
    assert forall i :: |buffers| <= i < |buffers + more| ==> (buffers + more)[i].index == from + (i - |buffers|);
  }

  lemma AtStart(s: Store, sizes: seq<int>, n: int)
    requires Inv(s) && |sizes| < 2
    ensures !StrayBefore(s.buffers, n) && !RisesBefore(s, sizes, n) && Lost(s, sizes) == 0
  {
  }

  /** Buffers added after a fall get positions that are not their indices: one of the first `n`
      buffers does not carry its own position if and only if the wanted number rises after a
      fall while the pool has fewer than `n`. */
  lemma {:induction false} StrayIff(s: Store, sizes: seq<int>, n: int)
    requires Passed(s, sizes)
    ensures StrayBefore(GrowBodies(s, sizes).buffers, n) <==> RisesBefore(s, sizes, n)
  {
    hide PoolSize, PiecesLinked, TimesOrdered, Lost, FreshBuffers, StrayBefore, RisesBefore;
    var k := |sizes|;
    if k == 0 {
      AtStart(s, sizes, n);
    } else {
      var front := sizes[..k - 1];
      var prev := GrowBodies(s, front);
      StrayIff(s, front, n);
      BodiesSurplus(s, front);
      WantedGrows(s, sizes[k - 1]);
      if prev.bufferSize < Wanted(s, sizes[k - 1]) {
        StrayNext(prev.buffers, prev.bufferSize, Wanted(s, sizes[k - 1]), s.pieceLength, n);
      }
      if k == 1 {
        AtStart(s, sizes, n);
        AtStart(s, front, n);
      } else {
        RisesBeforeNext(s, sizes, n);
        assert sizes[..k - 2 + 1] == front;
      }
    }
  }

  /** Every buffer carries its own position if and only if the wanted number never rises after a
      fall. */
  lemma IndexedIff(s: Store, sizes: seq<int>)
    requires Passed(s, sizes)
    ensures Indexed(GrowBodies(s, sizes).buffers) <==>
              forall b :: 0 <= b < |sizes| - 1 ==> !RisesAfterFall(s, sizes, b)
  {
    hide GrowBodies, Wanted, Lost, PiecesLinked, BuffersLinked, TimesOrdered;
    var buffers := GrowBodies(s, sizes).buffers;
    if i :| 0 <= i < |buffers| && buffers[i].index != i {
      StrayIff(s, sizes, i + 1);
    }
    if b :| 0 <= b < |sizes| - 1 && RisesAfterFall(s, sizes, b) {
      StrayIff(s, sizes, Wanted(s, sizes[b]) + Lost(s, sizes[..b + 1]) + 1);
    }
  }

  // ---------------------------------------------------------------- shared buffers

  /** Two of the first `n` buffers carry the same index. */
  predicate Twins(buffers: seq<Buffer>, n: int) {
    exists i, j :: 0 <= i < j < |buffers| && j < n && buffers[i].index == buffers[j].index
  }

  lemma {:induction false} IndicesLow(s: Store, sizes: seq<int>)
    requires Passed(s, sizes)
    ensures forall i :: 0 <= i < |GrowBodies(s, sizes).buffers| ==> 0 <= GrowBodies(s, sizes).buffers[i].index <= i
  {
    hide PoolSize, PiecesLinked, TimesOrdered, Lost;
    if sizes != [] {
      var front := sizes[..|sizes| - 1];
      IndicesLow(s, front);
      BodiesSurplus(s, front);
      WantedGrows(s, sizes[|sizes| - 1]);
    }
  }

  /** If no index is above its position, the first stray one repeats an index before it. */
  lemma {:induction false} TwinsIff(buffers: seq<Buffer>, n: nat)
    requires n <= |buffers| && forall i :: 0 <= i < |buffers| ==> 0 <= buffers[i].index <= i
    ensures Twins(buffers, n) <==> StrayBefore(buffers, n)
  {
    if n > 0 {
      TwinsIff(buffers, n - 1);
      var i := buffers[n - 1].index;
      if !StrayBefore(buffers, n - 1) && i < n - 1 {
        assert buffers[i].index == i;
        assert Twins(buffers, n);
      }
    }
  }

  /** A writer's search after overlapping growths: it looks at `bufferSize` buffers, however many
      there are. */
  function GetScanned(s: Store, p: int): Store
    requires IsPiece(s, p) && 0 <= s.bufferSize <= |s.buffers|
  {
    var i := FirstFree(s.buffers[..s.bufferSize], 0);
    if s.pieces[p].IsBuffered() || i == s.bufferSize then s else Assign(s, p, i)
  }

  /** A consistent store has no more than that. */
  lemma ScanIsGetBuffer(s: Store, p: int)
    requires Inv(s) && s.isInitialized && IsPiece(s, p)
    ensures GetScanned(s, p) == GetWriteBuffer(s, p)
  {
    assert s.buffers[..s.bufferSize] == s.buffers;
  }

  /** The state after writers asked for the buffers of the pieces before `n`, in order. */
  function GotBuffers(s: Store, n: nat): (t: Store)
    requires n <= |s.pieces| && 0 <= s.bufferSize <= |s.buffers|
    ensures |t.pieces| == |s.pieces| && t.bufferSize == s.bufferSize && |t.buffers| == |s.buffers|
  {
    if n == 0 then s else GetScanned(GotBuffers(s, n - 1), n - 1)
  }

  /** Buffer `j` is used for piece `p`. */
  predicate UsedFor(s: Store, j: int, p: int) {
    0 <= j < |s.buffers| && s.buffers[j].isUsed && s.buffers[j].pi == p
  }

  /** What is left of the links: used buffers are among those scanned and are used for different
      pieces, each linked to the index that its buffer carries. */
  ghost predicate HalfLinked(s: Store) {
    && 0 <= s.bufferSize <= |s.buffers| && s.bufferSize <= |s.pieces|
    && (forall p :: 0 <= p < |s.pieces| ==> s.pieces[p].index == p)
    && (forall j :: 0 <= j < |s.buffers| ==> 0 <= s.buffers[j].index <= j)
    && (forall j, p :: UsedFor(s, j, p) ==> j < s.bufferSize && IsPiece(s, p) && s.pieces[p].bi == s.buffers[j].index)
    && (forall j, k, p :: UsedFor(s, j, p) && UsedFor(s, k, p) ==> j == k)
    && (forall p :: Resident(s, p) ==> exists j :: UsedFor(s, j, p))
  }

  /** Growths leave the buffers there were, and the new ones are unused. */
  lemma {:induction false} BodiesExtend(s: Store, sizes: seq<int>)
    requires Passed(s, sizes)
    ensures var t := GrowBodies(s, sizes).buffers;
            && |s.buffers| <= |t| && t[..|s.buffers|] == s.buffers
            && forall i :: |s.buffers| <= i < |t| ==> !t[i].isUsed
  {
    hide PoolSize, PiecesLinked, BuffersLinked, TimesOrdered;
    if sizes != [] {
      BodiesExtend(s, sizes[..|sizes| - 1]);
      WantedGrows(s, sizes[|sizes| - 1]);
    }
  }

  lemma BodiesHalfLinked(s: Store, sizes: seq<int>)
    requires Passed(s, sizes)
    ensures HalfLinked(GrowBodies(s, sizes))
  {
    hide GrowBodies, Lost, TimesOrdered;
    var t := GrowBodies(s, sizes);
    BodiesExtend(s, sizes);
    BodiesSurplus(s, sizes);
    IndicesLow(s, sizes);
    FitsPieces(s, sizes);
    assert forall i :: 0 <= i < |s.buffers| ==> t.buffers[i] == s.buffers[i];
    forall p | Resident(t, p)
      ensures UsedFor(t, t.pieces[p].bi, p)
    {
      assert Resident(s, p);
    }
  }

  lemma FitsPieces(s: Store, sizes: seq<int>)
    requires Passed(s, sizes)
    ensures s.bufferSize <= GrowBodies(s, sizes).bufferSize <= |s.pieces|
  {
    if sizes != [] {
      WantedGrows(s, sizes[|sizes| - 1]);
    }
  }

  /** All buffers that a writer looks at are used. */
  predicate Exhausted(s: Store) {
    forall i :: 0 <= i < |s.buffers| && i < s.bufferSize ==> s.buffers[i].isUsed
  }

  lemma GetKeepsHalfLinked(s: Store, p: int)
    requires HalfLinked(s) && IsPiece(s, p)
    ensures var t := GetScanned(s, p);
            && HalfLinked(t) && (Exhausted(s) ==> Exhausted(t)) && (Resident(t, p) || Exhausted(t))
            && (forall q :: Resident(s, q) ==> Resident(t, q))
            && (forall j :: 0 <= j < |s.buffers| ==> t.buffers[j].index == s.buffers[j].index)
  {
    var scanned := s.buffers[..s.bufferSize];
    var i, t := FirstFree(scanned, 0), GetScanned(s, p);
    assert forall j :: 0 <= j < |scanned| ==> scanned[j] == s.buffers[j];
    if !s.pieces[p].IsBuffered() && i < s.bufferSize {
      assert UsedFor(t, i, p);
      assert forall j, q :: j != i ==> (UsedFor(t, j, q) <==> UsedFor(s, j, q));
      assert forall q :: q != p && Resident(t, q) ==> Resident(s, q);
    }
  }

  lemma {:induction false} GotKeepsHalfLinked(s: Store, n: nat)
    requires HalfLinked(s) && n <= |s.pieces|
    ensures var t := GotBuffers(s, n);
            && HalfLinked(t) && (Exhausted(t) || forall p :: 0 <= p < n ==> Resident(t, p))
            && (forall j :: 0 <= j < |s.buffers| ==> t.buffers[j].index == s.buffers[j].index)
  {
    assert 0 <= s.bufferSize <= |s.buffers|;
    hide HalfLinked, Exhausted, GetScanned;
    if n > 0 {
      GotKeepsHalfLinked(s, n - 1);
      GetKeepsHalfLinked(GotBuffers(s, n - 1), n - 1);
    }
  }

  lemma UsedAreScanned(s: Store)
    requires HalfLinked(s)
    ensures UsedBuffers(s) <= Range(s.bufferSize)
  {
    assert forall j :: j in UsedBuffers(s) ==> UsedFor(s, j, s.buffers[j].pi);
  }

  lemma ResidentAreServed(s: Store)
    requires HalfLinked(s) && forall p :: 0 <= p < |s.pieces| ==> Resident(s, p)
    ensures Range(|s.pieces|) <= PiecesOf(s, UsedBuffers(s))
  {
    forall p | 0 <= p < |s.pieces|
      ensures p in PiecesOf(s, UsedBuffers(s))
    {
      assert Resident(s, p);
      var j :| UsedFor(s, j, p);
      assert j in UsedBuffers(s);
    }
  }

  /** When every piece has a buffer, every scanned buffer is used, since there are no more of them
      than pieces. */
  lemma AllResidentExhausts(s: Store)
    requires HalfLinked(s) && forall p :: 0 <= p < |s.pieces| ==> Resident(s, p)
    ensures Exhausted(s)
  {
    assert 0 <= s.bufferSize <= |s.pieces|;
    hide HalfLinked, PiecesOf, UsedBuffers, Exhausted;
    UsedAreScanned(s);
    ResidentAreServed(s);
    ImageCard(s, UsedBuffers(s));
    SubsetCard(Range(|s.pieces|), PiecesOf(s, UsedBuffers(s)));
    SubsetEqual(UsedBuffers(s), Range(s.bufferSize));
    AllInRange(s);
  }

  lemma AllInRange(s: Store)
    requires 0 <= s.bufferSize && UsedBuffers(s) == Range(s.bufferSize)
    ensures Exhausted(s)
  {
    forall i | 0 <= i < |s.buffers| && i < s.bufferSize
      ensures s.buffers[i].isUsed
    {
      assert i in Range(s.bufferSize);
    }
  }

  lemma {:induction false} ImageCard(s: Store, js: set<int>)
    requires forall j :: j in js ==> 0 <= j < |s.buffers|
    ensures |PiecesOf(s, js)| <= |js|
    decreases |js|
  {
    if js == {} {
      assert PiecesOf(s, js) == {};
    } else {
      var i := InDifference(js, {});
      ImageCard(s, js - {i});
      assert PiecesOf(s, js) == PiecesOf(s, js - {i}) + {s.buffers[i].pi};
    }
  }

  /** Two pieces are linked to the same buffer. */
  predicate Shared(s: Store) {
    exists p, q :: 0 <= p < q < |s.pieces| && s.pieces[p].bi == s.pieces[q].bi != -1
  }

  lemma SharedAreTwins(s: Store)
    requires HalfLinked(s) && Exhausted(s)
    ensures Shared(s) <==> Twins(s.buffers, s.bufferSize)
  {
    if p, q :| 0 <= p < q < |s.pieces| && s.pieces[p].bi == s.pieces[q].bi != -1 {
      assert Resident(s, p) && Resident(s, q);
      var i :| UsedFor(s, i, p);
      var j :| UsedFor(s, j, q);
      assert s.buffers[i].index == s.buffers[j].index;
      assert Twins(s.buffers, s.bufferSize);
    }
    if i, j :| 0 <= i < j < |s.buffers| && j < s.bufferSize && s.buffers[i].index == s.buffers[j].index {
      var p, q := s.buffers[i].pi, s.buffers[j].pi;
      assert UsedFor(s, i, p) && UsedFor(s, j, q);
      assert s.pieces[p].bi == s.pieces[q].bi;
      assert Shared(s);
    }
  }

  /** Two buffers that a writer may get carry the same index if and only if the wanted number rises
      after a fall while the pool has fewer buffers than are wanted in the end. */
  lemma SameIndexIff(s: Store, sizes: seq<int>)
    requires Passed(s, sizes)
    ensures var t := GrowBodies(s, sizes); Twins(t.buffers, t.bufferSize) <==> RisesBefore(s, sizes, t.bufferSize)
  {
    hide RisesBefore, Twins, StrayBefore, Wanted, Lost, PiecesLinked, BuffersLinked, TimesOrdered;
    BodiesSurplus(s, sizes);
    IndicesLow(s, sizes);
    StrayIff(s, sizes, GrowBodies(s, sizes).bufferSize);
    TwinsIff(GrowBodies(s, sizes).buffers, GrowBodies(s, sizes).bufferSize);
  }

  /** And exactly then two pieces are linked to one buffer once writers have asked for all pieces. */
  lemma SharedIff(s: Store, sizes: seq<int>)
    requires Passed(s, sizes)
    ensures var t := GrowBodies(s, sizes);
            && t.bufferSize <= |t.buffers|
            && (Shared(GotBuffers(t, |t.pieces|)) <==> RisesBefore(s, sizes, t.bufferSize))
  {
    hide RisesBefore, Twins, Shared, Exhausted, Wanted, Lost, PiecesLinked, BuffersLinked, TimesOrdered;
    var t := GrowBodies(s, sizes);
    BodiesHalfLinked(s, sizes);
    GotKeepsHalfLinked(t, |t.pieces|);
    var u := GotBuffers(t, |t.pieces|);
    if !Exhausted(u) {
      AllResidentExhausts(u);
    }
    SharedAreTwins(u);
    SameTwins(t.buffers, u.buffers, t.bufferSize);
    SameIndexIff(s, sizes);
  }

  lemma SameTwins(a: seq<Buffer>, b: seq<Buffer>, n: int)
    requires |a| == |b| && forall i :: 0 <= i < |a| ==> a[i].index == b[i].index
    ensures Twins(a, n) == Twins(b, n)
  {
  }

  // ---------------------------------------------------------------- two inputs

  /** Six pieces of one byte, memory for two. */
  const TwoOfSix: Config := Config(2, 1, [1, 1, 1, 1, 1, 1], [0, 0, 0, 0, 0, 0], {}, 1)

  lemma StartOfExample() returns (s: Store)
    ensures s == Initialize(NewStore(TwoOfSix)) && s.capacity == 2 && s.pieceLength == 1 && |s.pieces| == 6
    ensures Inv(s) && s.isInitialized && forall n :: 0 <= n <= 6 ==> Wanted(s, n) == n
  {
    NewKeepsInv(TwoOfSix);
    InitializeKeepsInv(NewStore(TwoOfSix));
    s := Initialize(NewStore(TwoOfSix));
  }

  lemma LostOfExample(s: Store)
    requires s.pieceLength == 1 && |s.pieces| == 6
    ensures Lost(s, [4]) == 0 && Lost(s, [4, 3]) == 1
  {
    assert [4, 3][..1] == [4];
  }

  /** After overlapping calls for 4, 3 and 5 buffers the fifth carries index 3, and two of the
      written pieces are linked to one buffer. */
  lemma TwoPiecesShareBuffer()
    ensures var s, sizes := Initialize(NewStore(TwoOfSix)), [4, 3, 5];
            && Passed(s, sizes) && GrowBodies(s, sizes).bufferSize == 5 <= |GrowBodies(s, sizes).buffers|
            && Shared(GotBuffers(GrowBodies(s, sizes), 6))
  {
    hide GrowBodies, GotBuffers, Lost, Inv, Shared;
    var s := StartOfExample();
    var sizes := [4, 3, 5];
    LostOfExample(s);
    SharedIff(s, sizes);
    assert sizes[..1 + 1] == [4, 3];
    assert RisesAfterFall(s, sizes, 1);
  }

  /** With a fourth call for 3 buffers there is still a stray index, but no writer looks that far. */
  lemma StrayOutOfReach()
    ensures var s, sizes := Initialize(NewStore(TwoOfSix)), [4, 3, 5, 3];
            && Passed(s, sizes) && GrowBodies(s, sizes).bufferSize == 3 <= |GrowBodies(s, sizes).buffers|
            && !Indexed(GrowBodies(s, sizes).buffers) && !Shared(GotBuffers(GrowBodies(s, sizes), 6))
  {
    hide GrowBodies, GotBuffers, Lost, Inv, Shared, Indexed;
    var s := StartOfExample();
    var sizes := [4, 3, 5, 3];
    LostOfExample(s);
    SharedIff(s, sizes);
    IndexedIff(s, sizes);
    assert sizes[..0 + 1] == [4] && sizes[..1 + 1] == [4, 3];
    assert RisesAfterFall(s, sizes, 1);
  }
}
