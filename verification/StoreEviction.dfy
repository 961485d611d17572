/** What the trim loop evicts, and when it ends. */
module StoreEviction {
  import opened Arithmetic
  import opened StoreModel

  /** The buffers that trimming may take while piece `pi` is protected. */
  ghost function Evictable(s: Store, pi: int): set<int>
    requires Inv(s)
  {
    set i | 0 <= i < |s.buffers| && Candidate(s, i, pi, false)
  }

  /** Eviction order: pieces no reader wants first, then the least recently accessed. */
  predicate Before(s: Store, i: int, j: int)
    requires Inv(s) && i in UsedBuffers(s) && j in UsedBuffers(s)
  {
    var wantedI, wantedJ := IsReadered(s, s.buffers[i].pi), IsReadered(s, s.buffers[j].pi);
    (!wantedI && wantedJ) || (wantedI == wantedJ && s.buffers[i].accessed < s.buffers[j].accessed)
  }

  /** The number of evictions that bring the use count below the limit. */
  function Needed(s: Store): int { s.bufferUsed - s.bufferLimit + 1 }

  /** The buffers freed between two states. */
  ghost function Freed(s: Store, t: Store): set<int> { UsedBuffers(s) - UsedBuffers(t) }

  ghost function PiecesOf(s: Store, buffers: set<int>): set<int>
    requires forall i :: i in buffers ==> 0 <= i < |s.buffers|
  {
    set i | i in buffers :: s.buffers[i].pi
  }

  // ---------------------------------------------------------------- one scan

  /** The scan finds a candidate if there is one, and then the least recently accessed. */
  lemma {:induction false} ScanFindsOldest(s: Store, pi: int, checkRead: bool, n: nat)
    requires Inv(s) && n <= |s.buffers|
    ensures var r := FindLast(s, pi, checkRead, n);
            && (r == -1 ==> forall j :: 0 <= j < n ==> !Candidate(s, j, pi, checkRead))
            && (r != -1 ==> forall j :: 0 <= j < n && Candidate(s, j, pi, checkRead) ==>
                  s.buffers[r].accessed <= s.buffers[j].accessed)
  {
    hide Shape, PiecesLinked, IsReserved, IsReadered;
    if n > 0 {
      ScanFindsOldest(s, pi, checkRead, n - 1);
    }
  }

  /** The two scans together take the first evictable buffer in eviction order. */
  lemma VictimIsFirst(s: Store, pi: int)
    requires Inv(s)
    ensures Victim(s, pi) == -1 <==> Evictable(s, pi) == {}
    ensures Victim(s, pi) != -1 ==> Victim(s, pi) in Evictable(s, pi)
    ensures Victim(s, pi) != -1 ==>
              forall e :: e in Evictable(s, pi) && e != Victim(s, pi) ==> Before(s, Victim(s, pi), e)
  {
    hide FindLast, PiecesLinked;
    ScanFindsOldest(s, pi, true, |s.buffers|);
    ScanFindsOldest(s, pi, false, |s.buffers|);
    if Victim(s, pi) == -1 {
      assert forall j :: 0 <= j < |s.buffers| ==> !Candidate(s, j, pi, false);
      assert Evictable(s, pi) == {};
    } else {
      var v := Victim(s, pi);
      assert v in Evictable(s, pi);
      forall e | e in Evictable(s, pi) && e != v
        ensures Before(s, v, e)
      {
        assert Candidate(s, e, pi, true) == !IsReadered(s, s.buffers[e].pi);
      }
    }
  }

  // ---------------------------------------------------------------- one turn

  /** A piece that is evicted is reset, loses its priority and is no longer held; nothing else of
      the pieces, the picker, the reserved set or the sizes changes. */
  ghost predicate PickerAfter(s: Store, t: Store, gone: set<int>) {
    && |t.priority| == |s.priority|
    && (forall p :: 0 <= p < |s.priority| ==> t.priority[p] == if s.isHandled && p in gone then 0 else s.priority[p])
    && t.have == (if s.isHandled then s.have - gone else s.have)
    && t.pieceLength == s.pieceLength && t.capacity == s.capacity && t.bufferSize == s.bufferSize
    && t.reserved == s.reserved && t.isInitialized == s.isInitialized && t.isHandled == s.isHandled
    && |t.pieces| == |s.pieces| && s.clock <= t.clock
    && (forall p :: 0 <= p < |s.pieces| ==> t.pieces[p] == if p in gone then s.pieces[p].Reset() else s.pieces[p])
  }

  lemma RemovePicker(s: Store, bi: int)
    requires Inv(s) && 0 <= bi < |s.buffers| && s.buffers[bi].isUsed
    ensures PickerAfter(s, RemovePiece(s, bi), {s.buffers[bi].pi})
  {
  }

  lemma RemoveContents(s: Store, bi: int)
    requires Inv(s) && 0 <= bi < |s.buffers| && s.buffers[bi].isUsed
    ensures Inv(RemovePiece(s, bi))
    ensures Contents(RemovePiece(s, bi)) == Contents(s) - {s.buffers[bi].pi}
  {
    hide TimesOrdered, Shape;
    RemoveKeepsInv(s, bi);
    var p := s.buffers[bi].pi;
    var t := RemovePiece(s, bi);
    assert t.pieces == s.pieces[p := s.pieces[p].Reset()];
    assert forall q :: 0 <= q < |s.pieces| && q != p && s.pieces[q].IsBuffered() ==>
                         s.pieces[q].bi != bi && t.buffers[s.pieces[q].bi] == s.buffers[s.pieces[q].bi];
  }

  /** An evicting turn frees its victim, whose piece alone leaves the contents. */
  lemma TurnContents(s: Store, pi: int)
    requires Inv(s) && Victim(s, pi) != -1
    ensures Inv(TrimTurn(s, pi))
    ensures Contents(TrimTurn(s, pi)) == Contents(s) - {s.buffers[Victim(s, pi)].pi}
    ensures PickerAfter(s, TrimTurn(s, pi), {s.buffers[Victim(s, pi)].pi})
    ensures |TrimTurn(s, pi).buffers| == |s.buffers|
    ensures forall i :: 0 <= i < |s.buffers| && i != Victim(s, pi) ==> TrimTurn(s, pi).buffers[i] == s.buffers[i]
    ensures Needed(TrimTurn(s, pi)) == Needed(s) - 1
    ensures TrimTurn(s, pi).bufferLimit == s.bufferLimit
  {
    hide FindLast, Inv, Contents;
    var ticks := if FindLast(s, pi, true, |s.buffers|) != -1 then 1 else 2;
    var t := s.(clock := s.clock + ticks);
    Tick(s, ticks);
    assert TrimTurn(s, pi) == RemovePiece(t, Victim(s, pi));
    RemoveContents(t, Victim(s, pi));
    RemovePicker(t, Victim(s, pi));
  }

  /** Turns leave the order and the set of the other evictable buffers alone. */
  lemma TurnKeepsOrder(s: Store, pi: int)
    requires Inv(s) && Victim(s, pi) != -1
    ensures Inv(TrimTurn(s, pi))
    ensures Evictable(TrimTurn(s, pi), pi) == Evictable(s, pi) - {Victim(s, pi)}
    ensures UsedBuffers(TrimTurn(s, pi)) <= UsedBuffers(s)
    ensures forall i, j :: i in Evictable(TrimTurn(s, pi), pi) && j in Evictable(TrimTurn(s, pi), pi) ==>
              (Before(TrimTurn(s, pi), i, j) <==> Before(s, i, j))
  {
    hide TrimTurn, Victim, Contents, FindLast, TimesOrdered;
    TurnEvicts(s, pi);
    TurnContents(s, pi);
    var t, v := TrimTurn(s, pi), Victim(s, pi);
    forall i | 0 <= i < |s.buffers| && i != v && s.buffers[i].isUsed
      ensures t.buffers[i] == s.buffers[i] && IsReadered(t, s.buffers[i].pi) == IsReadered(s, s.buffers[i].pi)
    {
      assert s.buffers[i].pi != s.buffers[v].pi;
    }
  }

  // ---------------------------------------------------------------- the loop

  /** What a state and the state that the trim loop leaves have to do with each other. */
  ghost predicate Trimmed(s: Store, pi: int, r: TrimResult)
    requires Inv(s)
  {
    var t, gone := r.store, Freed(s, r.store);
    && Inv(t) && UsedBuffers(t) <= UsedBuffers(s) && |t.buffers| == |s.buffers|
    && gone <= Evictable(s, pi)
    && |gone| == (if Needed(s) <= 0 then 0 else Min(Needed(s), |Evictable(s, pi)|))
    && (r.halts <==> Needed(s) <= |Evictable(s, pi)|)
    && t.bufferUsed == s.bufferUsed - |gone| && t.bufferLimit == s.bufferLimit
    && (forall v, e :: v in gone && e in Evictable(s, pi) && e !in gone ==> Before(s, v, e))
  }

  /** A set of evictable buffers that come before all the others. */
  ghost predicate FirstOnes(s: Store, pi: int, some: set<int>)
    requires Inv(s)
  {
    some <= Evictable(s, pi) && forall v, e :: v in some && e in Evictable(s, pi) && e !in some ==> Before(s, v, e)
  }

  lemma FirstOnesNested(s: Store, pi: int, a: set<int>, b: set<int>)
    requires Inv(s) && FirstOnes(s, pi, a) && FirstOnes(s, pi, b)
    ensures a <= b || b <= a
  {
    hide PiecesLinked, BuffersLinked, TimesOrdered, Shape;
    if !(a <= b) {
      var x :| x in a && x !in b;
      assert forall y :: y in b && y !in a ==> Before(s, x, y) && Before(s, y, x);
    }
  }

  /** There is only one such set of each size, since eviction order is strict. */
  lemma FirstOnesUnique(s: Store, pi: int, a: set<int>, b: set<int>)
    requires Inv(s) && FirstOnes(s, pi, a) && FirstOnes(s, pi, b) && |a| == |b|
    ensures a == b
  {
    FirstOnesNested(s, pi, a, b);
    assert a <= b ==> b == a + (b - a);
    assert b <= a ==> a == b + (a - b);
  }

  /** The trim loop evicts exactly as many buffers as are needed, the first ones in eviction
      order, never the protected or a reserved piece; it ends exactly when there are that many. */
  lemma {:induction false} TrimTakesFirst(s: Store, pi: int)
    requires Inv(s)
    ensures Trimmed(s, pi, TrimLoop(s, pi))
    decreases |UsedBuffers(s)|
  {
    hide Inv, TrimTurn, Victim, FindLast, Evictable, Before, UsedBuffers;
    VictimIsFirst(s, pi);
    if !MustTrim(s) {
      assert Freed(s, s) == {};
    } else if Victim(s, pi) == -1 {
      TurnEvicts(s, pi);
      assert Freed(s, TrimTurn(s, pi)) == {};
    } else {
      var t, v := TrimTurn(s, pi), Victim(s, pi);
      TurnEvicts(s, pi);
      TurnKeepsOrder(s, pi);
      TurnContents(s, pi);
      TrimTakesFirst(t, pi);
      TrimmedNext(s, pi, t, v, TrimLoop(t, pi));
    }
  }

  /** One eviction more, before the others. */
  lemma TrimmedNext(s: Store, pi: int, t: Store, v: int, r: TrimResult)
    requires Inv(s) && Inv(t) && Trimmed(t, pi, r) && 0 < Needed(s) && |t.buffers| == |s.buffers|
    requires UsedBuffers(t) == UsedBuffers(s) - {v} && v in UsedBuffers(s) && v in Evictable(s, pi)
    requires Evictable(t, pi) == Evictable(s, pi) - {v}
    requires Needed(t) == Needed(s) - 1 && t.bufferLimit == s.bufferLimit
    requires forall e :: e in Evictable(s, pi) && e != v ==> Before(s, v, e)
    requires forall i, j :: i in Evictable(t, pi) && j in Evictable(t, pi) ==> (Before(t, i, j) <==> Before(s, i, j))
    ensures Trimmed(s, pi, r)
  {
    hide Inv, Evictable, Before, UsedBuffers;
    assert Freed(s, r.store) == Freed(t, r.store) + {v};
  }

  lemma PickerChain(s: Store, t: Store, u: Store, first: set<int>, rest: set<int>)
    requires PickerAfter(s, t, first) && PickerAfter(t, u, rest)
    ensures PickerAfter(s, u, first + rest)
  {
  }

  /** A state from which only whole pieces were evicted: every other piece keeps its buffer and
      its bytes. */
  ghost predicate OnlyEvicted(s: Store, t: Store)
    requires Inv(s)
  {
    && Inv(t) && |t.buffers| == |s.buffers| && UsedBuffers(t) <= UsedBuffers(s)
    && Contents(t) == Contents(s) - PiecesOf(s, Freed(s, t))
    && PickerAfter(s, t, PiecesOf(s, Freed(s, t)))
    && (forall i :: i in UsedBuffers(t) ==> t.buffers[i] == s.buffers[i])
  }

  lemma OnlyEvictedChain(s: Store, t: Store, u: Store)
    requires Inv(s) && OnlyEvicted(s, t) && OnlyEvicted(t, u)
    ensures OnlyEvicted(s, u)
  {
    hide Inv, Contents, PickerAfter;
    assert Freed(s, u) == Freed(s, t) + Freed(t, u);
    var first, rest := PiecesOf(s, Freed(s, t)), PiecesOf(t, Freed(t, u));
    assert PiecesOf(s, Freed(s, u)) == first + rest;
    PickerChain(s, t, u, first, rest);
  }

  lemma OnlyEvictedShape(s: Store, t: Store)
    requires Inv(s) && OnlyEvicted(s, t)
    ensures t.pieceLength == s.pieceLength && |t.pieces| == |s.pieces| && |t.buffers| == |s.buffers|
            && t.reserved == s.reserved
    ensures t.isInitialized == s.isInitialized && t.bufferSize == s.bufferSize && t.capacity == s.capacity
  {
  }

  lemma OnlyEvictedTick(s: Store, k: nat)
    requires Inv(s)
    ensures Inv(s.(clock := s.clock + k)) && OnlyEvicted(s, s.(clock := s.clock + k))
  {
    var t := s.(clock := s.clock + k);
    Tick(s, k);
    assert Freed(s, t) == {} && PiecesOf(s, {}) == {};
    assert s.have - {} == s.have;
  }

  lemma OnlyEvictedTurn(s: Store, pi: int)
    requires Inv(s) && Victim(s, pi) != -1
    ensures Inv(TrimTurn(s, pi)) && OnlyEvicted(s, TrimTurn(s, pi))
  {
    hide Inv, TrimTurn, Victim, FindLast, Contents, PickerAfter;
    TurnEvicts(s, pi);
    TurnContents(s, pi);
    assert Freed(s, TrimTurn(s, pi)) == {Victim(s, pi)};
    assert PiecesOf(s, {Victim(s, pi)}) == {s.buffers[Victim(s, pi)].pi};
  }

  /** Trimming deletes whole pieces from the contents and changes no byte of the others. */
  lemma {:induction false} TrimOnlyEvicts(s: Store, pi: int)
    requires Inv(s)
    ensures OnlyEvicted(s, TrimLoop(s, pi).store)
    decreases |UsedBuffers(s)|
  {
    hide Inv, TrimTurn, Victim, FindLast, OnlyEvicted;
    TurnEvicts(s, pi);
    if !MustTrim(s) {
      OnlyEvictedTick(s, 0);
    } else if Victim(s, pi) == -1 {
      OnlyEvictedTick(s, 2);
    } else {
      OnlyEvictedTurn(s, pi);
      TrimOnlyEvicts(TrimTurn(s, pi), pi);
      OnlyEvictedChain(s, TrimTurn(s, pi), TrimLoop(s, pi).store);
    }
  }

  /** The state after `k` turns of the loop, or after the loop's end if that comes first. */
  function AfterTurns(s: Store, pi: int, k: nat): (t: Store)
    requires Inv(s)
    ensures Inv(t)
    decreases k
  {
    TurnEvicts(s, pi);
    if k == 0 || !MustTrim(s) then s else AfterTurns(TrimTurn(s, pi), pi, k - 1)
  }

  /** A loop without a victim turns for ever: no number of turns brings it to its end. */
  lemma {:induction false} SpinsForever(s: Store, pi: int, k: nat)
    requires Inv(s) && MustTrim(s) && Evictable(s, pi) == {}
    ensures MustTrim(AfterTurns(s, pi, k))
    decreases k
  {
    if k > 0 {
      VictimIsFirst(s, pi);
      TurnEvicts(s, pi);
      var t := TrimTurn(s, pi);
      assert Evictable(t, pi) == {};
      SpinsForever(t, pi, k - 1);
    }
  }

  lemma {:induction false} EndsWhenHalting(s: Store, pi: int) returns (k: nat)
    requires Inv(s) && TrimLoop(s, pi).halts
    ensures AfterTurns(s, pi, k) == TrimLoop(s, pi).store && !MustTrim(AfterTurns(s, pi, k))
    decreases |UsedBuffers(s)|
  {
    TurnEvicts(s, pi);
    if !MustTrim(s) {
      k := 0;
    } else {
      k := EndsWhenHalting(TrimTurn(s, pi), pi);
      k := k + 1;
    }
  }

  lemma {:induction false} NeverEnds(s: Store, pi: int, k: nat)
    requires Inv(s) && !TrimLoop(s, pi).halts
    ensures MustTrim(AfterTurns(s, pi, k))
    decreases k
  {
    hide Inv, TrimTurn, Victim, FindLast;
    TurnEvicts(s, pi);
    VictimIsFirst(s, pi);
    if Victim(s, pi) == -1 {
      SpinsForever(s, pi, k);
    } else if k > 0 {
      NeverEnds(TrimTurn(s, pi), pi, k - 1);
    }
  }

  /** The trim loop ends if and only if there are as many evictable buffers as it has to evict. */
  lemma TrimEndsIff(s: Store, pi: int)
    requires Inv(s)
    ensures (exists k: nat :: !MustTrim(AfterTurns(s, pi, k))) <==> Needed(s) <= |Evictable(s, pi)|
  {
    TrimTakesFirst(s, pi);
    if TrimLoop(s, pi).halts {
      var k := EndsWhenHalting(s, pi);
    } else {
      forall k: nat
        ensures MustTrim(AfterTurns(s, pi, k))
      {
        NeverEnds(s, pi, k);
      }
    }
  }
}
