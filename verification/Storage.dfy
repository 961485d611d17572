/** The store as the program has it: an object whose methods update its fields, with the loops of
    src/bittorrent/memory_storage.cpp. Every method is proved to do to the state what StoreModel
    and StoreOps say. */
module Storage {
  import opened Arithmetic
  import opened StoreModel
  import opened StoreOps
  import opened StoreRuns

  class MemoryStorage {
    const pieceLength: int
    var capacity: int
    var pieces: seq<Piece>
    var buffers: seq<Buffer>
    var bufferSize: int
    var bufferLimit: int
    var bufferUsed: int
    var reserved: set<int>
    var isInitialized: bool
    var isHandled: bool
    var priority: seq<int>
    var have: set<int>
    var clock: int

    ghost function State(): Store
      reads this
    {
      Store(pieceLength, capacity, pieces, buffers, bufferSize, bufferLimit, bufferUsed, reserved,
            isInitialized, isHandled, priority, have, clock)
    }

    ghost predicate Valid()
      reads this
    {
      Inv(State())
    }

    constructor (c: Config)
      requires ConfigOk(c)
      ensures Valid() && State() == NewStore(c) && |pieces| == |c.lengths| && !isInitialized && !isHandled
      ensures forall p :: 0 <= p < |pieces| ==> pieces[p].length == c.lengths[p] && !pieces[p].IsBuffered()
      ensures bufferLimit == bufferSize == Min(CeilDiv(c.capacity, c.pieceLength), |c.lengths|) && bufferUsed == 0
      ensures capacity == c.capacity && reserved == {} && buffers == [] && priority == c.priority && have == c.have
    {
      pieceLength, capacity := c.pieceLength, c.capacity;
      priority, have, clock := c.priority, c.have, c.clock;
      var list: seq<Piece> := [];
      for i := 0 to |c.lengths|
        invariant |list| == i
        invariant forall j :: 0 <= j < i ==> list[j] == Piece(j, c.lengths[j], 0, -1)
      {
        list := list + [Piece(i, c.lengths[i], 0, -1)];
      }
      pieces, buffers := list, [];
      var size := CeilDiv(c.capacity, c.pieceLength);
      if size > |c.lengths| {
        size := |c.lengths|;
      }
      bufferSize, bufferLimit, bufferUsed := size, size, 0;
      reserved, isInitialized, isHandled := {}, false, false;
      NewKeepsInv(c);
    }

    /** The current time; it moves on at every reading. */
    method Now() returns (t: int)
      modifies this`clock
      ensures t == old(clock) && clock == old(clock) + 1
    {
      t := clock;
      clock := clock + 1;
    }

    method AddBuffers(from: nat, to: nat)
      requires from <= to && pieceLength > 0
      modifies this`buffers
      ensures buffers == old(buffers) + FreshBuffers(from, to, pieceLength)
    {
      var list := buffers;
      for i := from to to
        invariant list == old(buffers) + FreshBuffers(from, i, pieceLength)
      {
        list := list + [FreshBuffer(i, pieceLength)];
        assert FreshBuffers(from, i + 1, pieceLength) ==
               FreshBuffers(from, i, pieceLength) + [FreshBuffer(i, pieceLength)];
      }
      buffers := list;
    }

    method InitializePool()
      requires Valid() && !isInitialized
      modifies this
      ensures Valid() && State() == Initialize(old(State()))
    {
      InitializeKeepsInv(State());
      assert buffers == [];
      AddBuffers(0, bufferSize);
      isInitialized := true;
    }

    method SetMemorySize(size: int)
      requires Valid() && isInitialized
      modifies this
      ensures Valid() && State() == Grow(old(State()), size)
    {
      GrowKeepsInv(State(), size);
      if size <= capacity {
        return;
      }
      GrowKeepsPool(State(), size);
      capacity := size;
      var previous := bufferSize;
      bufferSize := CeilDiv(capacity, pieceLength);
      if bufferSize > |pieces| {
        bufferSize := |pieces|;
      }
      bufferLimit := bufferSize;
      if previous == bufferSize {
        return;
      }
      AddBuffers(previous, bufferSize);
    }

    method SetTorrentHandle()
      requires Valid()
      modifies this
      ensures Valid() && State() == Attach(old(State()))
    {
      isHandled := true;
    }

    method UpdateReservedPieces(list: seq<int>)
      requires Valid() && forall i :: 0 <= i < |list| ==> 0 <= list[i] < |pieces| + 10
      modifies this
      ensures Valid() && State() == Reserve(old(State()), set p | p in list)
    {
      if !isInitialized {
        return;
      }
      reserved := {};
      for i := 0 to |list|
        invariant State() == old(State()).(reserved := set p | p in list[..i])
      {
        reserved := reserved + {list[i]};
        assert list[..i + 1] == list[..i] + [list[i]];
      }
      assert list[..|list|] == list;
    }

    // -------------------------------------------------------------- allocation

    method GetBuffer(p: int, isWrite: bool) returns (ok: bool)
      requires Valid() && IsPiece(State(), p) && isInitialized
      modifies this
      ensures Valid() && State() == if isWrite then GetWriteBuffer(old(State()), p) else old(State())
      ensures ok == Resident(State(), p)
    {
      GetBufferKeepsInv(State(), p);
      if pieces[p].IsBuffered() {
        return true;
      }
      if !isWrite {
        return pieces[p].IsBuffered();
      }
      var i := 0;
      while i < bufferSize && buffers[i].isUsed
        invariant 0 <= i <= bufferSize && State() == old(State())
        invariant FirstFree(buffers, 0) == FirstFree(buffers, i)
      {
        i := i + 1;
      }
      if i < bufferSize {
        var now := Now();
        buffers := buffers[i := buffers[i].(isUsed := true, pi := pieces[p].index, accessed := now)];
        pieces := pieces[p := pieces[p].(bi := buffers[i].index)];
        if p in reserved {
          bufferLimit := bufferLimit - 1;
        } else {
          bufferUsed := bufferUsed + 1;
        }
        assert State() == Assign(old(State()), p, i);
      }
      return pieces[p].IsBuffered();
    }

    // -------------------------------------------------------------- eviction

    method FindLastBuffer(pi: int, checkRead: bool) returns (bi: int)
      requires Valid()
      modifies this`clock
      ensures Valid() && State() == old(State()).(clock := old(clock) + 1)
      ensures bi == FindLast(old(State()), pi, checkRead, |buffers|)
    {
      hide Inv, Candidate;
      ghost var s := State();
      bi := -1;
      var minTime := Now();
      for i := 0 to |buffers|
        invariant State() == s.(clock := s.clock + 1)
        invariant bi == FindLast(s, pi, checkRead, i)
        invariant minTime == if bi == -1 then s.clock else buffers[bi].accessed
      {
        var b := buffers[i];
        CandidateIs(s, i, pi, checkRead);
        if b.isUsed && b.IsAssigned() && !(isInitialized && b.pi in reserved) && b.pi != pi
           && (!checkRead || !(isInitialized && (!isHandled || priority[b.pi] != 0))) && b.accessed < minTime {
          bi := b.index;
          minTime := b.accessed;
        }
      }
      Tick(s, 1);
    }

    method RestorePiece(p: int)
      requires 0 <= p < |priority|
      modifies this`priority, this`have
      ensures State() == StoreModel.RestorePiece(old(State()), p)
    {
      if !isHandled {
        return;
      }
      priority := priority[p := 0];
      have := have - {p};
    }

    method RemovePiece(bi: int)
      requires Valid() && 0 <= bi < |buffers| && buffers[bi].isUsed
      modifies this
      ensures Valid() && State() == StoreModel.RemovePiece(old(State()), bi)
    {
      RemoveKeepsInv(State(), bi);
      var p := buffers[bi].pi;
      var now := Now();
      buffers := buffers[bi := buffers[bi].Reset(now)];
      bufferUsed := bufferUsed - 1;
      if p != -1 && p < |pieces| {
        pieces := pieces[p := pieces[p].Reset()];
        RestorePiece(p);
      }
    }

    /** One turn of the trim loop; `found` says whether there was a victim. */
    method TrimOnce(pi: int) returns (found: bool)
      requires Valid()
      modifies this
      ensures Valid() && State() == TrimTurn(old(State()), pi)
      ensures found == (Victim(old(State()), pi) != -1)
    {
      hide FindLast, Shape, PiecesLinked, BuffersLinked, TimesOrdered;
      ghost var s := State();
      TurnEvicts(s, pi);
      var bi := FindLastBuffer(pi, true);
      if bi != -1 {
        RemovePiece(bi);
        return true;
      }
      FindLastIgnoresClock(s, State(), pi, false, |buffers|);
      bi := FindLastBuffer(pi, false);
      if bi != -1 {
        RemovePiece(bi);
        return true;
      }
      return false;
    }

    /** The trim loop. The source has no way out of a turn without a victim; here the loop is left
        then, and `halts` is false. */
    method TrimTo(pi: int) returns (halts: bool)
      requires Valid()
      modifies this
      ensures Valid() && TrimResult(State(), halts) == StoreModel.Trim(old(State()), pi)
    {
      hide Inv, TrimTurn, Victim;
      if capacity < 0 || bufferUsed < bufferLimit {
        return true;
      }
      while bufferUsed >= bufferLimit
        invariant Valid() && TrimLoop(State(), pi) == TrimLoop(old(State()), pi)
        decreases |UsedBuffers(State())|
      {
        TurnEvicts(State(), pi);
        var found := TrimOnce(pi);
        if !found {
          return false;
        }
      }
      return true;
    }

    // -------------------------------------------------------------- input and output

    /** The copy loop of a read: each destination in turn gets what is left of the buffer, up to
        its size. */
    static method DealOut(data: seq<Byte>, sizes: seq<nat>, offset: nat) returns (out: seq<seq<Byte>>, n: nat)
      requires offset <= |data|
      ensures out == Deal(data[offset..], sizes) && n == Min(|data| - offset, Total(sizes))
    {
      hide Deal, Total;
      out, n := [], 0;
      var fileOffset := offset;
      assert sizes[0..] == sizes;
      for i := 0 to |sizes|
        invariant fileOffset == offset + n && fileOffset <= |data|
        invariant out + Deal(data[fileOffset..], sizes[i..]) == Deal(data[offset..], sizes)
        invariant n + Min(|data| - fileOffset, Total(sizes[i..])) == Min(|data| - offset, Total(sizes))
      {
        var toCopy := Min(|data| - fileOffset, sizes[i]);
        DealNext(data, fileOffset, sizes, i);
        out := out + [data[fileOffset..fileOffset + toCopy]];
        fileOffset := fileOffset + toCopy;
        n := n + toCopy;
      }
      DealNone(data[fileOffset..]);
    }

    method Readv(sizes: seq<nat>, p: int, offset: nat) returns (out: seq<seq<Byte>>, n: nat)
      requires Valid() && IsPiece(State(), p) && offset <= pieceLength
      modifies this
      ensures Valid() && ReadResult(State(), out, n) == Read(old(State()), p, offset, sizes)
      ensures Contents(State()) == old(Contents(State()))
    {
      hide TimesOrdered, Shape, Contents, Deal, Total, Flatten, Zeros;
      ReadRefines(State(), p, offset, sizes);
      out, n := [], 0;
      if !isInitialized {
        return;
      }
      var ok := GetBuffer(p, false);
      if !ok {
        return;
      }
      out, n := DealOut(buffers[pieces[p].bi].data, sizes, offset);
      var bi := pieces[p].bi;
      var now := Now();
      buffers := buffers[bi := buffers[bi].(accessed := now)];
    }

    /** The copy loop of a write: the chunks go one after the other into the piece's buffer until
        the piece is full. */
    method CopyChunks(chunks: seq<seq<Byte>>, p: int, offset: nat) returns (n: nat)
      requires Valid() && Resident(State(), p) && offset <= pieces[p].length
      modifies this`buffers
      ensures n == |Accepted(old(State()), p, offset, chunks)|
      ensures var bi := pieces[p].bi;
              buffers == old(buffers)[bi := old(buffers)[bi].(data :=
                Overlay(old(buffers)[bi].data, offset, Accepted(old(State()), p, offset, chunks)))]
    {
      var bi, length := pieces[p].bi, pieces[p].length;
      ghost var before := buffers;
      ghost var data := buffers[bi].data;
      n := 0;
      var fileOffset := offset;
      assert Overlay(data, offset, []) == data;
      for i := 0 to |chunks|
        invariant n == Min(length - offset, |Flatten(chunks[..i])|) && fileOffset == offset + n
        invariant |buffers| == |before|
        invariant buffers == before[bi := before[bi].(data := Overlay(data, offset, Flatten(chunks[..i])[..n]))]
      {
        var b := chunks[i];
        var toCopy := Min(length - fileOffset, |b|);
        var cur := buffers[bi].data;
        buffers := buffers[bi := buffers[bi].(data := cur[..fileOffset] + b[..toCopy] + cur[fileOffset + toCopy..])];
        FlattenNext(chunks, i);
        OverlayNext(data, offset, Flatten(chunks[..i])[..n], b[..toCopy]);
        assert Flatten(chunks[..i + 1])[..n + toCopy] == Flatten(chunks[..i])[..n] + b[..toCopy];
        fileOffset := fileOffset + toCopy;
        n := n + toCopy;
      }
      assert chunks[..|chunks|] == chunks;
    }

    method StoreChunks(chunks: seq<seq<Byte>>, p: int, offset: nat) returns (n: nat)
      requires Valid() && Resident(State(), p) && offset <= pieces[p].length
      modifies this
      ensures Valid() && State() == CopyIn(old(State()), p, offset, Accepted(old(State()), p, offset, chunks))
      ensures n == |Accepted(old(State()), p, offset, chunks)|
    {
      hide TimesOrdered, Shape, Overlay, Accepted, Zeros;
      ghost var t := CopyIn(State(), p, offset, Accepted(State(), p, offset, chunks));
      CopyInKeepsInv(State(), p, offset, Accepted(State(), p, offset, chunks));
      n := CopyChunks(chunks, p, offset);
      pieces := pieces[p := pieces[p].(size := pieces[p].size + n)];
      var bi := pieces[p].bi;
      var now := Now();
      buffers := buffers[bi := buffers[bi].(accessed := now)];
      assert State() == t;
    }

    /** The written piece's bytes change as Overlay says, whole other pieces may be evicted, and
        nothing else of the contents changes (`halts` is false when the trim loop never ends). */
    method Writev(chunks: seq<seq<Byte>>, p: int, offset: nat) returns (n: nat, halts: bool)
      requires Valid() && IsPiece(State(), p) && offset <= pieces[p].length
      modifies this
      ensures Valid() && WriteResult(State(), n, halts) == Write(old(State()), p, offset, chunks)
    {
      hide PiecesLinked, BuffersLinked, TimesOrdered, TrimLoop, Overlay, FirstFree;
      ghost var s := State();
      GetBufferKeepsInv(s, p);
      WriteKeepsInv(s, p, offset, chunks);
      if !isInitialized {
        return 0, true;
      }
      var ok := GetBuffer(p, true);
      if !ok {
        return 0, true;
      }
      n := StoreChunks(chunks, p, offset);
      assert State() == BeforeTrim(s, p, offset, chunks);
      CopyKeepsInv(s, p, offset, chunks);
      halts := true;
      if bufferUsed >= bufferLimit {
        halts := TrimTo(p);
      }
    }
  }

  lemma CandidateIs(s: Store, i: int, pi: int, checkRead: bool)
    requires Inv(s) && 0 <= i < |s.buffers|
    ensures var b := s.buffers[i];
            && b.index == i && (b.isUsed ==> 0 <= b.pi < |s.priority|)
            && (Candidate(s, i, pi, checkRead) <==>
                  && b.isUsed && b.IsAssigned() && !(s.isInitialized && b.pi in s.reserved) && b.pi != pi
                  && (!checkRead || !(s.isInitialized && (!s.isHandled || s.priority[b.pi] != 0))))
  {
  }

  lemma DealNext(data: seq<Byte>, from: nat, sizes: seq<nat>, i: nat)
    requires from <= |data| && i < |sizes|
    ensures var to := from + Min(|data| - from, sizes[i]);
            Deal(data[from..], sizes[i..]) == [data[from..to]] + Deal(data[to..], sizes[i + 1..])
    ensures Total(sizes[i..]) == sizes[i] + Total(sizes[i + 1..])
  {
    var n := Min(|data| - from, sizes[i]);
    assert sizes[i..][1..] == sizes[i + 1..];
    assert data[from..][..n] == data[from..from + n];
    assert data[from..][n..] == data[from + n..];
  }

  lemma DealNone(data: seq<Byte>)
    ensures Deal(data, []) == [] && Total([]) == 0
  {
  }

  lemma FlattenNext(chunks: seq<seq<Byte>>, i: nat)
    requires i < |chunks|
    ensures Flatten(chunks[..i + 1]) == Flatten(chunks[..i]) + chunks[i]
  {
    assert chunks[..i + 1][..i] == chunks[..i];
  }

  lemma OverlayNext(data: seq<Byte>, offset: nat, first: seq<Byte>, second: seq<Byte>)
    requires offset + |first| + |second| <= |data|
    ensures var cur := Overlay(data, offset, first);
            var at := offset + |first|;
            Overlay(data, offset, first + second) == cur[..at] + second + cur[at + |second|..]
  {
  }
}
