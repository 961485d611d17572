/** Reading and writing pieces of the store: what the calls do to a state, and that they act on
    the stored contents as on a plain map from pieces to bytes. */
module StoreOps {
  import opened Arithmetic
  import opened StoreModel
  import opened StoreEviction

  /** The bytes of a list of chunks, in order. */
  function Flatten(chunks: seq<seq<Byte>>): seq<Byte> {
    if chunks == [] then [] else Flatten(chunks[..|chunks| - 1]) + chunks[|chunks| - 1]
  }

  function Total(sizes: seq<nat>): nat {
    if sizes == [] then 0 else sizes[0] + Total(sizes[1..])
  }

  /** `bytes` written over `data` from `offset` on. */
  function Overlay(data: seq<Byte>, offset: nat, bytes: seq<Byte>): seq<Byte>
    requires offset + |bytes| <= |data|
  {
    data[..offset] + bytes + data[offset + |bytes|..]
  }

  /** `data` dealt out to destinations of the given sizes, until it runs out. */
  function Deal(data: seq<Byte>, sizes: seq<nat>): (out: seq<seq<Byte>>)
    ensures |out| == |sizes|
  {
    if sizes == [] then []
    else
      var n := Min(|data|, sizes[0]);
      [data[..n]] + Deal(data[n..], sizes[1..])
  }

  lemma {:induction false} FlattenFirst(first: seq<Byte>, rest: seq<seq<Byte>>)
    ensures Flatten([first] + rest) == first + Flatten(rest)
  {
    var n := |rest|;
    if n == 0 {
      assert [first] + rest == [first] && [first][..0] == [];
    } else {
      FlattenFirst(first, rest[..n - 1]);
      assert ([first] + rest)[..n] == [first] + rest[..n - 1];
    }
  }

  lemma {:induction false} DealFits(data: seq<Byte>, sizes: seq<nat>, i: nat)
    requires i < |sizes|
    ensures |Deal(data, sizes)[i]| <= sizes[i]
  {
    if i > 0 {
      DealFits(data[Min(|data|, sizes[0])..], sizes[1..], i - 1);
    }
  }

  lemma PrefixInTwo(data: seq<Byte>, n: nat, m: nat)
    requires n <= m <= |data|
    ensures data[..m] == data[..n] + data[n..][..m - n]
  {
  }

  /** What is dealt out is the front of the data, each destination filled before the next. */
  lemma {:induction false} DealIsPrefix(data: seq<Byte>, sizes: seq<nat>)
    ensures Flatten(Deal(data, sizes)) == data[..Min(|data|, Total(sizes))]
    ensures forall i :: 0 <= i < |sizes| ==> |Deal(data, sizes)[i]| <= sizes[i]
  {
    forall i | 0 <= i < |sizes|
      ensures |Deal(data, sizes)[i]| <= sizes[i]
    {
      DealFits(data, sizes, i);
    }
    if sizes != [] {
      var n := Min(|data|, sizes[0]);
      DealIsPrefix(data[n..], sizes[1..]);
      FlattenFirst(data[..n], Deal(data[n..], sizes[1..]));
      PrefixInTwo(data, n, Min(|data|, Total(sizes)));
    }
  }

  /** A total grows by what is appended. */
  lemma {:induction false} TotalNext(sizes: seq<nat>, x: nat)
    ensures Total([]) == 0 && Total(sizes + [x]) == Total(sizes) + x
  {
    if sizes == [] {
      assert sizes + [x] == [x] && [x][1..] == [];
    } else {
      TotalNext(sizes[1..], x);
      assert (sizes + [x])[1..] == sizes[1..] + [x];
    }
  }

  /** Destination `i` gets the bytes from the sum of the sizes before it on: as many as its size,
      or as are left. */
  lemma {:induction false} DealPlaces(data: seq<Byte>, sizes: seq<nat>, i: nat)
    requires i < |sizes|
    ensures var at, out := Total(sizes[..i]), Deal(data, sizes)[i];
            && |out| == (if |data| <= at then 0 else Min(sizes[i], |data| - at))
            && forall k :: 0 <= k < |out| ==> at + k < |data| && out[k] == data[at + k]
  {
    if i > 0 {
      var n := Min(|data|, sizes[0]);
      DealPlaces(data[n..], sizes[1..], i - 1);
      assert sizes[..i][1..] == sizes[1..][..i - 1];
      assert Total(sizes[..i]) == sizes[0] + Total(sizes[1..][..i - 1]);
      assert Deal(data, sizes)[i] == Deal(data[n..], sizes[1..])[i - 1];
    }
  }

  function ChunkSizes(chunks: seq<seq<Byte>>): (r: seq<nat>)
    ensures |r| == |chunks|
  {
    seq(|chunks|, i requires 0 <= i < |chunks| => |chunks[i]|)
  }

  /** Byte `k` of chunk `i` comes after all bytes of the chunks before. */
  lemma {:induction false} FlattenPlaces(chunks: seq<seq<Byte>>, i: nat, k: nat)
    ensures |Flatten(chunks)| == Total(ChunkSizes(chunks))
    ensures i < |chunks| && k < |chunks[i]| ==>
              var at := Total(ChunkSizes(chunks)[..i]) + k;
              at < |Flatten(chunks)| && Flatten(chunks)[at] == chunks[i][k]
  {
    if chunks == [] {
      assert ChunkSizes(chunks) == [];
    } else {
      var n := |chunks| - 1;
      var front, sizes := chunks[..n], ChunkSizes(chunks);
      FlattenPlaces(front, i, k);
      assert sizes == ChunkSizes(front) + [|chunks[n]|];
      TotalNext(ChunkSizes(front), |chunks[n]|);
      if i < n {
        assert sizes[..i] == ChunkSizes(front)[..i] && front[i] == chunks[i];
      } else if i == n {
        assert sizes[..i] == ChunkSizes(front);
      }
    }
  }

  // ---------------------------------------------------------------- calls

  datatype ReadResult = ReadResult(store: Store, out: seq<seq<Byte>>, n: nat)

  /** Piece `p` has just been accessed. */
  function Touch(s: Store, p: int): Store
    requires Inv(s) && Resident(s, p)
  {
    var i := s.pieces[p].bi;
    s.(buffers := s.buffers[i := s.buffers[i].(accessed := s.clock)], clock := s.clock + 1)
  }

  /** Read from `offset` into destinations of the given sizes. */
  function Read(s: Store, p: int, offset: nat, sizes: seq<nat>): ReadResult
    requires Inv(s) && IsPiece(s, p) && offset <= s.pieceLength
  {
    if !s.isInitialized || !s.pieces[p].IsBuffered() then ReadResult(s, [], 0)
    else
      var rest := s.buffers[s.pieces[p].bi].data[offset..];
      ReadResult(Touch(s, p), Deal(rest, sizes), Min(|rest|, Total(sizes)))
  }

  datatype WriteResult = WriteResult(store: Store, n: nat, halts: bool)

  /** The bytes of a write that fit the piece. */
  function Accepted(s: Store, p: int, offset: nat, chunks: seq<seq<Byte>>): (bytes: seq<Byte>)
    requires IsPiece(s, p) && offset <= s.pieces[p].length
    ensures offset + |bytes| <= s.pieces[p].length
  {
    Flatten(chunks)[..Min(s.pieces[p].length - offset, |Flatten(chunks)|)]
  }

  /** As many bytes are accepted as are offered or fit the piece, in the order of the chunks. */
  lemma AcceptedIs(s: Store, p: int, offset: nat, chunks: seq<seq<Byte>>)
    requires IsPiece(s, p) && offset <= s.pieces[p].length
    ensures var bytes, sizes := Accepted(s, p, offset, chunks), ChunkSizes(chunks);
            && |bytes| == Min(s.pieces[p].length - offset, Total(sizes))
            && forall i, k :: 0 <= i < |chunks| && 0 <= k < |chunks[i]| ==>
                 var at := Total(sizes[..i]) + k; at < |bytes| ==> bytes[at] == chunks[i][k]
  {
    hide Flatten, Total, ChunkSizes;
    FlattenPlaces(chunks, 0, 0);
    forall i, k | 0 <= i < |chunks| && 0 <= k < |chunks[i]|
      ensures var at, bytes := Total(ChunkSizes(chunks)[..i]) + k, Accepted(s, p, offset, chunks);
              at < |bytes| ==> bytes[at] == chunks[i][k]
    {
      FlattenPlaces(chunks, i, k);
    }
  }

  /** The bytes are copied into the piece's buffer. */
  function CopyIn(s: Store, p: int, offset: nat, bytes: seq<Byte>): Store
    requires Inv(s) && Resident(s, p) && offset + |bytes| <= s.pieces[p].length
  {
    var i := s.pieces[p].bi;
    s.(buffers := s.buffers[i := s.buffers[i].(data := Overlay(s.buffers[i].data, offset, bytes), accessed := s.clock)],
       pieces := s.pieces[p := s.pieces[p].(size := s.pieces[p].size + |bytes|)],
       clock := s.clock + 1)
  }

  /** The state in which a write has copied its bytes and not trimmed yet. */
  function BeforeTrim(s: Store, p: int, offset: nat, chunks: seq<seq<Byte>>): Store
    requires Inv(s) && IsPiece(s, p) && offset <= s.pieces[p].length && s.isInitialized
    requires Resident(GetWriteBuffer(s, p), p)
  {
    GetBufferKeepsInv(s, p);
    CopyIn(GetWriteBuffer(s, p), p, offset, Accepted(s, p, offset, chunks))
  }

  /** Write the chunks from `offset` on: get a buffer, copy, and trim if the pool is full. */
  function Write(s: Store, p: int, offset: nat, chunks: seq<seq<Byte>>): WriteResult
    requires Inv(s) && IsPiece(s, p) && offset <= s.pieces[p].length
  {
    if !s.isInitialized || !Resident(GetWriteBuffer(s, p), p) then WriteResult(s, 0, true)
    else
      var t := BeforeTrim(s, p, offset, chunks);
      var n := |Accepted(s, p, offset, chunks)|;
      CopyKeepsInv(s, p, offset, chunks);
      if MustTrim(t) then WriteResult(Trim(t, p).store, n, Trim(t, p).halts) else WriteResult(t, n, true)
  }

  // ---------------------------------------------------------------- invariant

  predicate HasFreeBuffer(s: Store) {
    FirstFree(s.buffers, 0) < |s.buffers|
  }

  /** A writer gets a buffer exactly when its piece has one or a buffer is free. */
  lemma GetBufferKeepsInv(s: Store, p: int)
    requires Inv(s) && IsPiece(s, p)
    ensures Inv(GetWriteBuffer(s, p))
    ensures Resident(GetWriteBuffer(s, p), p) <==> Resident(s, p) || HasFreeBuffer(s)
    ensures !Resident(GetWriteBuffer(s, p), p) ==> GetWriteBuffer(s, p) == s
    ensures GetWriteBuffer(s, p).pieceLength == s.pieceLength
    ensures GetWriteBuffer(s, p).pieces[p].length == s.pieces[p].length
  {
    if !Resident(s, p) && HasFreeBuffer(s) {
      AssignKeepsInv(s, p, FirstFree(s.buffers, 0));
    }
  }

  lemma AssignKeepsInv(s: Store, p: int, i: int)
    requires Inv(s) && IsPiece(s, p) && !Resident(s, p) && 0 <= i < |s.buffers| && !s.buffers[i].isUsed
    ensures Inv(Assign(s, p, i))
    ensures UsedBuffers(Assign(s, p, i)) == UsedBuffers(s) + {i}
  {
    var t := Assign(s, p, i);
    assert forall q :: 0 <= q < |s.pieces| && q != p ==> t.pieces[q] == s.pieces[q] && s.pieces[q].bi != i;
    assert forall j :: 0 <= j < |s.buffers| && j != i ==> t.buffers[j] == s.buffers[j] && s.buffers[j].pi != p;
  }

  lemma AssignContents(s: Store, p: int, i: int)
    requires Inv(s) && IsPiece(s, p) && !Resident(s, p) && 0 <= i < |s.buffers| && !s.buffers[i].isUsed
    ensures Inv(Assign(s, p, i))
    ensures Contents(Assign(s, p, i)) == Contents(s)[p := Zeros(s.pieceLength)]
  {
    hide TimesOrdered, Shape;
    AssignKeepsInv(s, p, i);
    assert forall q :: 0 <= q < |s.pieces| && q != p ==> s.pieces[q].bi != i;
  }

  lemma CopyInKeepsInv(s: Store, p: int, offset: nat, bytes: seq<Byte>)
    requires Inv(s) && Resident(s, p) && offset + |bytes| <= s.pieces[p].length
    ensures Inv(CopyIn(s, p, offset, bytes))
    ensures UsedBuffers(CopyIn(s, p, offset, bytes)) == UsedBuffers(s)
  {
  }

  lemma CopyInContents(s: Store, p: int, offset: nat, bytes: seq<Byte>)
    requires Inv(s) && Resident(s, p) && offset + |bytes| <= s.pieces[p].length
    ensures Inv(CopyIn(s, p, offset, bytes))
    ensures Contents(CopyIn(s, p, offset, bytes)) == Contents(s)[p := Overlay(Contents(s)[p], offset, bytes)]
  {
    hide TimesOrdered, Shape;
    CopyInKeepsInv(s, p, offset, bytes);
    var i := s.pieces[p].bi;
    assert forall q :: 0 <= q < |s.pieces| && q != p && s.pieces[q].IsBuffered() ==> s.pieces[q].bi != i;
  }

  lemma TouchKeepsInv(s: Store, p: int)
    requires Inv(s) && Resident(s, p)
    ensures Inv(Touch(s, p)) && Contents(Touch(s, p)) == Contents(s) && UsedBuffers(Touch(s, p)) == UsedBuffers(s)
  {
    hide TimesOrdered;
    TouchKeepsLinks(s, p);
  }

  lemma TouchKeepsLinks(s: Store, p: int)
    requires Inv(s) && Resident(s, p)
    ensures Inv(Touch(s, p))
  {
  }

  /** What the store holds of a piece before a write: zeros if it is allocated by the write. */
  ghost function Base(s: Store, p: int): (r: seq<Byte>)
    requires Inv(s)
    ensures |r| == s.pieceLength
  {
    if Resident(s, p) then Contents(s)[p] else Zeros(s.pieceLength)
  }

  /** A write changes its own piece's bytes and nothing else. */
  lemma CopyKeepsInv(s: Store, p: int, offset: nat, chunks: seq<seq<Byte>>)
    requires Inv(s) && IsPiece(s, p) && offset <= s.pieces[p].length && s.isInitialized
    requires Resident(GetWriteBuffer(s, p), p)
    ensures var t := BeforeTrim(s, p, offset, chunks);
            && Inv(t) && Resident(t, p)
            && Contents(t) == Contents(s)[p := Overlay(Base(s, p), offset, Accepted(s, p, offset, chunks))]
            && t.pieceLength == s.pieceLength && t.reserved == s.reserved && t.isInitialized
            && t.bufferSize == s.bufferSize && |t.pieces| == |s.pieces|
  {
    hide Inv, FirstFree, UsedBuffers;
    GetBufferKeepsInv(s, p);
    if !Resident(s, p) {
      FreeIsUnused(s, p);
      AssignContents(s, p, FirstFree(s.buffers, 0));
    }
    CopyInContents(GetWriteBuffer(s, p), p, offset, Accepted(s, p, offset, chunks));
  }

  lemma FreeIsUnused(s: Store, p: int)
    requires Inv(s) && IsPiece(s, p) && !Resident(s, p) && Resident(GetWriteBuffer(s, p), p)
    ensures var i := FirstFree(s.buffers, 0);
            0 <= i < |s.buffers| && !s.buffers[i].isUsed && GetWriteBuffer(s, p) == Assign(s, p, i)
  {
  }

  // ---------------------------------------------------------------- refinement of a map

  /** The pieces a write's trim evicts. */
  ghost function EvictedBy(s: Store, p: int, offset: nat, chunks: seq<seq<Byte>>): set<int>
    requires Inv(s) && IsPiece(s, p) && offset <= s.pieces[p].length
  {
    if !s.isInitialized || !Resident(GetWriteBuffer(s, p), p) then {}
    else
      var t := BeforeTrim(s, p, offset, chunks);
      PiecesOf(t, Freed(t, Write(s, p, offset, chunks).store))
  }

  lemma TrimKeeps(t: Store, p: int)
    requires Inv(t) && Resident(t, p)
    ensures var u := Trim(t, p).store;
            var gone := PiecesOf(t, Freed(t, u));
            && OnlyEvicted(t, u) && p !in gone
            && (forall q :: q in gone ==> !IsReserved(t, q))
            && (t.capacity >= 0 ==> Trim(t, p).halts ==> !MustTrim(u))
  {
    hide PiecesLinked, TimesOrdered, TrimLoop, PickerAfter, Contents;
    var u := Trim(t, p).store;
    OnlyEvictedTick(t, 0);
    TrimOnlyEvicts(t, p);
    TrimTakesFirst(t, p);
    assert Freed(t, t) == {};
    assert Freed(t, u) <= Evictable(t, p);
  }

  lemma InContents(s: Store, p: int)
    ensures Inv(s) ==> (p in Contents(s) <==> Resident(s, p))
  {
  }

  /** A write that gets a buffer leaves the plain map's contents, less whole evicted pieces,
      none of them the written or a reserved one. */
  lemma WriteRefines(s: Store, p: int, offset: nat, chunks: seq<seq<Byte>>)
    requires Inv(s) && IsPiece(s, p) && offset <= s.pieces[p].length && s.isInitialized
    requires Resident(s, p) || HasFreeBuffer(s)
    ensures var r := Write(s, p, offset, chunks);
            var bytes := Accepted(s, p, offset, chunks);
            && Inv(r.store) && r.n == |bytes|
            && Contents(r.store) == Contents(s)[p := Overlay(Base(s, p), offset, bytes)]
                                    - EvictedBy(s, p, offset, chunks)
            && Resident(r.store, p) && Contents(r.store)[p] == Overlay(Base(s, p), offset, bytes)
            && p !in EvictedBy(s, p, offset, chunks)
            && (forall q :: q in EvictedBy(s, p, offset, chunks) ==> q !in s.reserved)
  {
    hide Inv, FirstFree, UsedBuffers, Contents, BeforeTrim, Trim;
    GetBufferKeepsInv(s, p);
    CopyKeepsInv(s, p, offset, chunks);
    var t := BeforeTrim(s, p, offset, chunks);
    InContents(Write(s, p, offset, chunks).store, p);
    OnlyEvictedTick(t, 0);
    assert Freed(t, t) == {} && PiecesOf(t, {}) == {};
    TrimKeeps(t, p);
  }

  /** Where `bytes` go when they overlay `data`. */
  lemma OverlayAt(data: seq<Byte>, offset: nat, bytes: seq<Byte>, j: nat)
    requires offset + |bytes| <= |data| && j < |data|
    ensures Overlay(data, offset, bytes)[j] == if offset <= j < offset + |bytes| then bytes[j - offset] else data[j]
  {
  }

  /** A write that gets a buffer counts the bytes offered, or those that fit the piece if these
      are fewer. So many bytes of its chunks are in the piece afterwards, one after the other from
      the offset on, and the rest of the piece is as it was, or zero if it had no buffer. */
  lemma WriteStores(s: Store, p: int, offset: nat, chunks: seq<seq<Byte>>)
    requires Inv(s) && IsPiece(s, p) && offset <= s.pieces[p].length && s.isInitialized
    requires Resident(s, p) || HasFreeBuffer(s)
    ensures var w, sizes := Write(s, p, offset, chunks), ChunkSizes(chunks);
            && w.n == Min(s.pieces[p].length - offset, Total(sizes))
            && Inv(w.store) && p in Contents(w.store) && |Contents(w.store)[p]| == s.pieceLength
            && offset + w.n <= s.pieceLength
            && (forall i, k :: 0 <= i < |chunks| && 0 <= k < |chunks[i]| ==>
                  var at := Total(sizes[..i]) + k;
                  at < w.n ==> Contents(w.store)[p][offset + at] == chunks[i][k])
            && (forall j :: 0 <= j < s.pieceLength && !(offset <= j < offset + w.n) ==>
                  Contents(w.store)[p][j] == if Resident(s, p) then Contents(s)[p][j] else 0)
  {
    hide Inv, FirstFree, Write, EvictedBy, Accepted, Overlay, Total, ChunkSizes, Contents;
    WriteRefines(s, p, offset, chunks);
    AcceptedIs(s, p, offset, chunks);
    WriteKeepsShape(s, p, offset, chunks);
    InContents(Write(s, p, offset, chunks).store, p);
    InContents(s, p);
    OverlayLength(Base(s, p), offset, Accepted(s, p, offset, chunks));
    forall j: nat | j < s.pieceLength
      ensures var bytes := Accepted(s, p, offset, chunks);
              Overlay(Base(s, p), offset, bytes)[j]
              == if offset <= j < offset + |bytes| then bytes[j - offset] else Base(s, p)[j]
    {
      OverlayAt(Base(s, p), offset, Accepted(s, p, offset, chunks), j);
    }
  }

  lemma OverlayLength(data: seq<Byte>, offset: nat, bytes: seq<Byte>)
    requires offset + |bytes| <= |data|
    ensures |Overlay(data, offset, bytes)| == |data|
  {
  }

  /** A write without a buffer changes nothing. */
  lemma WriteFails(s: Store, p: int, offset: nat, chunks: seq<seq<Byte>>)
    requires Inv(s) && IsPiece(s, p) && offset <= s.pieces[p].length
    requires !s.isInitialized || !(Resident(s, p) || HasFreeBuffer(s))
    ensures Write(s, p, offset, chunks) == WriteResult(s, 0, true) && EvictedBy(s, p, offset, chunks) == {}
  {
    GetBufferKeepsInv(s, p);
  }

  /** A read delivers the stored bytes from the offset on, as many as were asked for and are
      left in the buffer, and changes no contents. */
  lemma ReadRefines(s: Store, p: int, offset: nat, sizes: seq<nat>)
    requires Inv(s) && IsPiece(s, p) && offset <= s.pieceLength
    ensures var r := Read(s, p, offset, sizes);
            && Inv(r.store) && Contents(r.store) == Contents(s)
            && |Flatten(r.out)| == r.n
            && (Resident(s, p) ==>
                  && r.n == Min(s.pieceLength - offset, Total(sizes))
                  && Flatten(r.out) == Contents(s)[p][offset..offset + r.n])
            && (!Resident(s, p) ==> r.n == 0)
  {
    if s.isInitialized && Resident(s, p) {
      TouchKeepsInv(s, p);
      var data := s.buffers[s.pieces[p].bi].data;
      DealIsPrefix(data[offset..], sizes);
    }
  }

  /** What a write stored can be read back right after the trim it triggers. */
  lemma WriteThenRead(s: Store, p: int, offset: nat, chunks: seq<seq<Byte>>)
    requires Inv(s) && IsPiece(s, p) && offset <= s.pieces[p].length && s.isInitialized
    requires Resident(s, p) || HasFreeBuffer(s)
    ensures var w := Write(s, p, offset, chunks);
            && Inv(w.store) && IsPiece(w.store, p) && w.store.pieceLength >= offset
            && Flatten(Read(w.store, p, offset, [w.n]).out) == Accepted(s, p, offset, chunks)
  {
    hide FirstFree, Write, Read, Inv, Contents, EvictedBy, Accepted;
    WriteRefines(s, p, offset, chunks);
    WriteKeepsShape(s, p, offset, chunks);
    var w := Write(s, p, offset, chunks);
    ReadRefines(w.store, p, offset, [w.n]);
    assert Total([w.n]) == w.n;
    OverlaySlice(Base(s, p), offset, Accepted(s, p, offset, chunks));
  }

  lemma OverlaySlice(data: seq<Byte>, offset: nat, bytes: seq<Byte>)
    requires offset + |bytes| <= |data|
    ensures Overlay(data, offset, bytes)[offset..offset + |bytes|] == bytes
  {
  }

  lemma WriteKeepsShape(s: Store, p: int, offset: nat, chunks: seq<seq<Byte>>)
    requires Inv(s) && IsPiece(s, p) && offset <= s.pieces[p].length
    ensures var t := Write(s, p, offset, chunks).store;
            t.pieceLength == s.pieceLength && |t.pieces| == |s.pieces| && s.pieces[p].length <= s.pieceLength
            && t.reserved == s.reserved && t.isInitialized == s.isInitialized && t.bufferSize == s.bufferSize
            && t.capacity == s.capacity && |t.buffers| == |s.buffers|
  {
    hide OnlyEvicted, TrimLoop, Contents, FirstFree, TimesOrdered, BuffersLinked;
    GetBufferKeepsInv(s, p);
    if s.isInitialized && Resident(GetWriteBuffer(s, p), p) {
      CopyKeepsInv(s, p, offset, chunks);
      var t := BeforeTrim(s, p, offset, chunks);
      TrimOnlyEvicts(t, p);
      OnlyEvictedShape(t, TrimLoop(t, p).store);
    }
  }
}
