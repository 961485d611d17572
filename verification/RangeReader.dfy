/** Reading a byte range of a file piece by piece: `Reader::read` of src/bittorrent/reader.cpp over
    the in-memory store. */
module RangeReader {
  import opened Arithmetic
  import opened PieceLayout
  import opened StoreModel
  import opened StoreOps
  import opened Storage
  import StoreRuns

  // ---------------------------------------------------------------- counts and places

  /** What a read has to show for itself: the bytes it counted, and whether every span it handed to
      the store lay within the caller's buffer. */
  datatype Served = Served(ret: int, inBounds: bool)

  /** Where the next piece's bytes are put. The remaining span is cut once more by everything read
      so far, although it was cut before. */
  function NextStart(ret: int, start: int): int { if ret > 0 then start + ret else start }

  /** Room of a span that starts at `at` of a buffer of `size` bytes. Past the buffer's end the size
      is negative and, taken as unsigned, no bound at all: the whole piece fits. */
  function Room(pl: int, size: int, at: int): int { if at <= size then size - at else pl }

  /** The loop from piece `p` to before piece `stop`, for a request of `size` bytes at byte `g` of
      the torrent; `ret` bytes are read and the span starts at `start` of the buffer. */
  function ServeFrom(pl: int, g: int, size: int, p: int, stop: int, ret: int, start: int): Served
    requires 0 < pl
    decreases stop - p
  {
    if p >= stop then Served(ret, true)
    else
      var at := NextStart(ret, start);
      var n := Min(pl - OffsetIn(pl, g + ret), Room(pl, size, at));
      var rest := ServeFrom(pl, g, size, p + 1, stop, ret + n, at);
      Served(rest.ret, at <= size && rest.inBounds)
  }

  /** Every piece's bytes are put where they belong, right after those before them. */
  predicate PlacedFrom(pl: int, g: int, size: int, p: int, stop: int, ret: int, start: int)
    requires 0 < pl
    decreases stop - p
  {
    p < stop ==>
      var at := NextStart(ret, start);
      && at == ret && at <= size
      && PlacedFrom(pl, g, size, p + 1, stop, ret + Min(pl - OffsetIn(pl, g + ret), size - at), at)
  }

  /** The pieces of a request. */
  predicate Request(pl: int, g: int, size: int, first: int, last: int)
    requires 0 < pl
  {
    0 <= g && 0 < size && first == g / pl && last == (g + size - 1) / pl
  }

  lemma FirstPiece(pl: int, g: int, size: int, first: int, last: int)
    requires 0 < pl && Request(pl, g, size, first, last)
    ensures 0 < size && first <= last && g == first * pl + g % pl && 0 <= g % pl < pl
    ensures first == last ==> size <= pl - g % pl
    ensures first < last ==> pl - g % pl < size
    ensures first + 1 == last ==> size <= 2 * pl - g % pl
    ensures first + 1 < last ==> 2 * pl - g % pl < size
  {
    var e := g + size - 1;
    assert e == last * pl + e % pl;
    DivMonotone(g, e, pl);
    assert (first + 1) * pl == first * pl + pl && (first + 2) * pl == first * pl + 2 * pl;
    if first < last {
      MulMonotone(first + 1, last, pl);
    }
    if first + 1 < last {
      MulMonotone(first + 2, last, pl);
    }
  }

  lemma ModNext(pl: int, g: int)
    requires 0 < pl
    ensures (g + (pl - g % pl)) % pl == 0
  {
    var q := g / pl + 1;
    assert g + (pl - g % pl) == q * pl;
    QuotientUnique(q * pl, pl, q);
  }

  /** The first two pieces of a request: counts and places as they should be. */
  lemma TwoPieces(pl: int, g: int, size: int, first: int, last: int, stop: int)
    requires 0 < pl && Request(pl, g, size, first, last) && first <= stop <= last + 1
    ensures stop == first ==> ServeFrom(pl, g, size, first, stop, 0, 0) == Served(0, true)
    ensures stop == first + 1 ==> ServeFrom(pl, g, size, first, stop, 0, 0) == Served(Min(pl - g % pl, size), true)
    ensures stop == first + 2 ==> ServeFrom(pl, g, size, first, stop, 0, 0) == Served(Min(2 * pl - g % pl, size), true)
    ensures stop > first + 2 ==>
              ServeFrom(pl, g, size, first, stop, 0, 0)
              == ServeFrom(pl, g, size, first + 2, stop, 2 * pl - g % pl, pl - g % pl)
  {
    hide ServeFrom, Request;
    FirstPiece(pl, g, size, first, last);
    if stop == first {
      ServeEnd(pl, g, size, first, stop, 0, 0);
    } else {
      ServeNext(pl, g, size, first, stop, 0, 0);
      if stop == first + 1 {
        ServeEnd(pl, g, size, first + 1, stop, Min(pl - g % pl, size), 0);
      } else {
        SecondPiece(pl, g, size, first, last, stop);
      }
    }
  }

  lemma SecondPiece(pl: int, g: int, size: int, first: int, last: int, stop: int)
    requires 0 < pl && Request(pl, g, size, first, last) && first + 2 <= stop <= last + 1
    ensures var n := pl - g % pl;
            var r := ServeFrom(pl, g, size, first + 1, stop, n, 0);
            if stop == first + 2 then r == Served(Min(pl + n, size), true)
            else r == ServeFrom(pl, g, size, first + 2, stop, pl + n, n)
  {
    hide ServeFrom, Request;
    var n := pl - g % pl;
    FirstPiece(pl, g, size, first, last);
    ModNext(pl, g);
    ServeNext(pl, g, size, first + 1, stop, n, 0);
    if stop == first + 2 {
      ServeEnd(pl, g, size, stop, stop, n + Min(pl, size - n), n);
    }
  }

  /** Once the span has lost bytes, the count never reaches the request. */
  lemma {:induction false} LostBytes(pl: int, g: int, size: int, p: int, stop: int, ret: int, start: int)
    requires 0 < pl && 0 < ret && 0 < start && p < stop
    ensures var r := ServeFrom(pl, g, size, p, stop, ret, start); r.inBounds ==> r.ret <= size - start
    decreases stop - p
  {
    var at := start + ret;
    if at <= size {
      var n := Min(pl - OffsetIn(pl, g + ret), size - at);
      if p + 1 < stop {
        LostBytes(pl, g, size, p + 1, stop, ret + n, at);
      }
    }
  }

  /** A request whose pieces are all there is served in full if and only if it touches at most two
      pieces. */
  lemma FullServiceIff(pl: int, g: int, size: int, first: int, last: int)
    requires 0 < pl && Request(pl, g, size, first, last)
    ensures ServeFrom(pl, g, size, first, last + 1, 0, 0) == Served(size, true) <==> last <= first + 1
  {
    FirstPiece(pl, g, size, first, last);
    TwoPieces(pl, g, size, first, last, last + 1);
    if last > first + 1 {
      LostBytes(pl, g, size, first + 2, last + 1, 2 * pl - g % pl, pl - g % pl);
    }
  }

  /** A request for 10 bytes from byte 1, over pieces of 4 bytes: the third piece gets a span that is
      3 bytes short, so 7 bytes are counted although all are there. */
  lemma ThreePiecesFallShort()
    ensures Request(4, 1, 10, 0, 2) && ServeFrom(4, 1, 10, 0, 3, 0, 0) == Served(7, true)
  {
    TwoPieces(4, 1, 10, 0, 2, 3);
    assert ServeFrom(4, 1, 10, 2, 3, 7, 3) == ServeFrom(4, 1, 10, 3, 3, 7, 10);
  }

  /** The bytes of the pieces that are served all land in their places if and only if at most two
      pieces are served. */
  lemma PlacedIff(pl: int, g: int, size: int, first: int, last: int, stop: int)
    requires 0 < pl && Request(pl, g, size, first, last) && first <= stop <= last + 1
    ensures PlacedFrom(pl, g, size, first, stop, 0, 0) <==> stop <= first + 2
  {
    FirstPiece(pl, g, size, first, last);
    ModNext(pl, g);
    var n := pl - g % pl;
    if stop > first {
      assert PlacedFrom(pl, g, size, first, stop, 0, 0) == PlacedFrom(pl, g, size, first + 1, stop, Min(n, size), 0);
      if stop > first + 1 {
        assert PlacedFrom(pl, g, size, first + 1, stop, n, 0) ==
               PlacedFrom(pl, g, size, first + 2, stop, n + Min(pl, size - n), n);
      }
    }
  }

  /** A request no longer than a piece touches at most two pieces. */
  lemma ShortRequest(pl: int, g: int, size: int, first: int, last: int)
    requires 0 < pl && Request(pl, g, size, first, last) && size <= pl
    ensures last <= first + 1
  {
    FirstPiece(pl, g, size, first, last);
  }

  // ---------------------------------------------------------------- requests of many pieces

  /** The bytes of the request in its first `i` pieces, one or more. */
  function FullCount(pl: int, g: int, i: nat): int
    requires 0 < pl
  {
    i * pl - g % pl
  }

  /** Where the span of the request's piece `i` starts if all pieces before it are served in full:
      at the sum of all the counts so far. */
  function SpanStart(pl: int, g: int, i: nat): int
    requires 0 < pl
  {
    if i == 0 then 0 else SpanStart(pl, g, i - 1) + FullCount(pl, g, i)
  }

  lemma {:induction false} SpanStartIs(pl: int, g: int, i: nat)
    requires 0 < pl
    ensures 2 * SpanStart(pl, g, i) == pl * i * (i + 1) - 2 * i * (g % pl)
  {
    if i > 0 {
      SpanStartIs(pl, g, i - 1);
    }
  }

  /** The span of piece `i` ends before the piece does. */
  predicate CutShort(pl: int, g: int, size: int, i: nat)
    requires 0 < pl
  {
    SpanStart(pl, g, i) <= size < SpanStart(pl, g, i) + pl
  }

  /** One of the pieces from `i` to before the last of `k` gets such a span. */
  ghost predicate SomeCutShort(pl: int, g: int, size: int, i: nat, k: nat)
    requires 0 < pl
  {
    exists j: nat :: i <= j < k - 1 && CutShort(pl, g, size, j)
  }

  lemma {:induction false} SpanStartGrows(pl: int, g: int, i: nat, j: nat)
    requires 0 < pl && 1 <= i < j
    ensures SpanStart(pl, g, i) + pl <= SpanStart(pl, g, j)
    decreases j
  {
    MulMonotone(2, j, pl);
    if i + 1 < j {
      SpanStartGrows(pl, g, i, j - 1);
    }
  }

  lemma FullCountIs(pl: int, g: int, i: nat)
    requires 0 < pl
    ensures FullCount(pl, g, i + 1) == FullCount(pl, g, i) + pl && (g + FullCount(pl, g, i)) % pl == 0
    ensures 1 <= i ==> 0 < FullCount(pl, g, i)
  {
    assert (i + 1) * pl == i * pl + pl;
    var q := g / pl + i;
    assert g + FullCount(pl, g, i) == q * pl;
    QuotientUnique(q * pl, pl, q);
    if 1 <= i {
      MulMonotone(1, i, pl);
    }
  }

  /** Past the end of the buffer every piece is copied and counted in full. */
  lemma {:induction false} PastTheEnd(pl: int, g: int, size: int, p: int, stop: int, ret: int, start: int)
    requires 0 < pl && 0 <= ret && size < NextStart(ret, start) && (g + ret) % pl == 0 && p < stop
    ensures ServeFrom(pl, g, size, p, stop, ret, start) == Served(ret + (stop - p) * pl, false)
    decreases stop - p
  {
    if p + 1 < stop {
      ModPlus(g + ret, pl);
      PastTheEnd(pl, g, size, p + 1, stop, ret + pl, NextStart(ret, start));
      assert (stop - p) * pl == (stop - (p + 1)) * pl + pl;
    } else {
      assert (stop - p) * pl == pl;
    }
  }

  lemma ModPlus(b: int, pl: int)
    requires 0 < pl
    ensures (b + pl) % pl == b % pl
  {
    assert (b / pl + 1) * pl == (b / pl) * pl + pl;
    assert (b / pl + 2) * pl == (b / pl) * pl + 2 * pl;
    QuotientUnique(b + pl, pl, b / pl + 1);
  }

  /** What the loop makes of the pieces from the second on: the counts and the spans. */
  lemma {:induction false} ServeRest(pl: int, g: int, size: int, p: int, stop: int, i: nat, k: nat)
    requires 0 < pl && 1 <= i <= k && stop - p == k - i
    ensures var r := ServeFrom(pl, g, size, p, stop, FullCount(pl, g, i), SpanStart(pl, g, i - 1));
            if i == k then r == Served(FullCount(pl, g, k), true)
            else
              var at := SpanStart(pl, g, k - 1);
              && (r.inBounds <==> at <= size)
              && (at <= size ==> r.ret == FullCount(pl, g, k - 1) + Min(pl, size - at))
              && (size < at ==> r.ret == FullCount(pl, g, if SomeCutShort(pl, g, size, i, k) then k - 1 else k))
    decreases k - i
  {
    FullCountIs(pl, g, i);
    if i < k {
      if CutShort(pl, g, size, i) {
        if i + 1 < k {
          assert SomeCutShort(pl, g, size, i, k);
          SpanStartGrows(pl, g, i, k - 1);
          AfterCut(pl, g, size, p, stop, i, k);
        }
      } else {
        ServeRest(pl, g, size, p + 1, stop, i + 1, k);
        assert SomeCutShort(pl, g, size, i, k) == SomeCutShort(pl, g, size, i + 1, k);
      }
    }
  }

  /** A span that was cut short is followed by one past the buffer's end, which takes the rest of
      the same piece's bytes. */
  lemma AfterCut(pl: int, g: int, size: int, p: int, stop: int, i: nat, k: nat)
    requires 0 < pl && 1 <= i < k - 1 && stop - p == k - i && CutShort(pl, g, size, i)
    ensures ServeFrom(pl, g, size, p, stop, FullCount(pl, g, i), SpanStart(pl, g, i - 1)) ==
            Served(FullCount(pl, g, k - 1), false)
  {
    hide ServeFrom, FullCount;
    var ret, at := FullCount(pl, g, i), SpanStart(pl, g, i);
    var cut := size - at;
    FullCountIs(pl, g, i);
    OffsetAfter(pl, g + ret, cut);
    ServeNext(pl, g, size, p, stop, ret, SpanStart(pl, g, i - 1));
    ServeNext(pl, g, size, p + 1, stop, ret + cut, at);
    if p + 2 < stop {
      ModPlus(g + ret, pl);
      PastTheEnd(pl, g, size, p + 2, stop, ret + pl, size + ret);
    } else {
      ServeEnd(pl, g, size, p + 2, stop, ret + pl, size + ret);
    }
    FullCountPlus(pl, g, i, k - 1);
  }

  lemma FullCountPlus(pl: int, g: int, i: nat, k: nat)
    requires 0 < pl && i <= k
    ensures FullCount(pl, g, k) == FullCount(pl, g, i) + pl + (k - i - 1) * pl
  {
    assert (k - i - 1) * pl == k * pl - i * pl - pl;
  }

  lemma OffsetAfter(pl: int, b: int, cut: int)
    requires 0 < pl && b % pl == 0 && 0 <= cut < pl
    ensures (b + cut) % pl == cut
  {
    assert (b / pl + 1) * pl == (b / pl) * pl + pl;
    QuotientUnique(b + cut, pl, b / pl);
  }

  /** The loop enters its second piece with the first one's bytes counted. */
  lemma AfterFirst(pl: int, g: int, size: int, first: int, last: int, stop: int)
    requires 0 < pl && Request(pl, g, size, first, last) && first + 1 < stop <= last + 1
    ensures ServeFrom(pl, g, size, first, stop, 0, 0) ==
            ServeFrom(pl, g, size, first + 1, stop, FullCount(pl, g, 1), SpanStart(pl, g, 0))
  {
    hide ServeFrom;
    FirstPiece(pl, g, size, first, last);
    ServeNext(pl, g, size, first, stop, 0, 0);
  }

  /** Every span lies within the caller's buffer if and only if the last one's start does; it is
      known before the read, from the request and the number of pieces served. */
  lemma InBoundsIff(pl: int, g: int, size: int, first: int, last: int, stop: int)
    requires 0 < pl && Request(pl, g, size, first, last) && first <= stop <= last + 1
    ensures ServeFrom(pl, g, size, first, stop, 0, 0).inBounds <==>
            stop == first || SpanStart(pl, g, stop - first - 1) <= size
  {
    hide ServeFrom, SomeCutShort;
    TwoPieces(pl, g, size, first, last, stop);
    if stop > first + 1 {
      AfterFirst(pl, g, size, first, last, stop);
      ServeRest(pl, g, size, first + 1, stop, 1, stop - first);
    }
  }

  /** The torrent's byte at which the last piece served is entered. */
  function LastFrom(pl: int, g: int, stop: int): int { Max((stop - 1) * pl, g) }

  /** The bytes counted for the pieces from `first` to before `stop`. In bounds, the last piece
      is cut to what its span has room for. Out of bounds, all pieces count in full, except that
      one is lost if an earlier span was cut short. */
  lemma CountIs(pl: int, g: int, size: int, first: int, last: int, stop: int)
    requires 0 < pl && Request(pl, g, size, first, last) && first < stop <= last + 1
    ensures var r, k := ServeFrom(pl, g, size, first, stop, 0, 0), stop - first;
            var at := SpanStart(pl, g, k - 1);
            && (at <= size ==> g + r.ret == Min(stop * pl, LastFrom(pl, g, stop) + size - at))
            && (size < at ==> g + r.ret == if SomeCutShort(pl, g, size, 1, k) then (stop - 1) * pl else stop * pl)
  {
    hide ServeFrom, SomeCutShort, FullCount, SpanStart;
    FirstPiece(pl, g, size, first, last);
    var k := stop - first;
    FullCountAt(pl, g, first, k);
    if k == 1 {
      TwoPieces(pl, g, size, first, last, stop);
      StartsAtZero(pl, g);
    } else {
      AfterFirst(pl, g, size, first, last, stop);
      ServeRest(pl, g, size, first + 1, stop, 1, k);
      FullCountAt(pl, g, first, k - 1);
      FullCountIs(pl, g, k - 1);
    }
  }

  lemma FullCountAt(pl: int, g: int, first: int, i: nat)
    requires 0 < pl && g == first * pl + g % pl
    ensures g + FullCount(pl, g, i) == (first + i) * pl && (i == 1 ==> FullCount(pl, g, i) == pl - g % pl)
    ensures i == 1 ==> LastFrom(pl, g, first + i) == g
  {
    assert (first + i) * pl == first * pl + i * pl;
  }

  lemma StartsAtZero(pl: int, g: int)
    requires 0 < pl
    ensures SpanStart(pl, g, 0) == 0
  {
  }

  /** A request for 9 bytes from byte 0, over pieces of 4 bytes: the third piece's span starts 3 bytes
      past the buffer's end, and 12 bytes are counted. */
  lemma NineBytesLeaveBuffer()
    ensures Request(4, 0, 9, 0, 2) && ServeFrom(4, 0, 9, 0, 3, 0, 0) == Served(12, false) && SpanStart(4, 0, 2) == 12
  {
    hide ServeFrom, SpanStart;
    SpanStartIs(4, 0, 1);
    SpanStartIs(4, 0, 2);
    InBoundsIff(4, 0, 9, 0, 2, 3);
    CountIs(4, 0, 9, 0, 2, 3);
  }

  // ---------------------------------------------------------------- the reader

  /** The first of the pieces from `p` to `last` that is not available, or the one after them. */
  function FirstMissing(p: int, last: int, available: set<int>): (r: int)
    ensures p <= last + 1 ==> p <= r <= last + 1
    ensures p > last ==> r == p
    ensures forall q :: p <= q < r ==> q in available
    ensures r <= last && p <= last ==> r !in available
    decreases last - p
  {
    if p <= last && p in available then FirstMissing(p + 1, last, available) else p
  }

  /** Every available piece is resident and holds the torrent's bytes. */
  ghost predicate Faithful(l: Layout, s: Store, torrent: seq<Byte>, available: set<int>)
    requires l.Ok() && Inv(s)
  {
    && s.pieceLength == l.pieceLength && |s.pieces| == l.Count() && |torrent| == l.total && s.isInitialized
    && forall p :: p in available && 0 <= p < l.Count() ==>
         Resident(s, p) && forall k :: 0 <= k < l.Length(p) ==> Contents(s)[p][k] == torrent[l.Start(p) + k]
  }

  /** The bytes of the file that a read of at most two pieces delivers. */
  function Delivered(pl: int, g: int, size: int, first: int, stop: int): int
    requires 0 < pl
  {
    if stop <= first then 0 else Min(stop * pl - g, size)
  }

  lemma DeliveredParts(pl: int, g: int, size: int, first: int)
    requires 0 < pl && g == first * pl + g % pl
    ensures Delivered(pl, g, size, first, first) == 0
    ensures Delivered(pl, g, size, first, first + 1) == Min(pl - g % pl, size)
    ensures Delivered(pl, g, size, first, first + 2) == Min(2 * pl - g % pl, size)
  {
    assert (first + 1) * pl == first * pl + pl;
    assert (first + 2) * pl == first * pl + 2 * pl;
  }

  lemma DeliveredIs(pl: int, g: int, size: int, first: int, last: int, stop: int)
    requires 0 < pl && Request(pl, g, size, first, last) && first <= stop <= last + 1 && stop <= first + 2
    ensures ServeFrom(pl, g, size, first, stop, 0, 0) == Served(Delivered(pl, g, size, first, stop), true)
    ensures 0 <= Delivered(pl, g, size, first, stop) <= size
  {
    hide ServeFrom, Delivered;
    FirstPiece(pl, g, size, first, last);
    TwoPieces(pl, g, size, first, last, stop);
    DeliveredParts(pl, g, size, first);
  }

  /** The pieces of a read of a file are those of the request, as far as the file goes. */
  lemma FileRequest(l: Layout, offset: int, size: int, position: int, length: int)
    requires l.Ok() && InTorrent(l, offset, size) && 0 <= position < size && 0 < length
    ensures var f := NewFile(l, offset, size);
            var pl, g, first := l.pieceLength, offset + position, PieceFromOffset(f, l.pieceLength, position);
            var reach := (g + length - 1) / pl;
            && Request(pl, g, length, first, reach) && first == g / pl <= reach
            && f.pieceEnd == (offset + size - 1) / pl
            && PieceFromOffset(f, pl, position + length - 1) == Min(reach, f.pieceEnd)
  {
    hide CeilDiv;
    var g := offset + position;
    PieceFromOffsetIs(l, offset, size, position);
    RegionPiecesAre(l, offset, size);
    DivMonotone(g, g + length - 1, l.pieceLength);
  }

  /** A read stays within the file if and only if nothing is served, or the last piece served
      ends within the file, or that piece is cut to its share of the file: in bounds because its span
      has no more room, out of bounds because an earlier span was cut short. */
  lemma OverrunIff(l: Layout, offset: int, size: int, position: int, length: int, stop: int)
    requires l.Ok() && InTorrent(l, offset, size) && 0 <= position < size && 0 < length
    requires var f := NewFile(l, offset, size);
             PieceFromOffset(f, l.pieceLength, position) <= stop
             <= PieceFromOffset(f, l.pieceLength, position + length - 1) + 1
    ensures var pl, g, end := l.pieceLength, offset + position, offset + size;
            var first := PieceFromOffset(NewFile(l, offset, size), pl, position);
            var r := ServeFrom(pl, g, length, first, stop, 0, 0);
            position + r.ret <= size <==>
              || stop == first || stop * pl <= end
              || (var at := SpanStart(pl, g, stop - first - 1);
                  if at <= length then LastFrom(pl, g, stop) + (length - at) <= end
                  else SomeCutShort(pl, g, length, 1, stop - first))
  {
    hide CeilDiv, ServeFrom, NewFile, PieceFromOffset, SpanStart, SomeCutShort, Request;
    var pl, g, first := l.pieceLength, offset + position,
        PieceFromOffset(NewFile(l, offset, size), l.pieceLength, position);
    FileRequest(l, offset, size, position, length);
    var reach := (g + length - 1) / pl;
    if stop == first {
      ServeEnd(pl, g, length, first, stop, 0, 0);
    } else {
      CountIs(pl, g, length, first, reach, stop);
      StartsBefore(offset + size, pl, stop - 1);
    }
  }

  lemma StartsBefore(end: int, pl: int, p: int)
    requires 0 < pl && 0 < end && p <= (end - 1) / pl
    ensures p * pl < end
  {
    MulMonotone(p, (end - 1) / pl, pl);
  }

  /** A file that ends where a piece ends is never overrun, and neither is one in which an
      in-bounds request ends. */
  lemma StaysInFile(l: Layout, offset: int, size: int, position: int, length: int, stop: int)
    requires l.Ok() && InTorrent(l, offset, size) && 0 <= position < size && 0 < length
    requires var f := NewFile(l, offset, size);
             PieceFromOffset(f, l.pieceLength, position) <= stop
             <= PieceFromOffset(f, l.pieceLength, position + length - 1) + 1
    ensures var r := ServeFrom(l.pieceLength, offset + position, length,
                               PieceFromOffset(NewFile(l, offset, size), l.pieceLength, position), stop, 0, 0);
            (offset + size) % l.pieceLength == 0 || (r.inBounds && position + length <= size) ==>
              position + r.ret <= size
  {
    hide CeilDiv, ServeFrom, NewFile, PieceFromOffset, SpanStart, SomeCutShort, Request;
    var pl, g, first := l.pieceLength, offset + position,
        PieceFromOffset(NewFile(l, offset, size), l.pieceLength, position);
    FileRequest(l, offset, size, position, length);
    OverrunIff(l, offset, size, position, length, stop);
    if stop > first {
      InBoundsIff(pl, g, length, first, (g + length - 1) / pl, stop);
      SpanCovers(pl, g, first, stop);
      EndOfLastPiece(offset + size, pl);
      MulMonotone(stop, (offset + size - 1) / pl + 1, pl);
    }
  }

  /** A span starts no earlier than the bytes it is for. */
  lemma SpanCovers(pl: int, g: int, first: int, stop: int)
    requires 0 < pl && first == g / pl && first < stop
    ensures LastFrom(pl, g, stop) - g <= SpanStart(pl, g, stop - first - 1)
  {
    var i := stop - first - 1;
    FullCountAt(pl, g, first, i);
    if i > 0 {
      StartNonNegative(pl, g, i - 1);
      FullCountIs(pl, g, i);
    }
  }

  lemma {:induction false} StartNonNegative(pl: int, g: int, i: nat)
    requires 0 < pl
    ensures 0 <= SpanStart(pl, g, i)
  {
    if i > 0 {
      StartNonNegative(pl, g, i - 1);
      FullCountIs(pl, g, i);
    }
  }

  /** A read of 12 bytes of a file of 10 bytes, over pieces of 4 bytes, passes the file's end and yet
      counts only 8: the last of its three spans starts at the end of the buffer. */
  lemma TwelveBytesStayInFile()
    ensures var f := NewFile(Layout(4, 12), 0, 10);
            && f == FileRange(0, 10, 0, 2) && PieceFromOffset(f, 4, 0) == 0 && PieceFromOffset(f, 4, 11) == 2
            && ServeFrom(4, 0, 12, 0, 3, 0, 0) == Served(8, true)
  {
    hide ServeFrom, SpanStart;
    assert CeilDiv(12, 4) == 3;
    SpanStartIs(4, 0, 2);
    InBoundsIff(4, 0, 12, 0, 2, 3);
    CountIs(4, 0, 12, 0, 2, 3);
  }

  /** A read of at most two pieces, all available, stays within the file if and only if the
      request ends in the file or the file ends where a piece ends; otherwise it runs on into the
      rest of the file's last piece. */
  lemma TwoPieceOverrunIff(l: Layout, offset: int, size: int, position: int, length: int)
    requires l.Ok() && InTorrent(l, offset, size) && 0 <= position < size && 0 < length
    requires var f := NewFile(l, offset, size);
             PieceFromOffset(f, l.pieceLength, position + length - 1) <= PieceFromOffset(f, l.pieceLength, position) + 1
    ensures var f := NewFile(l, offset, size);
            var first, last := PieceFromOffset(f, l.pieceLength, position),
                PieceFromOffset(f, l.pieceLength, position + length - 1);
            var r := ServeFrom(l.pieceLength, offset + position, length, first, last + 1, 0, 0);
            position + r.ret <= size <==> position + length <= size || (offset + size) % l.pieceLength == 0
  {
    hide CeilDiv, ServeFrom, NewFile, PieceFromOffset, Request, Delivered, Min;
    var f, pl, g := NewFile(l, offset, size), l.pieceLength, offset + position;
    var first, last := PieceFromOffset(f, pl, position), PieceFromOffset(f, pl, position + length - 1);
    FileRequest(l, offset, size, position, length);
    CutServed(pl, g, length, first, offset + size);
  }

  lemma CutServed(pl: int, g: int, length: int, first: int, end: int)
    requires 0 < pl && Request(pl, g, length, first, (g + length - 1) / pl) && g < end
    requires Min((g + length - 1) / pl, (end - 1) / pl) <= first + 1
    ensures var r := ServeFrom(pl, g, length, first, Min((g + length - 1) / pl, (end - 1) / pl) + 1, 0, 0);
            g + r.ret <= end <==> g + length <= end || end % pl == 0
  {
    hide ServeFrom, Delivered;
    CutAtPiece(pl, g, length, first, end);
    DeliveredIs(pl, g, length, first, (g + length - 1) / pl, Min((g + length - 1) / pl, (end - 1) / pl) + 1);
  }

  lemma CutAtPiece(pl: int, g: int, length: int, first: int, end: int)
    requires 0 < pl && 0 < length && 0 < end && g < end && first == g / pl
    ensures var last := Min((g + length - 1) / pl, (end - 1) / pl);
            first <= last && (g + Delivered(pl, g, length, first, last + 1) <= end <==>
                              g + length <= end || end % pl == 0)
  {
    DivMonotone(g, g + length - 1, pl);
    DivMonotone(g, end - 1, pl);
    EndOfLastPiece(end, pl);
    if end < g + length {
      DivMonotone(end - 1, g + length - 1, pl);
    } else {
      DivMonotone(g + length - 1, end - 1, pl);
    }
  }

  /** A read of 4 bytes of a file of 2 bytes, over pieces of 4 bytes, delivers 4 bytes. */
  lemma ReadRunsPastFile()
    ensures var f := NewFile(Layout(4, 8), 0, 2);
            && f == FileRange(0, 2, 0, 0) && PieceFromOffset(f, 4, 0) == 0 && PieceFromOffset(f, 4, 3) == 0
            && ServeFrom(4, 0, 4, 0, 1, 0, 0) == Served(4, true)
  {
    hide ServeFrom;
    assert CeilDiv(8, 4) == 2;
    TwoPieces(4, 0, 4, 0, 0, 1);
  }

  lemma EndOfLastPiece(end: int, pl: int)
    requires 0 < pl && 0 < end
    ensures var past := ((end - 1) / pl + 1) * pl; end <= past && (past == end <==> end % pl == 0)
  {
    var q := (end - 1) / pl;
    assert end - 1 == q * pl + (end - 1) % pl;
    assert (q + 1) * pl == q * pl + pl;
    if end % pl == 0 {
      assert end == (end / pl) * pl;
      if end / pl <= q {
        MulMonotone(end / pl, q, pl);
      } else {
        MulMonotone(q + 1, end / pl, pl);
        if q + 2 <= end / pl {
          MulMonotone(q + 2, end / pl, pl);
          assert (q + 2) * pl == q * pl + 2 * pl;
        }
      }
    } else if (q + 1) * pl == end {
      QuotientUnique(end, pl, q + 1);
    }
  }

  /** Within the first two pieces: the bytes at hand belong to piece `p`, they go right after those
      delivered so far, and then as many are delivered as should be. */
  lemma PieceStep(pl: int, g: int, size: int, first: int, reach: int, p: int)
    requires 0 < pl && Request(pl, g, size, first, reach) && first <= p <= reach && p <= first + 1
    ensures var ret := Delivered(pl, g, size, first, p);
            && 0 <= ret < size && NextStart(ret, 0) == ret && g + ret == p * pl + OffsetIn(pl, g + ret)
            && ret + Min(pl - OffsetIn(pl, g + ret), size - ret) == Delivered(pl, g, size, first, p + 1)
  {
    hide Delivered;
    FirstPiece(pl, g, size, first, reach);
    DeliveredParts(pl, g, size, first);
    if p == first + 1 {
      ModNext(pl, g);
      assert (first + 1) * pl == first * pl + pl;
    }
  }

  /** The first `ret` bytes of the buffer are the torrent's from `g` on, as far as it has any, and
      the rest of the buffer is as it was. */
  ghost predicate Holds(buffer: seq<Byte>, was: seq<Byte>, torrent: seq<Byte>, g: int, ret: int) {
    && 0 <= g && 0 <= ret <= |buffer| == |was| && buffer[ret..] == was[ret..]
    && forall j :: 0 <= j < ret && g + j < |torrent| ==> buffer[j] == torrent[g + j]
  }

  lemma HoldsNext(l: Layout, torrent: seq<Byte>, buffer: seq<Byte>, was: seq<Byte>, g: int, ret: int, p: int,
                  offset: int, n: nat, data: seq<Byte>)
    requires l.Ok() && |torrent| == l.total && Holds(buffer, was, torrent, g, ret) && ret + n <= |buffer|
    requires 0 <= p && 0 <= offset && offset + n <= l.pieceLength == |data|
    requires g + ret == l.Start(p) + offset
    requires forall k :: 0 <= k < l.Length(p) ==> data[k] == torrent[l.Start(p) + k]
    ensures Holds(buffer[..ret] + data[offset..offset + n] + buffer[ret + n..], was, torrent, g, ret + n)
  {
    var after := buffer[..ret] + data[offset..offset + n] + buffer[ret + n..];
    assert after[ret + n..] == buffer[ret..][n..] == was[ret + n..];
    forall j | 0 <= j < ret + n && g + j < |torrent|
      ensures after[j] == torrent[g + j]
    {
      if ret <= j {
        var k := offset + (j - ret);
        assert (p + 1) * l.pieceLength == l.Start(p) + l.pieceLength;
        assert data[k] == torrent[l.Start(p) + k];
      }
    }
  }

  /** One piece of the first two: its bytes go where they belong. */
  lemma StepHolds(l: Layout, s: Store, torrent: seq<Byte>, available: set<int>, buffer: seq<Byte>, was: seq<Byte>,
                  g: int, first: int, reach: int, p: int, n: nat)
    requires l.Ok() && Inv(s) && Faithful(l, s, torrent, available) && p in available && 0 <= p < l.Count()
    requires Request(l.pieceLength, g, |buffer|, first, reach) && first <= p <= reach && p <= first + 1
    requires var ret := Delivered(l.pieceLength, g, |buffer|, first, p);
             Holds(buffer, was, torrent, g, ret)
               && n == Min(l.pieceLength - OffsetIn(l.pieceLength, g + ret), |buffer| - ret)
    ensures var ret := Delivered(l.pieceLength, g, |buffer|, first, p);
            var offset := OffsetIn(l.pieceLength, g + ret);
            && p in Contents(s) && |Contents(s)[p]| == l.pieceLength && ret + n <= |buffer|
            && Holds(buffer[..ret] + Contents(s)[p][offset..offset + n] + buffer[ret + n..], was, torrent, g, ret + n)
            && ret + n == Delivered(l.pieceLength, g, |buffer|, first, p + 1)
  {
    hide Inv, Contents, Layout.Count, Holds, Delivered, Request, Faithful;
    PieceStep(l.pieceLength, g, |buffer|, first, reach, p);
    FaithfulPiece(l, s, s, torrent, available, p);
    var ret := Delivered(l.pieceLength, g, |buffer|, first, p);
    HoldsNext(l, torrent, buffer, was, g, ret, p, OffsetIn(l.pieceLength, g + ret), n, Contents(s)[p]);
  }

  lemma FaithfulPiece(l: Layout, s: Store, t: Store, torrent: seq<Byte>, available: set<int>, p: int)
    requires l.Ok() && Inv(s) && Faithful(l, s, torrent, available) && p in available && 0 <= p < l.Count()
    requires Inv(t) && Contents(t) == Contents(s) && |t.pieces| == |s.pieces|
    ensures Resident(t, p) && p in Contents(s) && |torrent| == l.total && |Contents(s)[p]| == l.pieceLength
    ensures forall k :: 0 <= k < l.Length(p) ==> Contents(s)[p][k] == torrent[l.Start(p) + k]
  {
    hide Layout.Count, TimesOrdered, PiecesLinked;
    InContents(s, p);
    InContents(t, p);
    ContentsLength(s, p);
  }

  lemma ContentsLength(s: Store, p: int)
    requires Inv(s) && p in Contents(s)
    ensures |Contents(s)[p]| == s.pieceLength
  {
  }

  class Reader {
    const layout: Layout
    const file: FileRange
    var position: int
    var pieceStart: int
    var pieceEnd: int

    ghost predicate Valid()
      reads this
    {
      && layout.Ok() && InTorrent(layout, file.offset, file.size)
      && file == NewFile(layout, file.offset, file.size) && 0 <= position
      && file.pieceStart <= pieceStart <= file.pieceEnd
    }

    constructor (l: Layout, offset: int, size: int, start: int, end: int)
      requires l.Ok() && InTorrent(l, offset, size) && 0 <= start
      ensures Valid() && layout == l && file == NewFile(l, offset, size) && position == start
      ensures start < size ==> pieceStart == (offset + start) / l.pieceLength
      ensures 0 < end < size ==> pieceEnd == (offset + end) / l.pieceLength
      ensures file.pieceStart <= pieceEnd <= file.pieceEnd
    {
      PieceFromOffsetIs(l, offset, size, start);
      PieceFromOffsetIs(l, offset, size, if end > 0 then end else -1);
      layout, file, position := l, NewFile(l, offset, size), start;
      pieceStart := PieceFromOffset(NewFile(l, offset, size), l.pieceLength, start);
      pieceEnd := PieceFromOffset(NewFile(l, offset, size), l.pieceLength, if end > 0 then end else -1);
    }

    /** The store's bytes of a resident piece, from `offset` on, as many as fit `room`. */
    static method Fetch(store: MemoryStorage, p: int, offset: int, room: nat) returns (bytes: seq<Byte>)
      requires store.Valid() && Resident(store.State(), p) && 0 <= offset <= store.pieceLength && store.isInitialized
      modifies store
      ensures store.Valid() && Contents(store.State()) == old(Contents(store.State()))
      ensures store.isInitialized && |store.pieces| == old(|store.pieces|)
      ensures p in Contents(store.State()) && |Contents(store.State())[p]| == store.pieceLength
      ensures |bytes| == Min(store.pieceLength - offset, room)
      ensures bytes == Contents(store.State())[p][offset..offset + |bytes|]
    {
      hide Inv, StoreOps.Read, Contents;
      ReadOne(store.State(), p, offset, room);
      var out, n := store.Readv([room], p, offset);
      bytes := out[0];
    }

    /** The bytes of piece `p` at byte `at` of the torrent go into the buffer from `start` on. */
    static method ServePiece(store: MemoryStorage, buffer: array<Byte>, p: int, at: nat, start: nat) returns (n: nat)
      requires store.Valid() && Resident(store.State(), p) && store.isInitialized && 0 < store.pieceLength
      requires start <= buffer.Length
      modifies store, buffer
      ensures store.Valid() && store.isInitialized && |store.pieces| == old(|store.pieces|)
      ensures Contents(store.State()) == old(Contents(store.State()))
      ensures n == Min(store.pieceLength - OffsetIn(store.pieceLength, at), buffer.Length - start)
      ensures var data := Contents(store.State()); var offset := OffsetIn(store.pieceLength, at);
              && p in data && |data[p]| == store.pieceLength && offset + n <= |data[p]|
              && buffer[..] == old(buffer[..start]) + data[p][offset..offset + n] + old(buffer[start + n..])
    {
      hide Inv, Contents;
      var bytes := Fetch(store, p, OffsetIn(store.pieceLength, at), buffer.Length - start);
      CopyTo(buffer, start, bytes);
      n := |bytes|;
    }

    /** The bytes of piece `p` at byte `at` of the torrent go past the end of the buffer: they are
        counted and not put anywhere in it. */
    static method ServeOutside(store: MemoryStorage, p: int, at: nat) returns (n: nat)
      requires store.Valid() && Resident(store.State(), p) && store.isInitialized && 0 < store.pieceLength
      modifies store
      ensures store.Valid() && store.isInitialized && |store.pieces| == old(|store.pieces|)
      ensures Contents(store.State()) == old(Contents(store.State()))
      ensures n == store.pieceLength - OffsetIn(store.pieceLength, at)
    {
      hide Inv, Contents;
      var bytes := Fetch(store, p, OffsetIn(store.pieceLength, at), store.pieceLength);
      n := |bytes|;
    }

    /** The loop of a read over the pieces `first` to `last`, for the bytes from `g` on. */
    static method ServePieces(l: Layout, store: MemoryStorage, buffer: array<Byte>, available: set<int>, g: nat,
                              first: int, last: int, ghost reach: int, ghost torrent: seq<Byte>)
      returns (ret: int, inBounds: bool)
      requires l.Ok() && store.Valid() && Faithful(l, store.State(), torrent, available)
      requires 0 <= first && last < l.Count()
      requires 0 < buffer.Length ==> Request(l.pieceLength, g, buffer.Length, first, reach) && last <= reach
      modifies store, buffer
      ensures store.Valid() && Contents(store.State()) == old(Contents(store.State()))
      ensures store.isInitialized && |store.pieces| == old(|store.pieces|)
      ensures 0 <= ret
      ensures Served(ret, inBounds) == ServeFrom(l.pieceLength, g, buffer.Length, first,
                                                 FirstMissing(first, last, available), 0, 0)
      ensures 0 < buffer.Length && first <= last ==>
                var stop := FirstMissing(first, last, available);
                inBounds <==> stop == first || SpanStart(l.pieceLength, g, stop - first - 1) <= buffer.Length
      ensures 0 < buffer.Length && FirstMissing(first, last, available) <= first + 2 ==>
                && inBounds && Holds(buffer[..], old(buffer[..]), torrent, g, ret)
                && ret == Delivered(l.pieceLength, g, buffer.Length, first, FirstMissing(first, last, available))
    {
      hide Inv, Contents, Layout.Count, Layout.Start, Layout.Length, ServeFrom, Holds, Delivered, Request, NextStart,
           Faithful, Resident, OffsetIn, TwoSoFar, SpanStart;
      var size, start, p := buffer.Length, 0, first;
      ret, inBounds := 0, true;
      ghost var stop, was, s := FirstMissing(first, last, available), buffer[..], store.State();
      ghost var two := 0 < size && stop <= first + 2;
      FaithfulStore(l, s, torrent, available);
      TwoAtStart(l.pieceLength, g, first, was, torrent);
      while p <= last
        invariant first <= p && (if first <= last then p <= stop else p == first) && 0 <= ret && 0 <= start
        invariant store.Valid() && store.isInitialized && Contents(store.State()) == Contents(s)
                  && |store.pieces| == |s.pieces|
        invariant var rest := ServeFrom(l.pieceLength, g, size, p, stop, ret, start);
                  Served(rest.ret, inBounds && rest.inBounds) == ServeFrom(l.pieceLength, g, size, first, stop, 0, 0)
        invariant two ==> inBounds && TwoSoFar(l.pieceLength, g, first, p, ret, start, buffer[..], was, torrent)
      {
        if p !in available {
          break;
        }
        ServeNext(l.pieceLength, g, size, p, stop, ret, start);
        FaithfulPiece(l, s, store.State(), torrent, available, p);
        if two {
          TwoInside(l.pieceLength, g, first, reach, p, ret, start, buffer[..], was, torrent);
        }
        ghost var before, from := buffer[..], start;
        start := NextStart(ret, start);
        var n: nat;
        if start <= size {
          n := ServePiece(store, buffer, p, g + ret, start);
        } else {
          n := ServeOutside(store, p, g + ret);
          inBounds := false;
        }
        if two {
          TwoNext(l, s, torrent, available, before, was, g, first, reach, p, ret, from, n, buffer[..]);
        }
        ret := ret + n;
        p := p + 1;
      }
      assert p == stop;
      if two {
        TwoAtEnd(l.pieceLength, g, first, p, ret, start, buffer[..], was, torrent);
      }
      ServeEnd(l.pieceLength, g, size, p, stop, ret, start);
      if 0 < size && first <= last {
        InBoundsIff(l.pieceLength, g, size, first, reach, stop);
      }
    }

    /** A read at the reader's position. `available` are the pieces that the torrent has, or has
        after waiting for them; any other ends the read. When no more than two pieces are served,
        the buffer holds the torrent's bytes from the position on and the position is moved past
        them. */
    method Read(store: MemoryStorage, buffer: array<Byte>, available: set<int>, ghost torrent: seq<Byte>)
      returns (ret: int, inBounds: bool)
      requires Valid() && store.Valid() && Faithful(layout, store.State(), torrent, available)
      modifies this, store, buffer
      ensures Valid() && store.Valid() && Contents(store.State()) == old(Contents(store.State()))
      ensures store.isInitialized && |store.pieces| == old(|store.pieces|)
      ensures position == old(position) + ret
      ensures old(position) >= file.size ==> ret == 0 && inBounds && buffer[..] == old(buffer[..])
      ensures old(position) < file.size ==>
                && pieceStart == PieceFromOffset(file, layout.pieceLength, old(position))
                && pieceEnd == PieceFromOffset(file, layout.pieceLength, old(position) + buffer.Length - 1)
                && Served(ret, inBounds) == ServeFrom(layout.pieceLength, file.offset + old(position), buffer.Length,
                                                      pieceStart, FirstMissing(pieceStart, pieceEnd, available), 0, 0)
      ensures old(position) < file.size && 0 < buffer.Length ==>
                var stop := FirstMissing(pieceStart, pieceEnd, available);
                && pieceStart <= stop
                && (inBounds <==>
                      || stop == pieceStart
                      || SpanStart(layout.pieceLength, file.offset + old(position),
                                   stop - pieceStart - 1) <= buffer.Length)
      ensures old(position) < file.size && 0 < buffer.Length
              && FirstMissing(pieceStart, pieceEnd, available) <= pieceStart + 2 ==>
              && inBounds && Holds(buffer[..], old(buffer[..]), torrent, file.offset + old(position), ret)
                && ret == Delivered(layout.pieceLength, file.offset + old(position), buffer.Length, pieceStart,
                                    FirstMissing(pieceStart, pieceEnd, available))
    {
      hide Inv, Contents, Layout.Count, ServeFrom, Holds, Delivered, SpanStart, PieceFromOffset, NewFile, Request;
      ret, inBounds := 0, true;
      if position >= file.size {
        return;
      }
      pieceStart := PieceFromOffset(file, layout.pieceLength, position);
      pieceEnd := PieceFromOffset(file, layout.pieceLength, position + buffer.Length - 1);
      PieceFromOffsetIs(layout, file.offset, file.size, position);
      PieceFromOffsetIs(layout, file.offset, file.size, position + buffer.Length - 1);
      FileIsInTorrent(layout, file);
      ghost var reach := (file.offset + position + buffer.Length - 1) / layout.pieceLength;
      if 0 < buffer.Length {
        FileRequest(layout, file.offset, file.size, position, buffer.Length);
        RequestOrder(layout, file, position, buffer.Length);
      }
      ret, inBounds := ServePieces(layout, store, buffer, available, file.offset + position, pieceStart, pieceEnd,
                                   reach, torrent);
      position := position + ret;
    }
  }

  /** The history's last bytes of piece `p` are the torrent's. */
  ghost predicate WrittenRight(l: Layout, log: seq<StoreRuns.Event>, torrent: seq<Byte>, p: int) {
    forall k :: 0 <= k < l.Length(p) ==>
      && 0 <= l.Start(p) + k < |torrent|
      && StoreRuns.ByteAt(log, p, k) == StoreRuns.Some(torrent[l.Start(p) + k])
  }

  lemma PieceIsFaithful(e: StoreRuns.Exec, l: Layout, torrent: seq<Byte>, p: int)
    requires Inv(e.store) && StoreRuns.MatchesLog(e) && l.Ok() && |torrent| == l.total && 0 <= p < l.Count()
    requires e.store.pieceLength == l.pieceLength && |e.store.pieces| == l.Count()
    ensures WrittenRight(l, e.log, torrent, p) <==>
              && Resident(e.store, p) && 0 <= l.Start(p) && l.Start(p) + l.Length(p) <= l.total
              && p in Contents(e.store) && l.Length(p) <= |Contents(e.store)[p]|
              && forall k :: 0 <= k < l.Length(p) ==> Contents(e.store)[p][k] == torrent[l.Start(p) + k]
  {
    hide StoreRuns.ByteAt, Inv, Contents, Layout.Count, Layout.Length, Layout.Start;
    PieceInTorrent(l, p);
    InContents(e.store, p);
    if p in Contents(e.store) {
      ContentsLength(e.store, p);
      assert forall k :: 0 <= k < l.Length(p) ==>
          StoreRuns.ByteAt(e.log, p, k) == StoreRuns.Some(Contents(e.store)[p][k]);
    } else {
      assert StoreRuns.ByteAt(e.log, p, 0) == StoreRuns.None;
    }
  }

  /** After any run the store is faithful if and only if the history of the run has the torrent's
      bytes as the last ones written to every available piece. */
  lemma RunIsFaithful(c: Config, ops: seq<StoreRuns.Op>, l: Layout, torrent: seq<Byte>, available: set<int>)
    requires ConfigOk(c) && l.Ok() && c.pieceLength == l.pieceLength && |c.lengths| == l.Count() && |torrent| == l.total
    requires StoreRuns.Run(c, ops).store.isInitialized
    ensures var e := StoreRuns.Run(c, ops);
            Faithful(l, e.store, torrent, available) <==>
              forall p :: p in available && 0 <= p < l.Count() ==> WrittenRight(l, e.log, torrent, p)
  {
    hide StoreRuns.Run, WrittenRight, Inv, Contents, Layout.Count, Layout.Length, Layout.Start;
    var e := StoreRuns.Run(c, ops);
    StoreRuns.RunKeepsLayout(c, ops);
    StoreRuns.RunMatchesHistory(c, ops);
    forall p | 0 <= p < l.Count()
      ensures WrittenRight(l, e.log, torrent, p) <==>
                && Resident(e.store, p) && 0 <= l.Start(p) && l.Start(p) + l.Length(p) <= l.total
                && p in Contents(e.store) && l.Length(p) <= |Contents(e.store)[p]|
                && forall k :: 0 <= k < l.Length(p) ==> Contents(e.store)[p][k] == torrent[l.Start(p) + k]
      ensures p in Contents(e.store) <==> Resident(e.store, p)
      ensures p in Contents(e.store) ==> l.Length(p) <= |Contents(e.store)[p]|
      ensures 0 <= l.Start(p) && l.Start(p) + l.Length(p) <= l.total
    {
      PieceIsFaithful(e, l, torrent, p);
      PieceInTorrent(l, p);
      InContents(e.store, p);
      if p in Contents(e.store) {
        ContentsLength(e.store, p);
      }
    }
  }

  /** Being faithful is a matter of the contents. */
  lemma FaithfulKept(l: Layout, s: Store, t: Store, torrent: seq<Byte>, available: set<int>)
    requires l.Ok() && Inv(s) && Inv(t) && Faithful(l, s, torrent, available)
    requires Contents(t) == Contents(s) && |t.pieces| == |s.pieces| && t.pieceLength == s.pieceLength && t.isInitialized
    ensures Faithful(l, t, torrent, available)
  {
    hide Inv, Contents, Layout.Count;
    forall p | p in available && 0 <= p < l.Count()
      ensures Resident(t, p) && p in Contents(t)
    {
      InContents(s, p);
      InContents(t, p);
    }
  }

  lemma FileIsInTorrent(l: Layout, f: FileRange)
    requires l.Ok() && InTorrent(l, f.offset, f.size) && f == NewFile(l, f.offset, f.size)
    ensures 0 <= f.pieceStart <= f.pieceEnd < l.Count()
  {
    RegionPiecesAre(l, f.offset, f.size);
  }

  lemma RequestOrder(l: Layout, f: FileRange, position: int, length: int)
    requires l.Ok() && InTorrent(l, f.offset, f.size) && f == NewFile(l, f.offset, f.size) && 0 < length
    ensures PieceFromOffset(f, l.pieceLength, position) <= PieceFromOffset(f, l.pieceLength, position + length - 1)
  {
    RegionPiecesAre(l, f.offset, f.size);
    PieceFromOffsetMonotone(f, l.pieceLength, position, position + length - 1);
  }

  lemma FaithfulStore(l: Layout, s: Store, torrent: seq<Byte>, available: set<int>)
    requires l.Ok() && Inv(s) && Faithful(l, s, torrent, available)
    ensures s.pieceLength == l.pieceLength && s.isInitialized && |s.pieces| == l.Count()
  {
  }

  /** A reader always reads a piece of its file, as the scheduler expects. */
  lemma ReaderIsInTorrent(r: Reader)
    requires r.Valid()
    ensures 0 <= r.pieceStart <= r.file.pieceEnd < r.layout.Count()
  {
    FileIsInTorrent(r.layout, r.file);
  }

  /** The state of the loop over the first two pieces, before piece `p`. */
  ghost predicate TwoSoFar(pl: int, g: int, first: int, p: int, ret: int, start: int,
                           buffer: seq<Byte>, was: seq<Byte>, torrent: seq<Byte>)
    requires 0 < pl
  {
    && ret == Delivered(pl, g, |buffer|, first, p) && (p <= first + 1 ==> start == 0)
    && Holds(buffer, was, torrent, g, ret)
  }

  lemma TwoAtStart(pl: int, g: nat, first: int, buffer: seq<Byte>, torrent: seq<Byte>)
    requires 0 < pl
    ensures TwoSoFar(pl, g, first, first, 0, 0, buffer, buffer, torrent)
  {
  }

  lemma TwoAtEnd(pl: int, g: int, first: int, p: int, ret: int, start: int, buffer: seq<Byte>, was: seq<Byte>,
                 torrent: seq<Byte>)
    requires 0 < pl && TwoSoFar(pl, g, first, p, ret, start, buffer, was, torrent)
    ensures Holds(buffer, was, torrent, g, ret) && ret == Delivered(pl, g, |buffer|, first, p)
  {
  }

  /** The next span starts right after the bytes delivered, inside the buffer. */
  lemma TwoInside(pl: int, g: int, first: int, reach: int, p: int, ret: int, start: int,
                  buffer: seq<Byte>, was: seq<Byte>, torrent: seq<Byte>)
    requires 0 < pl && TwoSoFar(pl, g, first, p, ret, start, buffer, was, torrent)
    requires Request(pl, g, |buffer|, first, reach) && first <= p <= reach && p <= first + 1
    ensures NextStart(ret, start) == ret < |buffer|
  {
    hide Delivered, OffsetIn, Request, Holds;
    PieceStep(pl, g, |buffer|, first, reach, p);
  }

  /** One piece of the first two. */
  lemma TwoNext(l: Layout, s: Store, torrent: seq<Byte>, available: set<int>, buffer: seq<Byte>, was: seq<Byte>, g: int,
                first: int, reach: int, p: int, ret: int, start: int, n: nat, after: seq<Byte>)
    requires l.Ok() && Inv(s) && Faithful(l, s, torrent, available) && p in available && 0 <= p < l.Count()
    requires Request(l.pieceLength, g, |buffer|, first, reach) && first <= p <= reach && p <= first + 1
    requires TwoSoFar(l.pieceLength, g, first, p, ret, start, buffer, was, torrent)
    requires n == Min(l.pieceLength - OffsetIn(l.pieceLength, g + ret), |buffer| - ret)
    requires var offset := OffsetIn(l.pieceLength, g + ret);
             && p in Contents(s) && offset + n <= |Contents(s)[p]| && 0 <= ret && ret + n <= |buffer|
             && after == buffer[..ret] + Contents(s)[p][offset..offset + n] + buffer[ret + n..]
    ensures TwoSoFar(l.pieceLength, g, first, p + 1, ret + n, ret, after, was, torrent)
  {
    hide Inv, Contents, Layout.Count, Holds, Delivered, Request, Faithful, OffsetIn;
    StepHolds(l, s, torrent, available, buffer, was, g, first, reach, p, n);
    if p == first {
      NoneYet(l.pieceLength, g, |buffer|, first);
    }
  }

  lemma NoneYet(pl: int, g: int, size: int, first: int)
    requires 0 < pl
    ensures Delivered(pl, g, size, first, first) == 0
  {
  }

  lemma ServeNext(pl: int, g: int, size: int, p: int, stop: int, ret: int, start: int)
    requires 0 < pl && p < stop
    ensures var at := NextStart(ret, start);
            var n := Min(pl - OffsetIn(pl, g + ret), Room(pl, size, at));
            var rest := ServeFrom(pl, g, size, p + 1, stop, ret + n, at);
            ServeFrom(pl, g, size, p, stop, ret, start) == Served(rest.ret, at <= size && rest.inBounds)
    ensures 0 <= ret && 0 <= start ==> 0 <= start <= NextStart(ret, start)
  {
  }

  lemma ServeEnd(pl: int, g: int, size: int, p: int, stop: int, ret: int, start: int)
    requires 0 < pl && p >= stop
    ensures ServeFrom(pl, g, size, p, stop, ret, start) == Served(ret, true)
  {
  }

  /** `bytes` are copied into the buffer from `at` on. */
  method CopyTo(buffer: array<Byte>, at: nat, bytes: seq<Byte>)
    requires at + |bytes| <= buffer.Length
    modifies buffer
    ensures buffer[..] == old(buffer[..at]) + bytes + old(buffer[at + |bytes|..])
  {
    forall j | 0 <= j < |bytes| {
      buffer[at + j] := bytes[j];
    }
  }

  /** A read into one destination. */
  lemma ReadOne(s: Store, p: int, offset: nat, room: nat)
    requires Inv(s) && s.isInitialized && Resident(s, p) && offset <= s.pieceLength
    ensures var r := Read(s, p, offset, [room]);
            && |r.out| == 1 && p in Contents(s) && |Contents(s)[p]| == s.pieceLength
            && |r.out[0]| == Min(s.pieceLength - offset, room)
            && r.out[0] == Contents(s)[p][offset..offset + |r.out[0]|]
            && r.store.isInitialized && r.store.pieces == s.pieces
  {
    hide TimesOrdered, Shape, Deal, Flatten;
    var data := s.buffers[s.pieces[p].bi].data;
    OneDestination(data[offset..], [room]);
    ReadRefines(s, p, offset, [room]);
  }

  lemma OneDestination(data: seq<Byte>, sizes: seq<nat>)
    requires |sizes| == 1
    ensures |Deal(data, sizes)| == 1 && Flatten(Deal(data, sizes)) == Deal(data, sizes)[0] && Total(sizes) == sizes[0]
  {
    var out := Deal(data, sizes);
    assert out[..0] == [] && Flatten(out) == Flatten(out[..0]) + out[0];
  }

  // ---------------------------------------------------------------- sequences of reads

  /** Reads one after the other from a position on: each delivers the torrent's bytes at its
      position, whatever piece it stopped at, and the next one starts past them. */
  ghost predicate IsStream(torrent: seq<Byte>, at: nat, outs: seq<seq<Byte>>)
    decreases |outs|
  {
    outs != [] ==>
      && at + |outs[0]| <= |torrent| && outs[0] == torrent[at..at + |outs[0]|]
      && IsStream(torrent, at + |outs[0]|, outs[1..])
  }

  /** The outputs of any sequence of reads, put together, are the contiguous bytes of the torrent
      from the first position on. */
  lemma {:induction false} StreamIsContiguous(torrent: seq<Byte>, at: nat, outs: seq<seq<Byte>>)
    requires IsStream(torrent, at, outs) && at <= |torrent|
    ensures at + |Flatten(outs)| <= |torrent| && Flatten(outs) == torrent[at..at + |Flatten(outs)|]
    decreases |outs|
  {
    if outs != [] {
      StreamIsContiguous(torrent, at + |outs[0]|, outs[1..]);
      FlattenFirst(outs[0], outs[1..]);
      assert [outs[0]] + outs[1..] == outs;
    }
  }

  /** A read inside the file that is no longer than a piece is one step of such a stream. */
  lemma ShortReadStreams(l: Layout, torrent: seq<Byte>, buffer: seq<Byte>, was: seq<Byte>, offset: int, size: int,
                         position: int, ret: int, stop: int)
    requires l.Ok() && |torrent| == l.total && InTorrent(l, offset, size)
    requires 0 <= position && 0 < |buffer| <= l.pieceLength && position + |buffer| <= size
    requires var f := NewFile(l, offset, size);
             PieceFromOffset(f, l.pieceLength, position) <= stop
             <= PieceFromOffset(f, l.pieceLength, position + |buffer| - 1) + 1
    requires stop <= PieceFromOffset(NewFile(l, offset, size), l.pieceLength, position) + 2 ==>
               Holds(buffer, was, torrent, offset + position, ret)
    ensures 0 <= ret <= |buffer| && offset + position + ret <= |torrent|
    ensures buffer[..ret] == torrent[offset + position..offset + position + ret]
  {
    var f, pl := NewFile(l, offset, size), l.pieceLength;
    PieceFromOffsetIs(l, offset, size, position);
    PieceFromOffsetIs(l, offset, size, position + |buffer| - 1);
    ShortRequest(pl, offset + position, |buffer|, PieceFromOffset(f, pl, position),
                 PieceFromOffset(f, pl, position + |buffer| - 1));
  }

  /** A request for some bytes, and the pieces that are there when it is made. */
  datatype Call = Call(length: nat, available: set<int>)

  /** A client that makes one short read after the other inside the file: what it gets, put
      together, is the contiguous stream of the file's bytes from where the reader stood. */
  method ReadInTurn(reader: Reader, store: MemoryStorage, calls: seq<Call>, ghost torrent: seq<Byte>)
    returns (out: seq<Byte>)
    requires reader.Valid() && store.Valid() && reader.position <= reader.file.size
    requires forall i :: 0 <= i < |calls| ==>
               0 < calls[i].length <= reader.layout.pieceLength
                 && Faithful(reader.layout, store.State(), torrent, calls[i].available)
    requires |torrent| == reader.layout.total
    modifies reader, store
    ensures reader.Valid() && store.Valid() && old(reader.position) <= reader.position <= reader.file.size
    ensures reader.file.offset + reader.position <= |torrent|
    ensures out == torrent[reader.file.offset + old(reader.position)..reader.file.offset + reader.position]
  {
    hide Inv, Contents, Layout.Count, Faithful, ServeFrom, Holds, Delivered, PieceFromOffset, NewFile;
    out := [];
    var from := reader.file.offset;
    ghost var s := store.State();
    for i := 0 to |calls|
      invariant reader.Valid() && store.Valid() && Contents(store.State()) == Contents(s)
      invariant forall k :: 0 <= k < |calls| ==> Faithful(reader.layout, store.State(), torrent, calls[k].available)
      invariant old(reader.position) <= reader.position <= reader.file.size
      invariant out == torrent[from + old(reader.position)..from + reader.position]
    {
      if reader.position + calls[i].length > reader.file.size {
        return;
      }
      var buffer := new Byte[calls[i].length];
      var position, was := reader.position, buffer[..];
      ghost var t := store.State();
      var ret, inBounds := reader.Read(store, buffer, calls[i].available, torrent);
      forall k | 0 <= k < |calls|
        ensures Faithful(reader.layout, store.State(), torrent, calls[k].available)
      {
        FaithfulKept(reader.layout, t, store.State(), torrent, calls[k].available);
      }
      if position < reader.file.size {
        RequestOrder(reader.layout, reader.file, position, buffer.Length);
        ShortReadStreams(reader.layout, torrent, buffer[..], was, from, reader.file.size, position, ret,
                         FirstMissing(reader.pieceStart, reader.pieceEnd, calls[i].available));
        out := out + buffer[..ret];
      }
    }
  }
}
