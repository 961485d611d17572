/** How bytes of a torrent fall into pieces: `region_pieces` of src/utils/pieces.h and
    `piece_from_offset` of src/bittorrent/reader.cpp. */
module PieceLayout {
  import opened Arithmetic

  /** A torrent of `total` bytes cut into pieces of `pieceLength` bytes, the last one possibly
      shorter. */
  datatype Layout = Layout(pieceLength: int, total: int) {
    predicate Ok() { 0 < pieceLength && 0 < total }

    function Count(): int
      requires Ok()
    {
      CeilDiv(total, pieceLength)
    }

    /** The bytes of piece `p` are those from Start(p) to before End(p). */
    function Start(p: int): int { p * pieceLength }

    function End(p: int): int { Min((p + 1) * pieceLength, total) }

    function Length(p: int): int { End(p) - Start(p) }
  }

  /** First and last piece of a region of bytes. */
  function RegionPieces(offset: int, size: int, pieceLength: int, count: int): (int, int) {
    if pieceLength <= 0 then (0, 0)
    else (Max(0, TruncDiv(offset, pieceLength)), Min(count - 1, TruncDiv(offset + size - 1, pieceLength)))
  }

  /** Piece `p` holds a byte of the region. */
  predicate Meets(l: Layout, p: int, offset: int, size: int)
    requires l.Ok()
  {
    0 <= p < l.Count() && Max(l.Start(p), offset) < Min(l.End(p), offset + size)
  }

  /** That is, one of its bytes: those from its number times the piece length on, up to the next
      piece or the end of the torrent. */
  lemma MeetsIsSharing(l: Layout, p: int, offset: int, size: int)
    requires l.Ok()
    ensures Meets(l, p, offset, size) <==>
              && 0 <= p < l.Count()
              && exists b :: SharesByte(l, p, offset, size, b)
  {
    hide CeilDiv;
    if Meets(l, p, offset, size) {
      assert SharesByte(l, p, offset, size, Max(l.Start(p), offset));
    }
  }

  predicate SharesByte(l: Layout, p: int, offset: int, size: int, b: int) {
    && p * l.pieceLength <= b < (p + 1) * l.pieceLength && b < l.total
    && offset <= b < offset + size
  }

  predicate InTorrent(l: Layout, offset: int, size: int) {
    0 <= offset && 0 < size && offset + size <= l.total
  }

  lemma CountBounds(l: Layout)
    requires l.Ok()
    ensures 0 < l.Count() && (l.Count() - 1) * l.pieceLength < l.total <= l.Count() * l.pieceLength
  {
    var n, d := l.total + l.pieceLength - 1, l.pieceLength;
    assert n == (n / d) * d + n % d;
    assert (n / d - 1) * d == (n / d) * d - d;
    if n / d <= 0 {
      MulMonotone(n / d, 0, d);
    }
  }

  /** The piece of a byte is its position divided by the piece length. */
  lemma PieceOfByte(l: Layout, b: int)
    requires l.Ok() && 0 <= b < l.total
    ensures var p := b / l.pieceLength; 0 <= p < l.Count() && l.Start(p) <= b < l.End(p)
  {
    var p, d := b / l.pieceLength, l.pieceLength;
    CountBounds(l);
    assert b == p * d + b % d;
    assert (p + 1) * d == p * d + d;
    if p < 0 {
      MulMonotone(p + 1, 0, d);
    }
    if l.Count() <= p {
      MulMonotone(l.Count(), p, d);
    }
  }

  lemma StartMonotone(l: Layout, p: int, q: int)
    requires l.Ok() && p <= q
    ensures l.Start(p) <= l.Start(q)
    ensures p < q ==> l.Start(p) + l.pieceLength <= l.Start(q)
  {
    MulMonotone(p, q, l.pieceLength);
    if p < q {
      MulMonotone(p + 1, q, l.pieceLength);
      assert (p + 1) * l.pieceLength == p * l.pieceLength + l.pieceLength;
    }
  }

  lemma PieceInTorrent(l: Layout, p: int)
    requires l.Ok() && 0 <= p < l.Count()
    ensures 1 <= l.Length(p) <= l.pieceLength && 0 <= l.Start(p) && l.Start(p) + l.Length(p) <= l.total
  {
    hide CeilDiv;
    CountBounds(l);
    StartMonotone(l, p, l.Count() - 1);
    assert (p + 1) * l.pieceLength == l.Start(p) + l.pieceLength;
  }

  lemma RegionPiecesAre(l: Layout, offset: int, size: int)
    requires l.Ok() && InTorrent(l, offset, size)
    ensures var r := RegionPieces(offset, size, l.pieceLength, l.Count());
            && r.0 == offset / l.pieceLength && r.1 == (offset + size - 1) / l.pieceLength
            && 0 <= r.0 <= r.1 < l.Count()
  {
    PieceOfByte(l, offset);
    PieceOfByte(l, offset + size - 1);
    DivMonotone(offset, offset + size - 1, l.pieceLength);
  }

  lemma MeetingBetween(l: Layout, offset: int, size: int, p: int, first: int, last: int)
    requires l.Ok() && InTorrent(l, offset, size) && 0 <= first <= last < l.Count()
    requires l.Start(first) <= offset < l.Start(first) + l.pieceLength
    requires l.Start(last) <= offset + size - 1 < l.Start(last) + l.pieceLength
    ensures first <= p <= last <==> Meets(l, p, offset, size)
  {
    hide CeilDiv;
    var start := l.Start(p);
    assert l.End(p) == Min(start + l.pieceLength, l.total);
    if p < first {
      StartMonotone(l, p, first);
    } else if last < p {
      StartMonotone(l, last, p);
    } else {
      StartMonotone(l, first, p);
      StartMonotone(l, p, last);
    }
  }

  /** The region's range holds exactly the pieces that share a byte with it. */
  lemma RegionIsMeeting(l: Layout, offset: int, size: int, p: int)
    requires l.Ok() && InTorrent(l, offset, size)
    ensures var r := RegionPieces(offset, size, l.pieceLength, l.Count());
            r.0 <= p <= r.1 <==> Meets(l, p, offset, size)
  {
    hide CeilDiv, RegionPieces, Meets;
    RegionPiecesAre(l, offset, size);
    var first, last := offset / l.pieceLength, (offset + size - 1) / l.pieceLength;
    ByteInPiece(l, offset, first);
    ByteInPiece(l, offset + size - 1, last);
    MeetingBetween(l, offset, size, p, first, last);
  }

  lemma ByteInPiece(l: Layout, b: int, p: int)
    requires l.Ok() && 0 <= b < l.total && p == b / l.pieceLength
    ensures l.Start(p) <= b < l.Start(p) + l.pieceLength
  {
    PieceOfByte(l, b);
    assert (p + 1) * l.pieceLength == l.Start(p) + l.pieceLength;
  }

  /** A file of a torrent with the range of its pieces, as it is built. */
  datatype FileRange = FileRange(offset: int, size: int, pieceStart: int, pieceEnd: int)

  function NewFile(l: Layout, offset: int, size: int): FileRange
    requires l.Ok()
  {
    var r := RegionPieces(offset, size, l.pieceLength, l.Count());
    FileRange(offset, size, r.0, r.1)
  }

  /** The piece of a position of the file, kept within the file's range. */
  function PieceFromOffset(f: FileRange, pieceSize: int, position: int): int {
    if pieceSize <= 0 then 0
    else
      var p := TruncDiv(f.offset + position, pieceSize);
      if p > f.pieceEnd then f.pieceEnd else if p < f.pieceStart then f.pieceStart else p
  }

  /** Place of a byte of the torrent within its piece. */
  function OffsetIn(pl: int, b: int): (r: int)
    requires 0 < pl
    ensures 0 <= r < pl
  {
    b % pl
  }

  /** Every position gives a piece of the file, and a position inside the file its own piece. */
  lemma PieceFromOffsetIs(l: Layout, offset: int, size: int, position: int)
    requires l.Ok() && InTorrent(l, offset, size)
    ensures var f := NewFile(l, offset, size);
            && f.pieceStart <= PieceFromOffset(f, l.pieceLength, position) <= f.pieceEnd
            && (0 <= position < size ==>
                PieceFromOffset(f, l.pieceLength, position) == (offset + position) / l.pieceLength)
  {
    RegionPiecesAre(l, offset, size);
    if 0 <= position < size {
      DivMonotone(offset, offset + position, l.pieceLength);
      DivMonotone(offset + position, offset + size - 1, l.pieceLength);
    }
  }

  lemma TruncMonotone(a: int, b: int, d: int)
    requires a <= b && 0 < d
    ensures TruncDiv(a, d) <= TruncDiv(b, d)
  {
    if b < 0 {
      DivMonotone(-b, -a, d);
    } else if a < 0 {
      DivMonotone(0, -a, d);
      DivMonotone(0, b, d);
    } else {
      DivMonotone(a, b, d);
    }
  }

  /** Later positions never give earlier pieces. */
  lemma PieceFromOffsetMonotone(f: FileRange, pieceSize: int, a: int, b: int)
    requires a <= b && f.pieceStart <= f.pieceEnd
    ensures PieceFromOffset(f, pieceSize, a) <= PieceFromOffset(f, pieceSize, b)
  {
    if pieceSize > 0 {
      TruncMonotone(f.offset + a, f.offset + b, pieceSize);
    }
  }
}
