/** The readahead scheduler, `Torrent::prioritize` of src/bittorrent/torrent.cpp: readers take
    turns to put their next piece into a window of limited length, and the window is turned into
    piece priorities. */
module Readahead {
  import opened Arithmetic

  /** What the scheduler sees of a reader: where it reads, the last piece of its file and whether
      it is closing. */
  datatype Reader = Reader(pieceStart: int, pieceEndLimit: int, isClosing: bool)

  /** The reader still has a piece at distance `d` from where it reads. */
  predicate Reaches(r: Reader, d: int) { !r.isClosing && r.pieceStart + d <= r.pieceEndLimit }

  /** The pieces at distance `d`, in the order of the readers. */
  function Round(readers: seq<Reader>, d: nat): seq<int> {
    if readers == [] then []
    else
      var r := readers[|readers| - 1];
      Round(readers[..|readers| - 1], d) + (if Reaches(r, d) then [r.pieceStart + d] else [])
  }

  /** The round-robin enumeration: all pieces at distance 0, then at distance 1, and so on. */
  function Rounds(readers: seq<Reader>, n: nat): seq<int> {
    if n == 0 then [] else Rounds(readers, n - 1) + Round(readers, n - 1)
  }

  /** The first occurrences, in order. */
  function Dedup(xs: seq<int>): seq<int> {
    if xs == [] then []
    else
      var front, x := Dedup(xs[..|xs| - 1]), xs[|xs| - 1];
      if x in front then front else front + [x]
  }

  /** The most pieces that an open reader has in front of it. */
  function Longest(readers: seq<Reader>): nat {
    if readers == [] then 0
    else
      var r := readers[|readers| - 1];
      Max(Longest(readers[..|readers| - 1]), if r.isClosing then 0 else r.pieceEndLimit - r.pieceStart + 1)
  }

  /** The window: the enumeration without repeats, cut at the limit. */
  function Window(readers: seq<Reader>, limit: int): seq<int> {
    var all := Dedup(Rounds(readers, Longest(readers)));
    all[..Min(Max(limit, 0), |all|)]
  }

  predicate Distinct(xs: seq<int>) {
    forall i, j :: 0 <= i < j < |xs| ==> xs[i] != xs[j]
  }

  // ---------------------------------------------------------------- the enumeration

  lemma {:induction false} LongestReaches(readers: seq<Reader>, k: nat, d: nat)
    requires k < |readers| && Reaches(readers[k], d)
    ensures d < Longest(readers)
  {
    if k < |readers| - 1 {
      LongestReaches(readers[..|readers| - 1], k, d);
    }
  }

  lemma {:induction false} RoundEmpty(readers: seq<Reader>, d: nat)
    requires forall k :: 0 <= k < |readers| ==> !Reaches(readers[k], d)
    ensures Round(readers, d) == []
  {
    if readers != [] {
      RoundEmpty(readers[..|readers| - 1], d);
    }
  }

  lemma RoundNext(readers: seq<Reader>, k: nat, d: nat)
    requires k < |readers|
    ensures Round(readers[..k + 1], d)
            == Round(readers[..k], d) + (if Reaches(readers[k], d) then [readers[k].pieceStart + d] else [])
  {
    assert readers[..k + 1][..k] == readers[..k];
  }

  lemma EnumerationNext(readers: seq<Reader>, k: nat, d: nat)
    requires k < |readers|
    ensures var before, after := Rounds(readers, d) + Round(readers[..k], d),
            Rounds(readers, d) + Round(readers[..k + 1], d);
            after == if Reaches(readers[k], d) then before + [readers[k].pieceStart + d] else before
  {
    hide Round, Rounds;
    RoundNext(readers, k, d);
  }

  lemma {:induction false} RoundPrefix(readers: seq<Reader>, k: nat, d: nat)
    requires k <= |readers|
    ensures Round(readers[..k], d) <= Round(readers, d)
    decreases |readers| - k
  {
    if k == |readers| {
      assert readers[..k] == readers;
    } else {
      RoundPrefix(readers, k + 1, d);
      RoundNext(readers, k, d);
    }
  }

  lemma RoundsNext(readers: seq<Reader>, n: nat)
    ensures Rounds(readers, n + 1) == Rounds(readers, n) + Round(readers, n)
  {
  }

  lemma {:induction false} RoundsPrefix(readers: seq<Reader>, m: nat, n: nat)
    requires m <= n
    ensures Rounds(readers, m) <= Rounds(readers, n)
    decreases n
  {
    if m < n {
      RoundsPrefix(readers, m, n - 1);
    }
  }

  /** Rounds beyond the longest reader add nothing. */
  lemma {:induction false} RoundsEnd(readers: seq<Reader>, n: nat)
    requires Longest(readers) <= n
    ensures Rounds(readers, n) == Rounds(readers, Longest(readers))
    decreases n
  {
    if Longest(readers) < n {
      RoundsEnd(readers, n - 1);
      NoneReaches(readers, n - 1);
      RoundEmpty(readers, n - 1);
    }
  }

  lemma {:induction false} DedupPrefix(xs: seq<int>, ys: seq<int>)
    ensures Dedup(xs) <= Dedup(xs + ys)
    decreases |ys|
  {
    if ys == [] {
      assert xs + ys == xs;
    } else {
      DedupPrefix(xs, ys[..|ys| - 1]);
      assert (xs + ys)[..|xs + ys| - 1] == xs + ys[..|ys| - 1];
    }
  }

  lemma DedupPrefixOf(xs: seq<int>, all: seq<int>)
    requires xs <= all
    ensures Dedup(xs) <= Dedup(all)
  {
    DedupPrefix(xs, all[|xs|..]);
    assert xs + all[|xs|..] == all;
  }

  lemma DedupNext(xs: seq<int>, x: int)
    ensures Dedup(xs + [x]) == if x in Dedup(xs) then Dedup(xs) else Dedup(xs) + [x]
  {
    assert (xs + [x])[..|xs|] == xs;
  }

  /** Removing repeats keeps the elements and leaves each once. */
  lemma {:induction false} DedupElements(xs: seq<int>)
    ensures Distinct(Dedup(xs))
    ensures forall x :: x in Dedup(xs) <==> x in xs
  {
    if xs != [] {
      DedupElements(xs[..|xs| - 1]);
      assert xs == xs[..|xs| - 1] + [xs[|xs| - 1]];
    }
  }

  /** A piece is enumerated exactly when some open reader has it in front of it. */
  predicate Wanted(readers: seq<Reader>, x: int) {
    exists k :: 0 <= k < |readers| && !readers[k].isClosing && readers[k].pieceStart <= x <= readers[k].pieceEndLimit
  }

  lemma {:induction false} RoundElements(readers: seq<Reader>, d: nat, x: int)
    ensures x in Round(readers, d) <==> exists k ::
            0 <= k < |readers| && Reaches(readers[k], d) && x == readers[k].pieceStart + d
  {
    if readers != [] {
      var n := |readers| - 1;
      RoundElements(readers[..n], d, x);
      if k :| 0 <= k < |readers| && Reaches(readers[k], d) && x == readers[k].pieceStart + d {
        assert k < n ==> readers[..n][k] == readers[k];
      }
    }
  }

  lemma RoundInRounds(readers: seq<Reader>, n: nat, d: nat, x: int)
    requires d < n && x in Round(readers, d)
    ensures x in Rounds(readers, n)
  {
    hide Round, Rounds;
    RoundsNext(readers, d);
    RoundsPrefix(readers, d + 1, n);
    assert x in Rounds(readers, d + 1);
  }

  lemma {:induction false} RoundOfElement(readers: seq<Reader>, n: nat, x: int) returns (d: nat)
    requires x in Rounds(readers, n)
    ensures d < n && x in Round(readers, d)
    decreases n
  {
    if x in Rounds(readers, n - 1) {
      d := RoundOfElement(readers, n - 1, x);
    } else {
      d := n - 1;
    }
  }

  lemma EnumerationIsWanted(readers: seq<Reader>, x: int)
    ensures x in Rounds(readers, Longest(readers)) <==> Wanted(readers, x)
  {
    if Wanted(readers, x) {
      var k :| 0 <= k < |readers| && !readers[k].isClosing && readers[k].pieceStart <= x <= readers[k].pieceEndLimit;
      var d := x - readers[k].pieceStart;
      LongestReaches(readers, k, d);
      RoundElements(readers, d, x);
      RoundInRounds(readers, Longest(readers), d, x);
    }
    if x in Rounds(readers, Longest(readers)) {
      var d := RoundOfElement(readers, Longest(readers), x);
      RoundElements(readers, d, x);
    }
  }

  /** The window has no repeats, holds only wanted pieces, is no longer than the limit, and is
      short of the limit only when it holds every wanted piece. */
  lemma WindowIsFair(readers: seq<Reader>, limit: int)
    ensures Distinct(Window(readers, limit)) && |Window(readers, limit)| <= Max(limit, 0)
    ensures forall x :: x in Window(readers, limit) ==> Wanted(readers, x)
    ensures |Window(readers, limit)| < limit ==> forall x :: Wanted(readers, x) ==> x in Window(readers, limit)
  {
    var xs := Rounds(readers, Longest(readers));
    DedupElements(xs);
    forall x
      ensures x in Dedup(xs) <==> Wanted(readers, x)
    {
      EnumerationIsWanted(readers, x);
    }
    assert forall x :: x in Window(readers, limit) ==> x in Dedup(xs);
  }

  // ---------------------------------------------------------------- the order

  /** Reader `k` has piece `x` in front of it at a distance of at most `d`, or less than `d` if the
      reader comes after reader `turn`. */
  predicate InTurn(readers: seq<Reader>, x: int, d: int, turn: int, k: int)
    requires 0 <= k < |readers|
  {
    var distance := x - readers[k].pieceStart;
    0 <= distance && Reaches(readers[k], distance) && (distance < d || (distance == d && k <= turn))
  }

  /** Some reader puts `x` forward no later than reader `turn` does with its piece at distance `d`. */
  predicate ComesBy(readers: seq<Reader>, x: int, d: int, turn: int) {
    exists k :: 0 <= k < |readers| && InTurn(readers, x, d, turn, k)
  }

  /** The enumeration up to that turn has exactly these pieces. */
  lemma EnumeratedByTurn(readers: seq<Reader>, d: nat, turn: nat, x: int)
    requires turn < |readers|
    ensures x in Rounds(readers, d) + Round(readers[..turn + 1], d) <==> ComesBy(readers, x, d, turn)
  {
    hide Round, Rounds;
    var now := readers[..turn + 1];
    RoundElements(now, d, x);
    if ComesBy(readers, x, d, turn) {
      var k :| 0 <= k < |readers| && InTurn(readers, x, d, turn, k);
      var distance := x - readers[k].pieceStart;
      if distance < d {
        RoundElements(readers, distance, x);
        RoundInRounds(readers, d, distance, x);
      } else {
        assert now[k] == readers[k];
      }
    }
    if x in Rounds(readers, d) {
      var distance := RoundOfElement(readers, d, x);
      RoundElements(readers, distance, x);
      var k :| 0 <= k < |readers| && Reaches(readers[k], distance) && x == readers[k].pieceStart + distance;
      assert InTurn(readers, x, d, turn, k);
    } else if x in Round(now, d) {
      var k :| 0 <= k < |now| && Reaches(now[k], d) && x == now[k].pieceStart + d;
      assert InTurn(readers, x, d, turn, k);
    }
  }

  lemma TurnIsPrefix(readers: seq<Reader>, d: nat, turn: nat)
    requires turn < |readers| && d < Longest(readers)
    ensures Dedup(Rounds(readers, d) + Round(readers[..turn + 1], d)) <= Dedup(Rounds(readers, Longest(readers)))
  {
    hide Round, Rounds, Longest, Dedup;
    RoundsNext(readers, d);
    RoundPrefix(readers, turn + 1, d);
    RoundsPrefix(readers, d + 1, Longest(readers));
    DedupPrefixOf(Rounds(readers, d) + Round(readers[..turn + 1], d), Rounds(readers, Longest(readers)));
  }

  /** The window is filled in turns, nearest pieces first: a piece that comes by some turn is in the
      window, before every piece of the window that does not come by then. */
  lemma WindowInTurns(readers: seq<Reader>, limit: int, d: nat, turn: nat, x: int, j: nat)
    requires turn < |readers| && ComesBy(readers, x, d, turn)
    requires j < |Window(readers, limit)| && !ComesBy(readers, Window(readers, limit)[j], d, turn)
    ensures exists i :: 0 <= i < j && Window(readers, limit)[i] == x
  {
    hide Round, Rounds, Longest, Dedup, ComesBy;
    var y, all := Window(readers, limit)[j], Dedup(Rounds(readers, Longest(readers)));
    var early := Rounds(readers, d) + Round(readers[..turn + 1], d);
    DedupElements(early);
    DedupElements(Rounds(readers, Longest(readers)));
    EnumeratedByTurn(readers, d, turn, x);
    EnumeratedByTurn(readers, d, turn, y);
    assert y in Rounds(readers, Longest(readers)) by { assert all[j] == y; }
    LaterTurn(readers, d, turn, y);
    TurnIsPrefix(readers, d, turn);
    var i :| 0 <= i < |Dedup(early)| && Dedup(early)[i] == x;
    assert all[i] == x;
    assert forall m :: 0 <= m < |Dedup(early)| ==> all[m] == Dedup(early)[m] && all[m] in early;
    assert Window(readers, limit)[i] == x;
  }

  lemma LaterTurn(readers: seq<Reader>, d: nat, turn: nat, y: int)
    requires turn < |readers| && y in Rounds(readers, Longest(readers)) && !ComesBy(readers, y, d, turn)
    ensures d < Longest(readers)
  {
    hide Round, Rounds, Longest;
    EnumerationIsWanted(readers, y);
    var k :| 0 <= k < |readers| && !readers[k].isClosing && readers[k].pieceStart <= y <= readers[k].pieceEndLimit;
    assert !InTurn(readers, y, d, turn, k);
    LongestReaches(readers, k, y - readers[k].pieceStart);
  }

  // ---------------------------------------------------------------- the loop

  /** Number of set flags. */
  function Count(flags: seq<bool>): nat {
    if flags == [] then 0 else Count(flags[..|flags| - 1]) + (if flags[|flags| - 1] then 1 else 0)
  }

  lemma {:induction false} CountSet(flags: seq<bool>, k: nat)
    requires k < |flags| && !flags[k]
    ensures Count(flags[k := true]) == Count(flags) + 1
  {
    var n := |flags| - 1;
    if k < n {
      CountSet(flags[..n], k);
      assert flags[k := true][..n] == flags[..n][k := true];
    } else {
      assert flags[k := true][..n] == flags[..n];
    }
  }

  lemma {:induction false} CountBound(flags: seq<bool>)
    ensures Count(flags) <= |flags|
    ensures Count(flags) == |flags| <==> forall k :: 0 <= k < |flags| ==> flags[k]
  {
    if flags != [] {
      CountBound(flags[..|flags| - 1]);
      assert flags == flags[..|flags| - 1] + [flags[|flags| - 1]];
    }
  }

  lemma {:induction false} CountNone(flags: seq<bool>)
    requires forall k :: 0 <= k < |flags| ==> !flags[k]
    ensures Count(flags) == 0
  {
    if flags != [] {
      CountNone(flags[..|flags| - 1]);
    }
  }

  /** Flags and finished count after the first `k` readers of round `d`. */
  ghost predicate FlagsOk(readers: seq<Reader>, flags: seq<bool>, finished: int, d: int, k: int) {
    && |flags| == |readers| && finished == Count(flags)
    && (forall j :: 0 <= j < |readers| && j < k ==> (flags[j] <==> !Reaches(readers[j], d)))
    && (forall j :: 0 <= j < |readers| && k <= j ==> (flags[j] <==> d > 0 && !Reaches(readers[j], d - 1)))
  }

  /** The round of the scheduler at distance `d`: every reader that is not finished adds its piece
      unless the window has it, until the limit is used up. */
  method OneRound(readers: seq<Reader>, window: seq<int>, left: int, flags: seq<bool>, finished: int, d: nat)
    returns (window': seq<int>, left': int, flags': seq<bool>, finished': int)
    requires 0 < left && FlagsOk(readers, flags, finished, d, 0) && window == Dedup(Rounds(readers, d))
    ensures left' == left + |window| - |window'| && 0 <= left' && finished' <= |readers|
    ensures 0 < left' ==> FlagsOk(readers, flags', finished', d, |readers|) && window' == Dedup(Rounds(readers, d + 1))
    ensures left' == 0 ==> d < Longest(readers) && window' <= Dedup(Rounds(readers, d + 1))
  {
    hide Dedup, Count, Longest, Rounds, Round;
    window', left', flags', finished' := window, left, flags, finished;
    CountBound(flags);
    var k := 0;
    RoundEmpty(readers[..0], d);
    assert Rounds(readers, d) + [] == Rounds(readers, d);
    RoundsNext(readers, d);
    while k < |readers|
      invariant 0 <= k <= |readers|
      invariant left' == left + |window| - |window'| && 0 < left'
      invariant FlagsOk(readers, flags', finished', d, k)
      invariant window' == Dedup(Rounds(readers, d) + Round(readers[..k], d))
    {
      var r := readers[k];
      var index := r.pieceStart + d;
      EnumerationNext(readers, k, d);
      if flags'[k] {
      } else if r.isClosing || index > r.pieceEndLimit {
        CountSet(flags', k);
        flags' := flags'[k := true];
        finished' := finished' + 1;
      } else {
        DedupNext(Rounds(readers, d) + Round(readers[..k], d), index);
        if index !in window' {
          window' := window' + [index];
          left' := left' - 1;
          if left' <= 0 {
            LongestReaches(readers, k, d);
            RoundPrefix(readers, k + 1, d);
            DedupPrefixOf(Rounds(readers, d) + Round(readers[..k + 1], d), Rounds(readers, d + 1));
            CountBound(flags');
            return;
          }
        }
      }
      k := k + 1;
    }
    assert readers[..|readers|] == readers;
    CountBound(flags');
  }

  /** The scheduler's window loop. It computes the window and ends within one round more than the
      longest reader has pieces, even when rounds add only repeats. */
  method CollectWindow(readers: seq<Reader>, limit: int) returns (window: seq<int>, rounds: nat)
    ensures window == Window(readers, limit)
    ensures rounds <= Longest(readers) + 1
  {
    hide Dedup, Count, Longest, Rounds, Round, Window;
    window, rounds := [], 0;
    WindowStart(readers);
    var left, finished := limit, 0;
    var flags := seq(|readers|, _ => false);
    CountNone(flags);
    while finished < |readers| && left > 0
      invariant rounds <= Longest(readers) + 1 && finished <= |readers|
      invariant left == limit - |window|
      invariant 0 < left ==> FlagsOk(readers, flags, finished, rounds, 0) && window == Dedup(Rounds(readers, rounds))
      invariant left <= 0 ==> window <= Dedup(Rounds(readers, Longest(readers))) && |window| == Max(limit, 0)
      decreases Longest(readers) + 1 - rounds
    {
      if rounds == Longest(readers) + 1 {
        NoneReaches(readers, Longest(readers));
        CountBound(flags);
      }
      window, left, flags, finished := OneRound(readers, window, left, flags, finished, rounds);
      rounds := rounds + 1;
      if left == 0 {
        RoundsPrefix(readers, rounds, Longest(readers));
        DedupPrefixOf(Rounds(readers, rounds), Rounds(readers, Longest(readers)));
      }
    }
    if left > 0 {
      CountBound(flags);
      if rounds == 0 {
        CountNone(flags);
      }
      AllFinished(readers, rounds);
      RoundsEnd(readers, rounds);
    }
    WindowIsPrefix(readers, limit, window);
  }

  lemma WindowStart(readers: seq<Reader>)
    ensures Dedup(Rounds(readers, 0)) == [] && [] <= Dedup(Rounds(readers, Longest(readers)))
  {
  }

  lemma WindowIsPrefix(readers: seq<Reader>, limit: int, window: seq<int>)
    requires window <= Dedup(Rounds(readers, Longest(readers)))
    requires |window| == Max(limit, 0) || (|window| <= limit && window == Dedup(Rounds(readers, Longest(readers))))
    ensures window == Window(readers, limit)
  {
    hide Dedup, Rounds, Longest;
  }

  lemma NoneReaches(readers: seq<Reader>, d: nat)
    requires Longest(readers) <= d
    ensures forall k :: 0 <= k < |readers| ==> !Reaches(readers[k], d)
  {
    forall k | 0 <= k < |readers|
      ensures !Reaches(readers[k], d)
    {
      if Reaches(readers[k], d) {
        LongestReaches(readers, k, d);
      }
    }
  }

  lemma {:induction false} AllFinished(readers: seq<Reader>, n: nat)
    requires n == 0 ==> readers == []
    requires forall k :: 0 <= k < |readers| ==> !Reaches(readers[k], n - 1)
    ensures Longest(readers) <= n
  {
    if readers != [] {
      AllFinished(readers[..|readers| - 1], n);
    }
  }
}
