/** The priorities that `Torrent::prioritize` of src/bittorrent/torrent.cpp asks for: pieces
    outside the readahead window are dropped (with memory storage only), and the missing pieces
    of the window are raised to the tier of their place in it. */
module Priorities {
  import opened Arithmetic
  import opened Readahead

  datatype Request = Request(piece: int, priority: int)

  function Pow(b: int, n: nat): (r: int)
    ensures b > 0 ==> r > 0
  {
    if n == 0 then 1 else b * Pow(b, n - 1)
  }

  /** The n-th group size a * 1.7^(n-1), cut to an integer. */
  function Progression(a: int, n: nat): int
    requires n >= 1
  {
    a * Pow(17, n - 1) / Pow(10, n - 1)
  }

  /** Group sizes of the five groups that are ever used. */
  lemma GroupSizes()
    ensures Progression(2, 1) == 2 && Progression(2, 2) == 3 && Progression(2, 3) == 5
    ensures Progression(2, 4) == 9 && Progression(2, 5) == 16
  {
    assert Pow(17, 1) == 17 && Pow(17, 2) == 289 && Pow(17, 3) == 4913 && Pow(17, 4) == 83521;
    assert Pow(10, 1) == 10 && Pow(10, 2) == 100 && Pow(10, 3) == 1000 && Pow(10, 4) == 10000;
  }

  /** The priority of the i-th entry of the window. */
  function Tier(i: nat): int {
    if i < 2 then 5 else if i < 5 then 4 else if i < 10 then 3 else 2
  }

  predicate InRange(window: seq<int>, n: nat) {
    forall i :: 0 <= i < |window| ==> 0 <= window[i] < n
  }

  /** Requests that drop the first `n` pieces that have a priority and are not in the window. */
  function Drops(window: seq<int>, priority: seq<int>, n: nat): seq<Request>
    requires n <= |priority|
  {
    if n == 0 then []
    else Drops(window, priority, n - 1)
         + (if priority[n - 1] > 0 && n - 1 !in window then [Request(n - 1, 0)] else [])
  }

  /** Requests that raise the missing ones of the first `n` window entries to their tier. */
  function Raises(window: seq<int>, priority: seq<int>, have: set<int>, n: nat): seq<Request>
    requires n <= |window| && InRange(window, |priority|)
  {
    if n == 0 then []
    else Raises(window, priority, have, n - 1)
         + (if window[n - 1] !in have && priority[window[n - 1]] < Tier(n - 1)
            then [Request(window[n - 1], Tier(n - 1))] else [])
  }

  function Requests(memory: bool, window: seq<int>, priority: seq<int>, have: set<int>): seq<Request>
    requires InRange(window, |priority|)
  {
    (if memory then Drops(window, priority, |priority|) else []) + Raises(window, priority, have, |window|)
  }

  // ---------------------------------------------------------------- the loops

  /** The progression's variables after `i` window entries: the group at hand and what is left
      of it. */
  ghost predicate TierState(i: nat, priority: int, group: int, left: int) {
    if i <= 2 then priority == 5 && group == 1 && left == 2 - i
    else if i <= 5 then priority == 4 && group == 2 && left == 5 - i
    else if i <= 10 then priority == 3 && group == 3 && left == 10 - i
    else if i <= 19 then priority == 2 && group == 4 && left == 19 - i
    else priority == 1 && group == 5 && left == 35 - i
  }

  /** One more window entry. */
  lemma TierNext(i: nat, tier: int, group: int, left: int, tier': int, group': int, left': int)
    requires TierState(i, tier, group, left)
    requires if left <= 0 && tier > 1
             then tier' == tier - 1 && group' == group + 1 && left' == Progression(2, group') - 1
             else tier' == tier && group' == group && left' == left - 1
    ensures TierState(i + 1, tier', group', left') && Max(2, tier') == Tier(i)
  {
    GroupSizes();
  }

  lemma TierStart()
    ensures TierState(0, 5, 1, Progression(2, 1))
  {
    GroupSizes();
  }

  lemma TierGroup(i: nat, tier: int, group: int, left: int)
    requires TierState(i, tier, group, left)
    ensures group >= 1
  {
  }

  /** The requests of one scheduling. The tier loop gives priority 5 to the first two entries of
      the window, 4 to the next three, 3 to the next five and 2 to all others. */
  method BuildRequests(memory: bool, window: seq<int>, priority: seq<int>, have: set<int>)
    returns (requests: seq<Request>)
    requires InRange(window, |priority|)
    ensures requests == Requests(memory, window, priority, have)
  {
    requests := [];
    if memory {
      for piece := 0 to |priority|
        invariant requests == Drops(window, priority, piece)
      {
        if priority[piece] > 0 && piece !in window {
          requests := requests + [Request(piece, 0)];
        }
      }
    }
    ghost var drops := requests;
    hide TierState, Tier, Progression;
    TierStart();
    var tier, group := 5, 1;
    var left := Progression(2, 1);
    for i := 0 to |window|
      invariant TierState(i, tier, group, left)
      invariant requests == drops + Raises(window, priority, have, i)
    {
      TierGroup(i, tier, group, left);
      ghost var was := (tier, group, left);
      if left <= 0 && tier > 1 {
        tier := tier - 1;
        group := group + 1;
        left := Progression(2, group);
      }
      left := left - 1;
      TierNext(i, was.0, was.1, was.2, tier, group, left);
      var p := Max(2, tier);
      var piece := window[i];
      if piece !in have && (priority[piece] <= 0 || priority[piece] < p) {
        requests := requests + [Request(piece, p)];
      }
    }
  }

  // ---------------------------------------------------------------- what the requests do

  /** The picker's priorities after it took the requests one after the other. */
  function Apply(priority: seq<int>, requests: seq<Request>): (r: seq<int>)
    requires forall i :: 0 <= i < |requests| ==> 0 <= requests[i].piece < |priority|
    ensures |r| == |priority|
  {
    if requests == [] then priority
    else
      var last := requests[|requests| - 1];
      Apply(priority, requests[..|requests| - 1])[last.piece := last.priority]
  }

  predicate NoRepeats(requests: seq<Request>) {
    forall i, j :: 0 <= i < j < |requests| ==> requests[i].piece != requests[j].piece
  }

  predicate Requested(requests: seq<Request>, p: int) {
    exists i :: 0 <= i < |requests| && requests[i].piece == p
  }

  /** Requests for different pieces take effect as they are written, and on nothing else. */
  lemma {:induction false} ApplyNoRepeats(priority: seq<int>, requests: seq<Request>)
    requires NoRepeats(requests)
    requires forall i :: 0 <= i < |requests| ==> 0 <= requests[i].piece < |priority|
    ensures forall i :: 0 <= i < |requests| ==> Apply(priority, requests)[requests[i].piece] == requests[i].priority
    ensures forall p :: 0 <= p < |priority| && !Requested(requests, p) ==> Apply(priority, requests)[p] == priority[p]
  {
    if requests != [] {
      var front := requests[..|requests| - 1];
      ApplyNoRepeats(priority, front);
      assert forall i :: 0 <= i < |front| ==> front[i] == requests[i];
      forall p | 0 <= p < |priority| && !Requested(requests, p)
        ensures Apply(priority, requests)[p] == priority[p]
      {
        assert requests[|requests| - 1].piece != p;
        assert !Requested(front, p);
      }
    }
  }

  lemma RequestedNext(front: seq<Request>, r: Request, p: int)
    ensures Requested(front + [r], p) <==> Requested(front, p) || r.piece == p
  {
    var d := front + [r];
    if Requested(front, p) {
      var i :| 0 <= i < |front| && front[i].piece == p;
      assert d[i].piece == p;
    }
    if r.piece == p {
      assert d[|front|].piece == p;
    }
  }

  /** Drop requests for exactly the first `n` pieces that have a priority outside the window. */
  ghost predicate DropsOk(d: seq<Request>, window: seq<int>, priority: seq<int>, n: nat)
    requires n <= |priority|
  {
    && NoRepeats(d)
    && (forall i :: 0 <= i < |d| ==> d[i].priority == 0 && 0 <= d[i].piece < n && d[i].piece !in window)
    && (forall p :: 0 <= p < n ==> (Requested(d, p) <==> priority[p] > 0 && p !in window))
  }

  lemma DropsOkAdd(d: seq<Request>, window: seq<int>, priority: seq<int>, n: nat)
    requires n < |priority| && DropsOk(d, window, priority, n) && priority[n] > 0 && n !in window
    ensures DropsOk(d + [Request(n, 0)], window, priority, n + 1)
  {
    var d' := d + [Request(n, 0)];
    assert !Requested(d, n);
    assert forall i :: 0 <= i < |d| ==> d'[i] == d[i];
    hide Requested;
    forall p | 0 <= p < n + 1
      ensures Requested(d', p) <==> priority[p] > 0 && p !in window
    {
      RequestedNext(d, Request(n, 0), p);
    }
  }

  lemma DropsOkNext(d: seq<Request>, window: seq<int>, priority: seq<int>, n: nat)
    requires n < |priority| && DropsOk(d, window, priority, n)
    ensures DropsOk(if priority[n] > 0 && n !in window then d + [Request(n, 0)] else d, window, priority, n + 1)
  {
    if priority[n] > 0 && n !in window {
      DropsOkAdd(d, window, priority, n);
    } else {
      assert !Requested(d, n);
    }
  }

  lemma {:induction false} DropsAre(window: seq<int>, priority: seq<int>, n: nat)
    requires n <= |priority|
    ensures DropsOk(Drops(window, priority, n), window, priority, n)
  {
    hide DropsOk;
    if n == 0 {
      NoDrops(window, priority);
    } else {
      DropsAre(window, priority, n - 1);
      DropsOkNext(Drops(window, priority, n - 1), window, priority, n - 1);
      assert Drops(window, priority, n - 1) + [] == Drops(window, priority, n - 1);
    }
  }

  lemma NoDrops(window: seq<int>, priority: seq<int>)
    ensures DropsOk([], window, priority, 0)
  {
  }

  lemma {:induction false} RaisesAre(window: seq<int>, priority: seq<int>, have: set<int>, n: nat)
    requires n <= |window| && InRange(window, |priority|) && Distinct(window)
    ensures var d := Raises(window, priority, have, n);
            && NoRepeats(d)
            && (forall i :: 0 <= i < |d| ==> exists j :: 0 <= j < n && d[i] == Request(window[j], Tier(j)))
            && (forall j :: 0 <= j < n ==>
                  (Requested(d, window[j]) <==> window[j] !in have && priority[window[j]] < Tier(j)))
  {
    if n > 0 {
      RaisesAre(window, priority, have, n - 1);
      var front, d := Raises(window, priority, have, n - 1), Raises(window, priority, have, n);
      forall i | 0 <= i < |d|
        ensures exists j :: 0 <= j < n && d[i] == Request(window[j], Tier(j))
      {
        if i < |front| {
          var j :| 0 <= j < n - 1 && front[i] == Request(window[j], Tier(j));
          assert d[i] == Request(window[j], Tier(j));
        } else {
          assert d[i] == Request(window[n - 1], Tier(n - 1));
        }
      }
      assert !Requested(front, window[n - 1]);
      hide Requested;
      assert front + [] == front;
      forall j | 0 <= j < n
        ensures Requested(d, window[j]) <==> window[j] !in have && priority[window[j]] < Tier(j)
      {
        RequestedNext(front, Request(window[n - 1], Tier(n - 1)), window[j]);
      }
    }
  }

  /** No piece is named twice, dropped pieces are outside the window and raised ones inside. */
  lemma RequestsAre(memory: bool, window: seq<int>, priority: seq<int>, have: set<int>)
    requires InRange(window, |priority|) && Distinct(window)
    ensures var rs := Requests(memory, window, priority, have);
            && NoRepeats(rs)
            && (forall i :: 0 <= i < |rs| ==> 0 <= rs[i].piece < |priority|)
            && (forall i :: 0 <= i < |rs| && rs[i].piece !in window ==> rs[i].priority == 0)
            && (forall i, j :: 0 <= i < |rs| && 0 <= j < |window| && rs[i].piece == window[j] ==>
                rs[i].priority == Tier(j))
            && (forall p :: 0 <= p < |priority| && p !in window ==> (Requested(rs, p) <==> memory && priority[p] > 0))
            && (forall j :: 0 <= j < |window| ==>
                  (Requested(rs, window[j]) <==> window[j] !in have && priority[window[j]] < Tier(j)))
  {
    hide Tier;
    DropsAre(window, priority, |priority|);
    RaisesAre(window, priority, have, |window|);
    var d := if memory then Drops(window, priority, |priority|) else [];
    var r := Raises(window, priority, have, |window|);
    var rs := Requests(memory, window, priority, have);
    assert rs == d + r;
    JoinedAre(d, r, window, |priority|);
    hide NoRepeats;
    RequestedSplit(d, r);
    forall p | 0 <= p < |priority| && p !in window
      ensures Requested(rs, p) <==> memory && priority[p] > 0
    {
      assert !Requested(r, p);
    }
  }

  /** Drops of pieces outside the window followed by raises of pieces in it. */
  lemma JoinedAre(d: seq<Request>, r: seq<Request>, window: seq<int>, n: nat)
    requires InRange(window, n) && Distinct(window) && NoRepeats(d) && NoRepeats(r)
    requires forall i :: 0 <= i < |d| ==> d[i].priority == 0 && 0 <= d[i].piece < n && d[i].piece !in window
    requires forall i :: 0 <= i < |r| ==> exists j :: 0 <= j < |window| && r[i] == Request(window[j], Tier(j))
    ensures forall i :: 0 <= i < |r| ==> r[i].piece in window
    ensures NoRepeats(d + r) && forall i :: 0 <= i < |d + r| ==> 0 <= (d + r)[i].piece < n
    ensures forall i :: 0 <= i < |d + r| && (d + r)[i].piece !in window ==> (d + r)[i].priority == 0
    ensures forall i, j :: 0 <= i < |d + r| && 0 <= j < |window| && (d + r)[i].piece == window[j] ==>
            (d + r)[i].priority == Tier(j)
  {
    hide Tier;
    forall i | 0 <= i < |r|
      ensures r[i].piece in window && 0 <= r[i].piece < n
      ensures forall j :: 0 <= j < |window| && r[i].piece == window[j] ==> r[i].priority == Tier(j)
    {
      var j :| 0 <= j < |window| && r[i] == Request(window[j], Tier(j));
    }
    assert forall i :: 0 <= i < |d + r| ==> (d + r)[i] == if i < |d| then d[i] else r[i - |d|];
  }

  lemma RequestedSplit(d: seq<Request>, r: seq<Request>)
    ensures forall p :: Requested(d + r, p) <==> Requested(d, p) || Requested(r, p)
  {
    forall p
      ensures Requested(d + r, p) <==> Requested(d, p) || Requested(r, p)
    {
      if Requested(d, p) {
        var i :| 0 <= i < |d| && d[i].piece == p;
        assert (d + r)[i].piece == p;
      }
      if Requested(r, p) {
        var i :| 0 <= i < |r| && r[i].piece == p;
        assert (d + r)[|d| + i].piece == p;
      }
    }
  }

  ghost function Scheduled(memory: bool, window: seq<int>, priority: seq<int>, have: set<int>): (r: seq<int>)
    requires InRange(window, |priority|) && Distinct(window)
    ensures |r| == |priority|
  {
    RequestsAre(memory, window, priority, have);
    Apply(priority, Requests(memory, window, priority, have))
  }

  /** The priority of every piece after a scheduling: a missing window piece has at least its
      tier, any other window piece keeps its priority, and a piece outside the window is dropped
      (with memory storage) or left alone. */
  lemma ScheduledIs(memory: bool, window: seq<int>, priority: seq<int>, have: set<int>)
    requires InRange(window, |priority|) && Distinct(window)
    ensures var r := Scheduled(memory, window, priority, have);
            && (forall j :: 0 <= j < |window| ==>
                  r[window[j]] == if window[j] !in have then Max(priority[window[j]], Tier(j)) else priority[window[j]])
            && (forall p :: 0 <= p < |priority| && p !in window ==>
                  r[p] == if memory && priority[p] > 0 then 0 else priority[p])
  {
    hide Requests, Apply, Tier;
    RequestsAre(memory, window, priority, have);
    var rs := Requests(memory, window, priority, have);
    ApplyNoRepeats(priority, rs);
    var r := Scheduled(memory, window, priority, have);
    forall j | 0 <= j < |window|
      ensures r[window[j]] == if window[j] !in have then Max(priority[window[j]], Tier(j)) else priority[window[j]]
    {
      if Requested(rs, window[j]) {
        var i :| 0 <= i < |rs| && rs[i].piece == window[j];
      }
    }
    forall p | 0 <= p < |priority| && p !in window
      ensures r[p] == if memory && priority[p] > 0 then 0 else priority[p]
    {
      if Requested(rs, p) {
        var i :| 0 <= i < |rs| && rs[i].piece == p;
      }
    }
  }

  /** Nothing is requested exactly when every missing window piece has its tier and, with memory
      storage, nothing outside the window has a priority. */
  lemma NothingToRequest(memory: bool, window: seq<int>, priority: seq<int>, have: set<int>)
    requires InRange(window, |priority|) && Distinct(window)
    ensures Requests(memory, window, priority, have) == [] <==>
              && (forall j :: 0 <= j < |window| && window[j] !in have ==> priority[window[j]] >= Tier(j))
              && (memory ==> forall p :: 0 <= p < |priority| && p !in window ==> priority[p] <= 0)
  {
    hide Requests, Tier;
    RequestsAre(memory, window, priority, have);
    var rs := Requests(memory, window, priority, have);
    if rs != [] {
      assert Requested(rs, rs[0].piece);
      if rs[0].piece in window {
        var j :| 0 <= j < |window| && window[j] == rs[0].piece;
      }
    } else {
      assert forall p :: !Requested(rs, p);
    }
  }

  /** A scheduling leaves every prioritized piece in the window (with memory storage), gives each
      missing window piece at least its tier, lowers no window piece, names no piece twice, and
      leaves nothing for a second scheduling to request. */
  lemma SchedulingSettles(memory: bool, window: seq<int>, priority: seq<int>, have: set<int>)
    requires InRange(window, |priority|) && Distinct(window)
    ensures var r := Scheduled(memory, window, priority, have);
            && (memory ==> forall p :: 0 <= p < |r| && r[p] > 0 ==> p in window)
            && (forall j :: 0 <= j < |window| && window[j] !in have ==> r[window[j]] >= Tier(j))
            && (forall j :: 0 <= j < |window| ==> r[window[j]] >= priority[window[j]])
            && NoRepeats(Requests(memory, window, priority, have))
            && Requests(memory, window, r, have) == []
  {
    hide Requests, Scheduled, Tier;
    RequestsAre(memory, window, priority, have);
    ScheduledIs(memory, window, priority, have);
    NothingToRequest(memory, window, Scheduled(memory, window, priority, have), have);
  }

  /** Tiers never rise along the window and are never below 2. */
  lemma TiersFall(i: nat, j: nat)
    requires i <= j
    ensures 2 <= Tier(j) <= Tier(i) <= 5
  {
  }

  /** The tiers are the progression's groups: as many entries as the n-th group size share the
      n-th priority from 5 down, and all entries after the third group have priority 2. */
  lemma TiersAreGroups(i: nat)
    ensures Tier(i) == 5 <==> i < Progression(2, 1)
    ensures Tier(i) == 4 <==> Progression(2, 1) <= i < Progression(2, 1) + Progression(2, 2)
    ensures Tier(i) == 3 <==>
              && Progression(2, 1) + Progression(2, 2) <= i
              && i < Progression(2, 1) + Progression(2, 2) + Progression(2, 3)
    ensures Tier(i) == 2 <==> Progression(2, 1) + Progression(2, 2) + Progression(2, 3) <= i
  {
    GroupSizes();
  }

  // ---------------------------------------------------------------- scheduling of a torrent

  /** Number of pieces to read ahead: a share of the buffers that no reserved piece needs, or a
      fixed number with file storage. */
  function ReadaheadPieces(memory: bool, buffersCount: int, percents: int): int {
    if memory then TruncDiv(buffersCount * percents, 100) else FILE_READAHEAD_PIECES
  }

  const FILE_READAHEAD_PIECES := 20

  /** With memory storage the limit is that percentage of the buffers, cut to a whole number; with
      file storage it is 20. */
  lemma ReadaheadIsShare(buffersCount: int, percents: int)
    ensures 0 <= buffersCount && 0 <= percents ==>
              var limit := ReadaheadPieces(true, buffersCount, percents);
              0 <= limit && 100 * limit <= buffersCount * percents < 100 * (limit + 1)
    ensures buffersCount <= 0 && 0 <= percents ==> ReadaheadPieces(true, buffersCount, percents) <= 0
    ensures ReadaheadPieces(false, buffersCount, percents) == 20
  {
    if 0 <= buffersCount && 0 <= percents {
      assert 0 <= buffersCount * percents;
    } else if 0 <= percents {
      assert buffersCount * percents <= 0;
    }
  }

  /** The readers of a torrent read pieces of that torrent. */
  predicate ReadersOk(readers: seq<Reader>, n: nat) {
    forall k :: 0 <= k < |readers| ==> 0 <= readers[k].pieceStart && readers[k].pieceEndLimit < n
  }

  lemma WindowInRange(readers: seq<Reader>, limit: int, n: nat)
    requires ReadersOk(readers, n)
    ensures InRange(Window(readers, limit), n) && Distinct(Window(readers, limit))
  {
    hide Window;
    WindowIsFair(readers, limit);
    assert forall i :: 0 <= i < |Window(readers, limit)| ==> Wanted(readers, Window(readers, limit)[i]);
  }

  /** One scheduling: the window of the torrent's readers, and the requests it leads to. */
  method Prioritize(readers: seq<Reader>, memory: bool, buffersCount: int, percents: int, priority: seq<int>,
                    have: set<int>)
    returns (window: seq<int>, requests: seq<Request>)
    requires ReadersOk(readers, |priority|)
    ensures window == Window(readers, ReadaheadPieces(memory, buffersCount, percents))
    ensures Distinct(window) && forall x :: x in window ==> Wanted(readers, x)
    ensures memory && 0 <= buffersCount && 0 <= percents ==>
              && 100 * |window| <= buffersCount * percents
              && (100 * (|window| + 1) <= buffersCount * percents ==> forall x :: Wanted(readers, x) ==> x in window)
    ensures !memory ==> |window| <= 20 && (|window| < 20 ==> forall x :: Wanted(readers, x) ==> x in window)
    ensures InRange(window, |priority|) && requests == Requests(memory, window, priority, have)
  {
    hide Window, Requests;
    var limit := ReadaheadPieces(memory, buffersCount, percents);
    WindowInRange(readers, limit, |priority|);
    var rounds;
    window, rounds := CollectWindow(readers, limit);
    WindowIsFair(readers, limit);
    ReadaheadIsShare(buffersCount, percents);
    requests := BuildRequests(memory, window, priority, have);
  }

  /** The pieces with a priority. */
  function Positive(priority: seq<int>): (r: set<int>)
    ensures forall p :: p in r <==> 0 <= p < |priority| && priority[p] > 0
  {
    set p | 0 <= p < |priority| && priority[p] > 0
  }

  lemma ShareBound(count: int, percents: int)
    requires 0 <= percents <= 100
    ensures Max(TruncDiv(count * percents, 100), 0) <= Max(count, 0)
  {
    if count >= 0 {
      assert 0 <= count * percents <= count * 100;
    } else {
      assert count * percents <= 0;
    }
  }

  /** With memory storage the prioritized pieces are no more than that percentage of the unreserved
      buffers, so they always fit those buffers. */
  lemma ScheduleFitsBuffers(readers: seq<Reader>, buffersCount: int, percents: int, priority: seq<int>, have: set<int>)
    requires ReadersOk(readers, |priority|) && 0 <= percents <= 100
    ensures var limit := ReadaheadPieces(true, buffersCount, percents);
            var window := Window(readers, limit);
            && InRange(window, |priority|) && Distinct(window)
            && var prioritized := |Positive(Scheduled(true, window, priority, have))|;
               && prioritized <= Max(limit, 0) <= Max(buffersCount, 0)
               && (0 <= buffersCount ==> 100 * prioritized <= buffersCount * percents)
  {
    hide Window, Scheduled;
    var limit := ReadaheadPieces(true, buffersCount, percents);
    var window := Window(readers, limit);
    WindowIsFair(readers, limit);
    WindowInRange(readers, limit, |priority|);
    SchedulingSettles(true, window, priority, have);
    ElementsCard(window);
    SubsetCard(Positive(Scheduled(true, window, priority, have)), set x | x in window);
    ShareBound(buffersCount, percents);
    ReadaheadIsShare(buffersCount, percents);
  }
}
