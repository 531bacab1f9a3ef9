/** Cutting a payload into fragments and rebuilding it, for every order of arrival and any duplicates. */
module IpRoundTrip {
  import opened Wrappers
  import opened Words
  import opened Ranges
  import opened HeadBuffer
  import opened IpReassembly
  import opened IpRuns
  import opened IpTables

  /** Piece `i` of the payload runs from `cuts[i]` to `cuts[i + 1]`; no piece is empty. */
  ghost predicate IsCut(cuts: seq<nat>, n: nat) {
    && |cuts| >= 2 && cuts[0] == 0 && cuts[|cuts| - 1] == n
    && Increasing(cuts)
  }

  ghost predicate Increasing(s: seq<nat>) {
    forall i, j :: 0 <= i < j < |s| ==> s[i] < s[j]
  }

  ghost predicate Fits(payload: seq<byte>, cuts: seq<nat>) {
    |payload| <= 65_535 && IsCut(cuts, |payload|)
  }

  ghost function Piece(key: FragKey, payload: seq<byte>, cuts: seq<nat>, i: nat): Fragment
    requires IsCut(cuts, |payload|) && i + 1 < |cuts|
  {
    assert cuts[i] < cuts[i + 1] && (i + 1 < |cuts| - 1 ==> cuts[i + 1] < cuts[|cuts| - 1]);
    Fragment(key, cuts[i], i + 2 < |cuts|, payload[cuts[i]..cuts[i + 1]])
  }

  /** An order of arrival names pieces, each any number of times. */
  ghost predicate IsOrder(order: seq<nat>, cuts: seq<nat>) {
    forall n :: 0 <= n < |order| ==> order[n] + 1 < |cuts|
  }

  ghost function Arrivals(key: FragKey, payload: seq<byte>, cuts: seq<nat>, order: seq<nat>): (fs: seq<Fragment>)
    requires IsCut(cuts, |payload|) && IsOrder(order, cuts)
    ensures |fs| == |order|
  {
    if order == [] then []
    else Arrivals(key, payload, cuts, order[..|order| - 1]) + [Piece(key, payload, cuts, order[|order| - 1])]
  }

  ghost predicate AllSeen(order: seq<nat>, cuts: seq<nat>) {
    forall i :: 0 <= i < |cuts| - 1 ==> i in order
  }

  /** The piece a position belongs to. */
  ghost function PieceAt(cuts: seq<nat>, x: nat): (i: nat)
    requires |cuts| >= 2 && cuts[0] <= x < cuts[|cuts| - 1] && Increasing(cuts)
    ensures i + 1 < |cuts| && cuts[i] <= x < cuts[i + 1]
  {
    if x < cuts[1] then 0 else 1 + PieceAt(cuts[1..], x)
  }

  lemma PieceAtUnique(cuts: seq<nat>, x: nat, i: nat)
    requires |cuts| >= 2 && cuts[0] <= x < cuts[|cuts| - 1] && Increasing(cuts)
    requires i + 1 < |cuts| && cuts[i] <= x < cuts[i + 1]
    ensures PieceAt(cuts, x) == i
  {
    var j := PieceAt(cuts, x);
    assert j + 1 < |cuts| && cuts[j] <= x < cuts[j + 1];
  }

  /** A map holds exactly the pieces named in `order`. */
  ghost predicate HoldsPieces(m: map<int, byte>, payload: seq<byte>, cuts: seq<nat>, order: seq<nat>)
    requires IsCut(cuts, |payload|)
  {
    && (forall x :: x in m <==> 0 <= x < |payload| && PieceAt(cuts, x) in order)
    && (forall x :: x in m ==> m[x] == payload[x])
  }

  lemma {:induction false} HoldsOneMore(m: map<int, byte>, payload: seq<byte>, cuts: seq<nat>, order: seq<nat>, i: nat)
    requires IsCut(cuts, |payload|) && i + 1 < |cuts| && HoldsPieces(m, payload, cuts, order)
    requires cuts[i] < cuts[i + 1] <= |payload|
    ensures HoldsPieces(Merge(m, Chunk(cuts[i], payload[cuts[i]..cuts[i + 1]])), payload, cuts, order + [i])
  {
    hide PieceAt;
    var m' := Merge(m, Chunk(cuts[i], payload[cuts[i]..cuts[i + 1]]));
    forall x ensures x in m' <==> 0 <= x < |payload| && PieceAt(cuts, x) in order + [i] {
      PieceCovers(cuts, i, x);
    }
    forall x | x in m' ensures m'[x] == payload[x] {
      PieceCovers(cuts, i, x);
    }
  }

  /** The pieces seen so far have put their own part of the payload in place, and nothing else has. */
  lemma {:induction false} ContentOfPieces(key: FragKey, payload: seq<byte>, cuts: seq<nat>, order: seq<nat>)
    requires Fits(payload, cuts) && IsOrder(order, cuts)
    ensures HoldsPieces(Content(Arrivals(key, payload, cuts, order)), payload, cuts, order)
    ensures FirstEnd(Arrivals(key, payload, cuts, order)) == if |cuts| - 2 in order then Some(|payload|) else None
    decreases |order|
  {
    if order == [] {
      assert Content(Arrivals(key, payload, cuts, order)) == map[];
    } else {
      var before, i := order[..|order| - 1], order[|order| - 1];
      ContentOfPieces(key, payload, cuts, before);
      OneMorePiece(Arrivals(key, payload, cuts, before), key, payload, cuts, before, i);
      hide HoldsPieces, Content, FirstEnd, Piece;
      assert order == before + [i];
    }
  }

  lemma {:induction false} OneMorePiece(fs: seq<Fragment>, key: FragKey, payload: seq<byte>, cuts: seq<nat>, order: seq<nat>, i: nat)
    requires Fits(payload, cuts) && IsOrder(order, cuts) && i + 1 < |cuts|
    requires HoldsPieces(Content(fs), payload, cuts, order)
    requires FirstEnd(fs) == if |cuts| - 2 in order then Some(|payload|) else None
    ensures var fs', order' := fs + [Piece(key, payload, cuts, i)], order + [i];
            && HoldsPieces(Content(fs'), payload, cuts, order')
            && FirstEnd(fs') == if |cuts| - 2 in order' then Some(|payload|) else None
  {
    hide PieceAt, HoldsPieces, FirstWriter, Merge, Chunks, FirstEnd;
    var f := Piece(key, payload, cuts, i);
    PieceBelow(cuts, i);
    HistorySnoc(fs, f);
    FirstWriterSnoc(Chunks(fs), Chunk(f.offset, f.bytes));
    HoldsOneMore(Content(fs), payload, cuts, order, i);
  }

  lemma PieceBelow(cuts: seq<nat>, i: nat)
    requires Increasing(cuts) && i + 1 < |cuts|
    ensures cuts[i] < cuts[i + 1] <= cuts[|cuts| - 1]
  {
  }

  lemma PieceCovers(cuts: seq<nat>, i: nat, x: int)
    requires |cuts| >= 2 && Increasing(cuts) && i + 1 < |cuts| && cuts[0] == 0
    ensures cuts[i] <= x < cuts[i + 1] <==> 0 <= x < cuts[|cuts| - 1] && PieceAt(cuts, x) == i
  {
    PieceBelow(cuts, i);
    if cuts[i] <= x < cuts[i + 1] {
      PieceAtUnique(cuts, x, i);
    }
  }

  /** Whole means every piece arrived. */
  lemma {:induction false} WholeMeansAllSeen(key: FragKey, payload: seq<byte>, cuts: seq<nat>, order: seq<nat>)
    requires Fits(payload, cuts) && IsOrder(order, cuts)
    ensures Whole(Arrivals(key, payload, cuts, order)) <==> AllSeen(order, cuts)
    ensures Whole(Arrivals(key, payload, cuts, order)) ==> Assembled(Arrivals(key, payload, cuts, order)) == payload
  {
    hide Content, Arrivals, FirstEnd, PieceAt;
    ContentOfPieces(key, payload, cuts, order);
    var fs := Arrivals(key, payload, cuts, order);
    PieceBelow(cuts, 0);
    HoldsAll(Content(fs), payload, cuts, order);
    AllSeenHasLast(order, cuts);
  }

  lemma AllSeenHasLast(order: seq<nat>, cuts: seq<nat>)
    requires |cuts| >= 2
    ensures AllSeen(order, cuts) ==> |cuts| - 2 in order
  {
  }

  lemma {:induction false} HoldsAll(m: map<int, byte>, payload: seq<byte>, cuts: seq<nat>, order: seq<nat>)
    requires IsCut(cuts, |payload|) && HoldsPieces(m, payload, cuts, order)
    ensures (forall x :: 0 <= x < |payload| ==> x in m) <==> AllSeen(order, cuts)
  {
    hide PieceAt;
    if forall x :: 0 <= x < |payload| ==> x in m {
      forall i | 0 <= i < |cuts| - 1 ensures i in order {
        PieceBelow(cuts, i);
        PieceAtUnique(cuts, cuts[i], i);
        assert cuts[i] in m;
      }
    }
  }

  /** The starts of the runs received are starts of pieces whose left neighbour is still missing. */
  lemma {:induction false} RunsStartAtPieces(m: map<int, byte>, payload: seq<byte>, cuts: seq<nat>, order: seq<nat>, x: int)
    requires Fits(payload, cuts) && HoldsPieces(m, payload, cuts, order)
    ensures x in RunStarts(Window(m, 0, MAX_DATAGRAM_BYTES).Keys) <==>
            0 <= x < |payload| && var i := PieceAt(cuts, x); x == cuts[i] && i in order && i - 1 !in order
  {
    hide PieceAt;
    var r := Window(m, 0, MAX_DATAGRAM_BYTES);
    assert forall y :: Within(m, 0, y) <==> y in m;
    assert forall y :: y in r <==> y in m;
    assert HasPredecessor(r.Keys, x) <==> x - 1 in m;
    if 0 <= x < |payload| {
      var i := PieceAt(cuts, x);
      if x > cuts[i] {
        PieceAtUnique(cuts, x - 1, i);
      } else if i > 0 {
        PieceBelow(cuts, i - 1);
        PieceAtUnique(cuts, x - 1, i - 1);
      }
    }
  }

  ghost function Leaders(order: seq<nat>, k: nat): set<nat> {
    set i | 0 <= i < k && i in order && !LeftSeen(order, i)
  }

  ghost predicate LeftSeen(order: seq<nat>, i: nat) {
    i - 1 in order
  }

  lemma {:induction false} NoNeighbours(s: set<nat>, k: nat)
    requires forall i :: i in s ==> i < k && i + 1 !in s
    ensures |s| <= (k + 1) / 2
    decreases k
  {
    if k == 0 {
      assert s == {};
    } else if k - 1 in s {
      var rest := s - {k - 1};
      assert forall i :: i in rest ==> i + 1 in s || i + 1 < k;
      assert |s| == |rest| + 1;
      NoNeighbours(rest, if k == 1 then 0 else k - 2);
    } else {
      NoNeighbours(s, k - 1);
    }
  }

  lemma {:induction false} ImageNoLarger(s: set<nat>, f: seq<nat>)
    requires forall i :: i in s ==> i < |f|
    ensures |set i | i in s :: f[i]| <= |s|
    decreases |s|
  {
    var image := set i | i in s :: f[i];
    if s == {} {
      assert image == {};
    } else {
      var i :| i in s;
      ImageNoLarger(s - {i}, f);
      assert image == (set j | j in s - {i} :: f[j]) + {f[i]};
    }
  }

  lemma SubsetSize<T>(a: set<T>, b: set<T>)
    requires a <= b
    ensures |a| <= |b|
  {
    assert |b - a| == |b| - |a|;
  }

  /** `k` pieces never make more than half of `k`, rounded up, separate runs. */
  lemma {:induction false} FewRuns(key: FragKey, payload: seq<byte>, cuts: seq<nat>, order: seq<nat>)
    requires Fits(payload, cuts) && IsOrder(order, cuts)
    ensures |RunStarts(Received(Arrivals(key, payload, cuts, order)).Keys)| <= |cuts| / 2
  {
    ContentOfPieces(key, payload, cuts, order);
    var m := Content(Arrivals(key, payload, cuts, order));
    hide PieceAt, Content;
    var runs, k := RunStarts(Received(Arrivals(key, payload, cuts, order)).Keys), |cuts| - 1;
    var leaders := Leaders(order, k);
    var image := set i | i in leaders :: cuts[i];
    forall x | x in runs ensures x in image {
      RunsStartAtPieces(m, payload, cuts, order, x);
      assert LeftSeen(order, PieceAt(cuts, x)) <==> PieceAt(cuts, x) - 1 in order;
      assert PieceAt(cuts, x) in leaders;
    }
    var image' := set x: int | x in image;
    assert runs <= image';
    SameSize(image, image');
    SubsetSize(runs, image');
    ImageNoLarger(leaders, cuts);
    NoNeighbours(leaders, k);
  }

  lemma {:induction false} SameSize(a: set<nat>, b: set<int>)
    requires forall x: int :: x in b <==> x in a
    ensures |a| == |b|
    decreases |a|
  {
    if a == {} {
      assert forall x :: x !in b;
      assert b == {};
    } else {
      var x :| x in a;
      SameSize(a - {x}, b - {x});
      assert |b| == |b - {x}| + 1;
    }
  }

  lemma ArrivalsPrefix(key: FragKey, payload: seq<byte>, cuts: seq<nat>, order: seq<nat>, n: nat)
    requires IsCut(cuts, |payload|) && IsOrder(order, cuts) && n <= |order|
    ensures Arrivals(key, payload, cuts, order)[..n] == Arrivals(key, payload, cuts, order[..n])
    decreases |order|
  {
    if n < |order| {
      ArrivalsPrefix(key, payload, cuts, order[..|order| - 1], n);
      assert order[..|order| - 1][..n] == order[..n];
    } else {
      assert order[..n] == order;
    }
  }

  /** With at most 32 pieces the datagram ends exactly when the last piece is in. */
  lemma {:induction false} EndsWhenAllSeen(key: FragKey, payload: seq<byte>, cuts: seq<nat>, order: seq<nat>)
    requires Fits(payload, cuts) && IsOrder(order, cuts) && |cuts| - 1 <= 32
    ensures Ended(Arrivals(key, payload, cuts, order)) <==> AllSeen(order, cuts)
    ensures !Crowded(Arrivals(key, payload, cuts, order))
    decreases |order|
  {
    FewRuns(key, payload, cuts, order);
    WholeMeansAllSeen(key, payload, cuts, order);
    if order != [] {
      EndsWhenAllSeen(key, payload, cuts, order[..|order| - 1]);
      ArrivalsPrefix(key, payload, cuts, order, |order| - 1);
      MoreSeen(order[..|order| - 1], order, cuts);
    }
  }

  lemma MoreSeen(some: seq<nat>, all: seq<nat>, cuts: seq<nat>)
    requires some <= all
    ensures AllSeen(some, cuts) ==> AllSeen(all, cuts)
  {
    forall i | i in some ensures i in all {
      var n :| 0 <= n < |some| && some[n] == i;
      assert all[n] == i;
    }
  }

  /** What every order of arrival should produce: the payload, once, on the arrival that completes the set of pieces. */
  ghost predicate Delivers(outs: seq<Option<seq<byte>>>, payload: seq<byte>, cuts: seq<nat>, order: seq<nat>) {
    && |outs| == |order|
    && forall n :: 0 <= n < |order| ==>
         outs[n] == if AllSeen(order[..n + 1], cuts) && !AllSeen(order[..n], cuts) then Some(payload) else None
  }

  /** What comes out on the last of some arrivals. */
  lemma {:induction false} LastArrival(key: FragKey, payload: seq<byte>, cuts: seq<nat>, order: seq<nat>)
    requires Fits(payload, cuts) && IsOrder(order, cuts) && |cuts| - 1 <= 32 && order != []
    ensures var n := |order| - 1;
            FeedAll(Arrivals(key, payload, cuts, order)).outs[n]
            == if AllSeen(order, cuts) && !AllSeen(order[..n], cuts) then Some(payload) else None
  {
    hide FeedAll, Whole, Crowded, Ended, AllSeen, Arrivals, IsCut, IsOrder, Assembled;
    var n := |order| - 1;
    var fs := Arrivals(key, payload, cuts, order);
    ShorterOrder(order, cuts, n);
    ArrivalsPrefix(key, payload, cuts, order, n);
    Lifecycle(fs);
    EndsWhenAllSeen(key, payload, cuts, order[..n]);
    EndsWhenAllSeen(key, payload, cuts, order);
    WholeMeansAllSeen(key, payload, cuts, order);
  }

  lemma ShorterOrder(order: seq<nat>, cuts: seq<nat>, n: nat)
    requires IsOrder(order, cuts) && n <= |order|
    ensures IsOrder(order[..n], cuts)
  {
  }

  /** At most 32 pieces in any order, with repetitions, bring the payload out once, on the arrival of the last missing one. */
  lemma {:induction false} RoundTrip(key: FragKey, payload: seq<byte>, cuts: seq<nat>, order: seq<nat>)
    requires Fits(payload, cuts) && IsOrder(order, cuts) && |cuts| - 1 <= 32
    ensures Delivers(FeedAll(Arrivals(key, payload, cuts, order)).outs, payload, cuts, order)
  {
    var fs := Arrivals(key, payload, cuts, order);
    hide FeedAll, AllSeen, Arrivals, IsCut, IsOrder;
    forall n | 0 <= n < |order|
      ensures FeedAll(fs).outs[n] ==
              if AllSeen(order[..n + 1], cuts) && !AllSeen(order[..n], cuts) then Some(payload) else None
    {
      var upTo := order[..n + 1];
      ShorterOrder(order, cuts, n + 1);
      ArrivalsPrefix(key, payload, cuts, order, n + 1);
      assert upTo[..n] == order[..n];
      FeedAllPrefix(fs, n + 1);
      LastArrival(key, payload, cuts, upTo);
    }
  }

  /** The same among any other traffic, at a table that has room left or tracks the datagram. */
  lemma {:induction false} RoundTripInTraffic(fs: seq<Fragment>, key: FragKey, payload: seq<byte>, cuts: seq<nat>, order: seq<nat>)
    requires Fits(payload, cuts) && IsOrder(order, cuts) && |cuts| - 1 <= 32
    requires Of(fs, key) == Arrivals(key, payload, cuts, order)
    requires HasRoom(Run(fs).table) || key in Run(fs).table.datagrams
    ensures Delivers(OutsOf(fs, Run(fs).outs, key), payload, cuts, order)
  {
    Isolation(fs, key);
    RoundTrip(key, payload, cuts, order);
  }

  // ---------------------------------------------------------------------------------------------------------------
  // The bound on the number of pieces is sharp
  // ---------------------------------------------------------------------------------------------------------------

  /** Every other piece: 0, 2, 4, up to 32. */
  ghost function Evens(): (order: seq<nat>)
    ensures |order| == 17 && forall j :: 0 <= j < |order| ==> order[j] == 2 * j
  {
    seq(17, j => 2 * j)
  }

  lemma {:induction false} IncreasingImageSize(s: seq<nat>, image: set<int>)
    requires Increasing(s) && forall j :: 0 <= j < |s| ==> s[j] in image
    ensures |image| >= |s|
    decreases |s|
  {
    if s != [] {
      var last := s[|s| - 1];
      IncreasingImageSize(s[..|s| - 1], image - {last});
    }
  }

  lemma {:induction false} EvensCrowd(key: FragKey, payload: seq<byte>, cuts: seq<nat>)
    requires Fits(payload, cuts) && |cuts| - 1 > 32
    ensures IsOrder(Evens(), cuts)
    ensures Crowded(Arrivals(key, payload, cuts, Evens()))
  {
    var order := Evens();
    assert IsOrder(order, cuts);
    ContentOfPieces(key, payload, cuts, order);
    var m := Content(Arrivals(key, payload, cuts, order));
    hide Content, HoldsPieces, RunStarts, Window, Evens;
    var starts := EvenCuts(cuts, 17);
    var runs := RunStarts(Window(m, 0, MAX_DATAGRAM_BYTES).Keys);
    forall j | 0 <= j < |starts| ensures starts[j] in runs {
      EvenPieceStartsRun(m, payload, cuts, j);
    }
    IncreasingImageSize(starts, runs);
  }

  ghost function EvenCuts(cuts: seq<nat>, n: nat): (starts: seq<nat>)
    requires Increasing(cuts) && 2 * n < |cuts| + 1
    ensures |starts| == n && Increasing(starts) && forall j :: 0 <= j < n ==> starts[j] == cuts[2 * j]
  {
    if n == 0 then [] else EvenCuts(cuts, n - 1) + [cuts[2 * (n - 1)]]
  }

  lemma {:induction false} EvenPieceStartsRun(m: map<int, byte>, payload: seq<byte>, cuts: seq<nat>, j: nat)
    requires Fits(payload, cuts) && |cuts| - 1 > 32 && j <= 16
    requires HoldsPieces(m, payload, cuts, Evens())
    ensures cuts[2 * j] in RunStarts(Window(m, 0, MAX_DATAGRAM_BYTES).Keys)
  {
    var order := Evens();
    PieceBelow(cuts, 2 * j);
    PieceAtUnique(cuts, cuts[2 * j], 2 * j);
    RunsStartAtPieces(m, payload, cuts, order, cuts[2 * j]);
    hide RunStarts, Window, HoldsPieces;
    assert order[j] == 2 * j;
    assert 2 * j - 1 !in order;
  }

  /** When the pieces numbered 0, 2, ..., 32 come first, 33 pieces or more are never rebuilt, whatever follows. */
  lemma {:induction false} EvensFirstIsLost(key: FragKey, payload: seq<byte>, cuts: seq<nat>, rest: seq<nat>)
    requires Fits(payload, cuts) && |cuts| - 1 > 32
    requires IsOrder(Evens() + rest, cuts)
    ensures forall n :: 0 <= n < |Evens() + rest| ==> FeedAll(Arrivals(key, payload, cuts, Evens() + rest)).outs[n].None?
  {
    var order := Evens() + rest;
    forall n | 0 <= n < |order| ensures FeedAll(Arrivals(key, payload, cuts, order)).outs[n].None? {
      if n < |Evens()| {
        TooEarly(key, payload, cuts, order, n);
      } else {
        TooLate(key, payload, cuts, order, n);
      }
    }
  }

  lemma {:induction false} TooEarly(key: FragKey, payload: seq<byte>, cuts: seq<nat>, order: seq<nat>, n: nat)
    requires Fits(payload, cuts) && |cuts| - 1 > 32 && IsOrder(order, cuts)
    requires Evens() <= order && n < |Evens()|
    ensures FeedAll(Arrivals(key, payload, cuts, order)).outs[n].None?
  {
    hide FeedAll, Whole, Crowded, Ended, AllSeen, Arrivals;
    ArrivalsPrefix(key, payload, cuts, order, n + 1);
    FeedAllPrefix(Arrivals(key, payload, cuts, order), n + 1);
    Lifecycle(Arrivals(key, payload, cuts, order)[..n + 1]);
    WholeMeansAllSeen(key, payload, cuts, order[..n + 1]);
    assert 1 !in order[..n + 1];
    NotAllSeen(order[..n + 1], cuts);
  }

  lemma {:induction false} TooLate(key: FragKey, payload: seq<byte>, cuts: seq<nat>, order: seq<nat>, n: nat)
    requires Fits(payload, cuts) && |cuts| - 1 > 32 && IsOrder(order, cuts)
    requires Evens() <= order && |Evens()| <= n < |order|
    ensures FeedAll(Arrivals(key, payload, cuts, order)).outs[n].None?
  {
    hide FeedAll, Whole, Crowded, AllSeen, Arrivals, FirstEnd, Content;
    var fs, m := Arrivals(key, payload, cuts, order), |Evens()|;
    FeedAllPrefix(fs, n + 1);
    Lifecycle(fs[..n + 1]);
    EvensCrowd(key, payload, cuts);
    assert order[..m] == Evens();
    ArrivalsPrefix(key, payload, cuts, order, m);
    assert Ended(fs[..m]);
    assert fs[..n][..m] == fs[..m];
    EndedStays(fs[..n], m);
    assert fs[..n + 1][..n] == fs[..n];
  }

  lemma NotAllSeen(order: seq<nat>, cuts: seq<nat>)
    requires |cuts| > 2 && 1 !in order
    ensures !AllSeen(order, cuts)
  {
  }

  /** A cut survives every order of arrival exactly when it has at most 32 pieces. */
  lemma {:induction false} SurvivesEveryOrder(key: FragKey, payload: seq<byte>, cuts: seq<nat>)
    requires Fits(payload, cuts)
    ensures |cuts| - 1 <= 32 <==>
            forall order :: IsOrder(order, cuts) ==>
                              Delivers(FeedAll(Arrivals(key, payload, cuts, order)).outs, payload, cuts, order)
  {
    if |cuts| - 1 <= 32 {
      forall order | IsOrder(order, cuts)
        ensures Delivers(FeedAll(Arrivals(key, payload, cuts, order)).outs, payload, cuts, order)
      {
        RoundTrip(key, payload, cuts, order);
      }
    } else {
      var everyPiece := seq(|cuts| - 1, i => i);
      var order := Evens() + everyPiece;
      assert IsOrder(order, cuts);
      forall i | 0 <= i < |cuts| - 1 ensures i in order {
        assert order[|Evens()| + i] == i;
      }
      EvensFirstIsLost(key, payload, cuts, everyPiece);
      hide FeedAll;
      LostSomewhere(FeedAll(Arrivals(key, payload, cuts, order)).outs, payload, cuts, order);
    }
  }

  lemma {:induction false} LostSomewhere(outs: seq<Option<seq<byte>>>, payload: seq<byte>, cuts: seq<nat>, order: seq<nat>)
    requires |outs| == |order| && |cuts| >= 2 && AllSeen(order, cuts)
    requires forall n :: 0 <= n < |outs| ==> outs[n].None?
    ensures !Delivers(outs, payload, cuts, order)
  {
    var n := |order|;
    assert order[..n] == order;
    while AllSeen(order[..n], cuts)
      invariant 0 <= n <= |order|
      invariant n < |order| ==> AllSeen(order[..n + 1], cuts)
      invariant n == |order| ==> AllSeen(order[..n], cuts)
      decreases n
    {
      assert 0 in order[..n];
      n := n - 1;
    }
    assert outs[n].None?;
  }
}
