/** The rebuilt head does not depend on the order in which consistent segments arrive. */
module TcpOrder {
  import opened Wrappers
  import opened Words
  import opened HeadBuffer
  import opened TcpReassembly
  import opened TcpRuns

  /** Where a data segment goes and what it was before it, for an open or untracked stream. */
  ghost function Before(ps: seq<Segment>, at: seq<int>): Ideal
    requires |at| == |ps| > 0
  {
    var n := |ps| - 1;
    var i := IdealRun(ps[..n], at[..n]);
    if i.Some? then i.value else Ideal(at[n], [], false)
  }

  ghost predicate IsData(p: Segment) {
    !Closes(p) && !p.syn && p.payload != []
  }

  /** A segment is counted as a conflict exactly when it is accepted and differs from a byte an earlier one put there. */
  lemma {:induction false} ConflictMeaning(ps: seq<Segment>, at: seq<int>, wellFormed: seq<byte> -> bool)
    requires |at| == |ps| > 0 && PlaceableRun(ps, at) && IsData(ps[|ps| - 1])
    ensures var n := |ps| - 1;
            var s, i := RunOf(ps[..n], wellFormed).stream, Before(ps, at);
            RunOf(ps, wellFormed).conflicts[n] <==>
            (s.None? || !s.value.done) && Accepts(i, at[n])
            && Disagrees(FirstWriter(i.log), Chunk(at[n], ps[n].payload), Min(at[n], i.origin), MAX_STREAM_BYTES)
  {
    var n := |ps| - 1;
    var before := RunOf(ps[..n], wellFormed);
    if before.stream.None? {
      UntrackedIsNone(ps[..n], at[..n], wellFormed);
      EmptyWindow(at[n]);
      FeedRefines(Fresh(ps[n].seqNo), Ideal(at[n], [], false), ps[n], at[n], wellFormed);
    } else if !before.stream.value.done {
      RunRefines(ps[..n], at[..n], wellFormed);
      FeedRefines(before.stream.value, IdealRun(ps[..n], at[..n]).value, ps[n], at[n], wellFormed);
    }
    hide Refines, Disagrees, FirstWriter;
  }

  // ---------------------------------------------------------------------------------------------------------------
  // Segments inside one window
  // ---------------------------------------------------------------------------------------------------------------

  /** Data segments at known positions, all inside the 16384 positions that start at `low`. */
  ghost predicate InOneWindow(ps: seq<Segment>, at: seq<int>, low: int) {
    && |at| == |ps|
    && forall n :: 0 <= n < |ps| ==>
         IsData(ps[n]) && ps[n].seqNo == Wrap32(at[n]) && low <= at[n] && at[n] + |ps[n].payload| <= low + 16_384
  }

  ghost function Writes(ps: seq<Segment>, at: seq<int>): (log: seq<Chunk>)
    requires |at| == |ps|
    ensures |log| == |ps| && forall n :: 0 <= n < |log| ==> log[n] == Chunk(at[n], ps[n].payload)
  {
    seq(|ps|, n requires 0 <= n < |ps| => Chunk(at[n], ps[n].payload))
  }

  ghost predicate Least(log: seq<Chunk>, low: int) {
    (exists n :: 0 <= n < |log| && log[n].at == low) && forall n :: 0 <= n < |log| ==> low <= log[n].at
  }

  /** Inside one window every segment is accepted, and the start is the least position. */
  lemma {:induction false} OneWindowRun(ps: seq<Segment>, at: seq<int>, low: int)
    requires InOneWindow(ps, at, low) && ps != []
    ensures PlaceableRun(ps, at)
    ensures var i := IdealRun(ps, at);
            i.Some? && !i.value.synBased && i.value.log == Writes(ps, at) && Least(i.value.log, i.value.origin)
    decreases |ps|
  {
    var n := |ps| - 1;
    if n == 0 {
      assert IdealRun(ps[..0], at[..0]) == None;
      assert Writes(ps, at) == [Chunk(at[0], ps[0].payload)];
      assert IdealRun(ps, at) == Some(Ideal(at[0], [] + [Chunk(at[0], ps[0].payload)], false));
    } else {
      OneWindowRun(ps[..n], at[..n], low);
      OnlyOne(ps, at, low, n);
      assert Writes(ps, at) == Writes(ps[..n], at[..n]) + [Chunk(at[n], ps[n].payload)];
      OneMoreInWindow(ps[..n], at[..n], ps[n], at[n], low, IdealRun(ps[..n], at[..n]).value);
      hide Least, InOneWindow, IdealData, Writes;
    }
  }

  lemma {:induction false} OneMoreInWindow(before: seq<Segment>, positions: seq<int>, p: Segment, at: int, low: int, i: Ideal)
    requires InOneWindow(before, positions, low) && before != [] && InOneWindow([p], [at], low)
    requires !i.synBased && i.log == Writes(before, positions) && Least(i.log, i.origin)
    ensures Placeable(Some(i), p, at)
    ensures var i' := IdealStep(Some(i), p, at);
            i'.Some? && !i'.value.synBased && i'.value.log == i.log + [Chunk(at, p.payload)] && Least(i'.value.log, i'.value.origin)
  {
    var c := Chunk(at, p.payload);
    assert IsData([p][0]) && [at][0] == at;
    var k :| 0 <= k < |i.log| && i.log[k].at == i.origin;
    assert IsData(before[k]) && before[k].payload != [];
    LeastSnoc(i.log, c, i.origin);
  }

  lemma OnlyOne(ps: seq<Segment>, at: seq<int>, low: int, n: nat)
    requires InOneWindow(ps, at, low) && n < |ps|
    ensures InOneWindow(ps[..n], at[..n], low) && InOneWindow([ps[n]], [at[n]], low)
  {
  }

  lemma LeastSnoc(log: seq<Chunk>, c: Chunk, low: int)
    requires Least(log, low)
    ensures Least(log + [c], Min(low, c.at))
  {
    var all := log + [c];
    var k :| 0 <= k < |log| && log[k].at == low;
    assert all[k].at == low && all[|log|].at == c.at;
  }

  /** Any two writes that overlap say the same. */
  ghost predicate Agree(log: seq<Chunk>) {
    forall m, n, x :: 0 <= m < |log| && 0 <= n < |log| && Has(log[m], x) && Has(log[n], x) ==>
                        log[m].bytes[x - log[m].at] == log[n].bytes[x - log[n].at]
  }

  ghost predicate SameWrites(a: seq<Chunk>, b: seq<Chunk>) {
    forall c :: c in a <==> c in b
  }

  lemma {:induction false} AgreeingMapsEqual(a: seq<Chunk>, b: seq<Chunk>)
    requires SameWrites(a, b) && Agree(a)
    ensures FirstWriter(a) == FirstWriter(b)
  {
    FirstWriterMeaning(a);
    FirstWriterMeaning(b);
    hide FirstWriter;
    forall x ensures x in FirstWriter(a) <==> x in FirstWriter(b) {
      ReachedSame(a, b, x);
      ReachedSame(b, a, x);
    }
    forall x | x in FirstWriter(a) ensures FirstWriter(a)[x] == FirstWriter(b)[x] {
      var m := ReachedHasFirst(a, x);
      var n := ReachedHasFirst(b, x);
      assert b[n] in a;
      var k :| 0 <= k < |a| && a[k] == b[n];
      assert Has(a[k], x) && Has(a[m], x);
    }
    MapsEqual(FirstWriter(a), FirstWriter(b));
  }

  lemma ReachedSame(a: seq<Chunk>, b: seq<Chunk>, x: int)
    requires SameWrites(a, b)
    ensures Reached(a, x) ==> Reached(b, x)
  {
    if Reached(a, x) {
      var m :| 0 <= m < |a| && Has(a[m], x);
      assert a[m] in b;
    }
  }

  lemma {:induction false} ReachIsGreatest(log: seq<Chunk>)
    requires log != []
    ensures exists n :: 0 <= n < |log| && log[n].at + |log[n].bytes| == Reach(log)
    ensures forall n :: 0 <= n < |log| ==> log[n].at + |log[n].bytes| <= Reach(log)
    decreases |log|
  {
    var last := |log| - 1;
    if last == 0 {
      assert log[0].at + |log[0].bytes| == Reach(log);
    } else {
      ReachIsGreatest(log[..last]);
      var n :| 0 <= n < last && log[..last][n].at + |log[..last][n].bytes| == Reach(log[..last]);
      assert log[n] == log[..last][n];
      assert log[last].at + |log[last].bytes| == Reach(log) || log[n].at + |log[n].bytes| == Reach(log);
      forall m | 0 <= m < |log| ensures log[m].at + |log[m].bytes| <= Reach(log) {
        if m < last {
          assert log[..last][m] == log[m];
        }
      }
    }
  }

  lemma SameExtremes(a: seq<Chunk>, b: seq<Chunk>, lowA: int, lowB: int)
    requires SameWrites(a, b) && a != [] && b != [] && Least(a, lowA) && Least(b, lowB)
    ensures lowA == lowB && Reach(a) == Reach(b)
  {
    hide Reach;
    ReachIsGreatest(a);
    ReachIsGreatest(b);
    var m :| 0 <= m < |a| && a[m].at == lowA;
    var n :| 0 <= n < |b| && b[n].at == lowB;
    assert a[m] in b && b[n] in a;
    var k :| 0 <= k < |a| && a[k].at + |a[k].bytes| == Reach(a);
    var l :| 0 <= l < |b| && b[l].at + |b[l].bytes| == Reach(b);
    assert a[k] in b && b[l] in a;
  }

  /**
   Order independence. Two runs of the same mutually consistent data segments, in any orders and with any repetitions,
   all inside one window and neither finishing the stream, leave the same start and the same buffered bytes, and
   neither counts a conflict.
   */
  lemma {:induction false} OrderDoesNotMatter(ps: seq<Segment>, at: seq<int>, ps': seq<Segment>, at': seq<int>, low: int,
                                              wellFormed: seq<byte> -> bool)
    requires InOneWindow(ps, at, low) && InOneWindow(ps', at', low) && ps != [] && ps' != []
    requires SameWrites(Writes(ps, at), Writes(ps', at')) && Agree(Writes(ps, at))
    requires Open(RunOf(ps, wellFormed)) && Open(RunOf(ps', wellFormed))
    ensures RunOf(ps, wellFormed).stream.value.base == RunOf(ps', wellFormed).stream.value.base
    ensures RunOf(ps, wellFormed).stream.value.head == RunOf(ps', wellFormed).stream.value.head
    ensures forall n :: 0 <= n < |ps| ==> !RunOf(ps, wellFormed).conflicts[n]
    ensures forall n :: 0 <= n < |ps'| ==> !RunOf(ps', wellFormed).conflicts[n]
  {
    OneWindowRun(ps, at, low);
    OneWindowRun(ps', at', low);
    RunRefines(ps, at, wellFormed);
    RunRefines(ps', at', wellFormed);
    var i, i' := IdealRun(ps, at).value, IdealRun(ps', at').value;
    AgreeingMapsEqual(i.log, i'.log);
    SameExtremes(i.log, i'.log, i.origin, i'.origin);
    NoConflicts(ps, at, low, wellFormed);
    AgreeTransfers(Writes(ps, at), Writes(ps', at'));
    NoConflicts(ps', at', low, wellFormed);
    hide IdealRun, RunOf, PlaceableRun, InOneWindow, SameWrites, Agree, Least, Writes, Window, FirstWriter, Reach;
  }

  /** Equal starts and buffers in the sense of the theorem are equal fields in the program. */
  lemma EqualFields(a: Stream, b: Stream)
    requires a.Valid() && b.Valid() && a.state.base == b.state.base && a.state.head == b.state.head
    ensures a.base == b.base && a.buf == b.buf && a.filled == b.filled
  {
    StateDetermined(a.buf, a.filled, b.buf, b.filled);
  }

  lemma AgreeTransfers(a: seq<Chunk>, b: seq<Chunk>)
    requires SameWrites(a, b) && Agree(a)
    ensures Agree(b)
  {
    forall m, n, x | 0 <= m < |b| && 0 <= n < |b| && Has(b[m], x) && Has(b[n], x)
      ensures b[m].bytes[x - b[m].at] == b[n].bytes[x - b[n].at]
    {
      assert b[m] in a && b[n] in a;
      var k :| 0 <= k < |a| && a[k] == b[m];
      var l :| 0 <= l < |a| && a[l] == b[n];
    }
  }

  /** Segments that agree never conflict. */
  lemma {:induction false} NoConflicts(ps: seq<Segment>, at: seq<int>, low: int, wellFormed: seq<byte> -> bool)
    requires InOneWindow(ps, at, low) && Agree(Writes(ps, at))
    ensures forall n :: 0 <= n < |ps| ==> !RunOf(ps, wellFormed).conflicts[n]
    decreases |ps|
  {
    assert |at| == |ps|;
    hide InOneWindow, Agree, Writes, LifeStep;
    if ps != [] {
      var n := |ps| - 1;
      AgreeOnPrefix(ps, at, n);
      OnlyOne(ps, at, low, n);
      NoConflicts(ps[..n], at[..n], low, wellFormed);
      LastDoesNotConflict(ps, at, low, wellFormed);
    }
  }

  lemma {:induction false} LastDoesNotConflict(ps: seq<Segment>, at: seq<int>, low: int, wellFormed: seq<byte> -> bool)
    requires InOneWindow(ps, at, low) && Agree(Writes(ps, at)) && ps != []
    ensures !RunOf(ps, wellFormed).conflicts[|ps| - 1]
  {
    var n := |ps| - 1;
    assert IsData(ps[n]);
    hide InOneWindow, Agree, Writes, FirstWriter, Disagrees, Accepts, IdealRun, PlaceableRun, IsData, Before, RunOf;
    OnlyOne(ps, at, low, n);
    assert Writes(ps, at)[..n] == Writes(ps[..n], at[..n]);
    LogBefore(ps, at, low);
    OneWindowRun(ps, at, low);
    ConflictMeaning(ps, at, wellFormed);
    LastAgrees(Writes(ps, at), n, Min(at[n], Before(ps, at).origin));
  }

  lemma LogBefore(ps: seq<Segment>, at: seq<int>, low: int)
    requires InOneWindow(ps, at, low) && ps != []
    ensures Before(ps, at).log == Writes(ps[..|ps| - 1], at[..|ps| - 1])
  {
    var n := |ps| - 1;
    if n > 0 {
      OnlyOne(ps, at, low, n);
      OneWindowRun(ps[..n], at[..n], low);
    }
  }

  lemma AgreeOnPrefix(ps: seq<Segment>, at: seq<int>, n: nat)
    requires |at| == |ps| && n <= |ps| && Agree(Writes(ps, at))
    ensures Agree(Writes(ps[..n], at[..n]))
  {
    assert forall k :: 0 <= k < n ==> Writes(ps[..n], at[..n])[k] == Writes(ps, at)[k];
  }

  lemma {:induction false} LastAgrees(log: seq<Chunk>, n: nat, origin: int)
    requires n < |log| && Agree(log)
    ensures !Disagrees(FirstWriter(log[..n]), log[n], origin, MAX_STREAM_BYTES)
  {
    FirstWriterMeaning(log[..n]);
    forall x | Has(log[n], x) && x in FirstWriter(log[..n]) ensures FirstWriter(log[..n])[x] == log[n].bytes[x - log[n].at] {
      var k := ReachedHasFirst(log[..n], x);
      assert log[..n][k] == log[k];
    }
  }
}
