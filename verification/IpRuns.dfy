/** What any run of fragments leaves behind, for one datagram and for the whole table. */
module IpRuns {
  import opened Wrappers
  import opened Words
  import opened Ranges
  import opened HeadBuffer
  import opened IpReassembly

  // ---------------------------------------------------------------------------------------------------------------
  // One datagram
  // ---------------------------------------------------------------------------------------------------------------

  /** State after a run, and what each fragment of the run emitted and whether it disagreed. */
  datatype History = History(state: State, outs: seq<Option<seq<byte>>>, conflicts: seq<bool>)

  ghost function FeedAll(fs: seq<Fragment>): (h: History)
    ensures WellFormed(h.state.head) && |h.outs| == |h.conflicts| == |fs|
  {
    if fs == [] then History(FRESH, [], [])
    else
      var h := FeedAll(fs[..|fs| - 1]);
      var o := Feed(h.state, fs[|fs| - 1]);
      History(o.view, h.outs + [o.emitted], h.conflicts + [o.conflict])
  }

  /** The writes the fragments below the size limit ask for, in arrival order. */
  ghost function Chunks(fs: seq<Fragment>): seq<Chunk> {
    if fs == [] then []
    else
      var f := fs[|fs| - 1];
      Chunks(fs[..|fs| - 1]) + (if f.offset < 65_535 then [Chunk(f.offset, f.bytes)] else [])
  }

  /** Where the first last-fragment says the datagram ends. */
  ghost function FirstEnd(fs: seq<Fragment>): Option<nat> {
    if fs == [] then None
    else
      var f, before := fs[|fs| - 1], FirstEnd(fs[..|fs| - 1]);
      if before.None? && f.offset < 65_535 && !f.more then Some(f.offset + |f.bytes|) else before
  }

  ghost function Content(fs: seq<Fragment>): map<int, byte> {
    FirstWriter(Chunks(fs))
  }

  ghost function Received(fs: seq<Fragment>): map<int, byte> {
    Window(Content(fs), 0, 65_535)
  }

  /** The bytes received fall into more separate runs than the list may hold. */
  ghost predicate Crowded(fs: seq<Fragment>) {
    |RunStarts(Received(fs).Keys)| > 16
  }

  /** The length is known, fits, and every byte below it has arrived. */
  ghost predicate Whole(fs: seq<Fragment>) {
    var end := FirstEnd(fs);
    end.Some? && 0 < end.value <= 65_535 && forall x :: 0 <= x < end.value ==> x in Content(fs)
  }

  /** At some point of the run the datagram was given up or completed. */
  ghost predicate Ended(fs: seq<Fragment>) {
    (fs != [] && Ended(fs[..|fs| - 1])) || Crowded(fs) || Whole(fs)
  }

  ghost function Assembled(fs: seq<Fragment>): (bytes: seq<byte>)
    requires Whole(fs)
    ensures |bytes| == FirstEnd(fs).value && forall x :: 0 <= x < |bytes| ==> bytes[x] == Content(fs)[x]
  {
    seq(FirstEnd(fs).value, x requires 0 <= x < FirstEnd(fs).value => Content(fs)[x])
  }

  /**
   The whole behaviour of one datagram as a function of what arrived. While it is open it holds the first-writer map
   of the run; it closes exactly when the run first becomes crowded or whole; and it emits exactly on the fragment
   that makes the run whole, and then the first-writer bytes up to the first announced end.
   */
  lemma {:induction false} Lifecycle(fs: seq<Fragment>)
    ensures FeedAll(fs).state.done <==> Ended(fs)
    ensures !Ended(fs) ==> var s := FeedAll(fs).state;
                           s.head.held == Received(fs) && s.totalLen == FirstEnd(fs) && s.fragments == |Chunks(fs)|
    ensures fs != [] ==>
              FeedAll(fs).outs[|fs| - 1] ==
              if !Ended(fs[..|fs| - 1]) && !Crowded(fs) && Whole(fs) then Some(Assembled(fs)) else None
    ensures fs != [] ==>
              var f, before := fs[|fs| - 1], fs[..|fs| - 1];
              FeedAll(fs).conflicts[|fs| - 1] <==>
              !Ended(before) && f.offset < 65_535
              && Disagrees(Content(before), Chunk(f.offset, f.bytes), 0, 65_535)
    decreases |fs|
  {
    hide Feed, Crowded, Whole, Assembled, Received, Content, Disagrees, FirstEnd, Chunks;
    if fs == [] {
      NothingReceived();
    } else {
      var before, f := fs[..|fs| - 1], fs[|fs| - 1];
      Lifecycle(before);
      assert before + [f] == fs;
      if Ended(before) {
        DoneKeeps(FeedAll(before).state, f);
      } else {
        OpenStep(before, f, FeedAll(before).state);
      }
    }
  }

  lemma DoneKeeps(s: State, f: Fragment)
    requires WellFormed(s.head) && s.done
    ensures Feed(s, f) == Outcome(s, None, false)
  {
  }

  /** One fragment at an open datagram. */
  lemma {:induction false} OpenStep(before: seq<Fragment>, f: Fragment, s: State)
    requires WellFormed(s.head) && !s.done && !Crowded(before) && !Whole(before)
    requires s.head.held == Received(before) && s.totalLen == FirstEnd(before) && s.fragments == |Chunks(before)|
    ensures var fs, o := before + [f], Feed(s, f);
            && (o.view.done <==> Crowded(fs) || Whole(fs))
            && (!o.view.done ==> o.view.head.held == Received(fs) && o.view.totalLen == FirstEnd(fs)
                                 && o.view.fragments == |Chunks(fs)|)
            && o.emitted == (if !Crowded(fs) && Whole(fs) then Some(Assembled(fs)) else None)
            && (o.conflict <==> f.offset < MAX_DATAGRAM_BYTES
                                && Disagrees(Content(before), Chunk(f.offset, f.bytes), 0, MAX_DATAGRAM_BYTES))
  {
    hide Content, Received, Conflicts, Disagrees, RunLength, WriteTo, Chunks, FirstEnd, Whole, Assembled, RunStarts;
    var fs := before + [f];
    if f.offset < MAX_DATAGRAM_BYTES {
      PlacedMatches(before, f, s);
      WriteKeepsForm(s.head, f.offset, f.bytes, MAX_DATAGRAM_BYTES);
      WholeIsRunLength(fs, Placed(s, f).head);
    } else {
      HistorySkip(before, f);
    }
  }

  lemma {:induction false} HistorySkip(before: seq<Fragment>, f: Fragment)
    requires f.offset >= MAX_DATAGRAM_BYTES
    ensures var fs := before + [f];
            && Chunks(fs) == Chunks(before) && FirstEnd(fs) == FirstEnd(before) && Received(fs) == Received(before)
            && (Whole(fs) <==> Whole(before))
  {
    hide Window, FirstWriter;
    assert (before + [f])[..|before|] == before;
  }

  lemma {:induction false} HistorySnoc(before: seq<Fragment>, f: Fragment)
    requires f.offset < MAX_DATAGRAM_BYTES
    ensures Chunks(before + [f]) == Chunks(before) + [Chunk(f.offset, f.bytes)]
    ensures FirstEnd(before + [f]) ==
            if FirstEnd(before).None? && !f.more then Some(f.offset + |f.bytes|) else FirstEnd(before)
  {
    assert (before + [f])[..|before|] == before;
  }

  /** Placing a fragment in an open datagram is appending it to the run. */
  lemma {:induction false} PlacedMatches(before: seq<Fragment>, f: Fragment, s: State)
    requires f.offset < MAX_DATAGRAM_BYTES
    requires s.head.held == Received(before) && s.totalLen == FirstEnd(before) && s.fragments == |Chunks(before)|
    ensures var fs, placed := before + [f], Placed(s, f);
            placed.head.held == Received(fs) && placed.totalLen == FirstEnd(fs) && placed.fragments == |Chunks(fs)|
    ensures Conflicts(s.head, f.offset, f.bytes, MAX_DATAGRAM_BYTES)
            <==> Disagrees(Content(before), Chunk(f.offset, f.bytes), 0, MAX_DATAGRAM_BYTES)
  {
    hide Window, Merge, WriteTo, Conflicts, Disagrees, FirstWriter, Chunks, FirstEnd;
    HistorySnoc(before, f);
    FirstWriterSnoc(Chunks(before), Chunk(f.offset, f.bytes));
    WindowWrite(s.head, Content(before), Chunk(f.offset, f.bytes), 0, MAX_DATAGRAM_BYTES);
  }

  lemma {:induction false} NothingReceived()
    ensures Chunks([]) == [] && FirstEnd([]) == None && Received([]) == map[] && !Crowded([]) && !Whole([])
  {
    assert Content([]) == map[];
    assert RunStarts(Received([]).Keys) == {};
  }

  /** Inside the size limit, being whole is what the code tests: the run from 0 reaches the announced end. */
  lemma {:induction false} WholeIsRunLength(fs: seq<Fragment>, h: Head)
    requires WellFormed(h) && h.held == Received(fs)
    ensures var end := FirstEnd(fs);
            Whole(fs) <==> end.Some? && end.value != 0 && RunLength(h) >= end.value
    ensures Whole(fs) ==> RunLength(h) >= FirstEnd(fs).value && Bytes(h, FirstEnd(fs).value) == Assembled(fs)
  {
    var n, m := RunLength(h), Content(fs);
    assert forall x :: Within(m, 0, x) <==> x in m;
    assert forall x :: x in h.held <==> 0 <= x < MAX_DATAGRAM_BYTES && x in m;
    assert n <= MAX_DATAGRAM_BYTES by {
      assert MAX_DATAGRAM_BYTES !in h.held;
    }
    var end := FirstEnd(fs);
    if Whole(fs) {
      assert n !in h.held;
      assert n >= end.value;
      assert Bytes(h, end.value) == Assembled(fs);
    }
  }

  /** What an emission means, byte by byte, in terms of the fragments alone. */
  lemma {:induction false} EmissionMeaning(fs: seq<Fragment>)
    requires fs != [] && FeedAll(fs).outs[|fs| - 1].Some?
    ensures var bytes := FeedAll(fs).outs[|fs| - 1].value;
            && FirstEnd(fs) == Some(|bytes|) && 0 < |bytes| <= 65_535
            && forall x :: 0 <= x < |bytes| ==>
                 Reached(Chunks(fs), x)
                 && forall i :: CoversFirst(Chunks(fs), i, x) ==> bytes[x] == Chunks(fs)[i].bytes[x - Chunks(fs)[i].at]
  {
    Lifecycle(fs);
    FirstWriterMeaning(Chunks(fs));
  }

  lemma {:induction false} EndedStays(fs: seq<Fragment>, n: nat)
    requires n <= |fs| && Ended(fs[..n])
    ensures Ended(fs)
    decreases |fs| - n
  {
    if n < |fs| {
      assert fs[..n + 1][..n] == fs[..n];
      EndedStays(fs, n + 1);
    } else {
      assert fs[..n] == fs;
    }
  }

  /** The outcomes of a prefix of a run are a prefix of the outcomes of the run. */
  lemma {:induction false} FeedAllPrefix(fs: seq<Fragment>, n: nat)
    requires n <= |fs|
    ensures FeedAll(fs[..n]).outs == FeedAll(fs).outs[..n] && FeedAll(fs[..n]).conflicts == FeedAll(fs).conflicts[..n]
    decreases |fs|
  {
    if n == |fs| {
      assert fs[..n] == fs;
    } else {
      FeedAllPrefix(fs[..|fs| - 1], n);
      assert fs[..|fs| - 1][..n] == fs[..n];
    }
  }

  /** A datagram is emitted at most once, however long the run goes on. */
  lemma {:induction false} EmittedAtMostOnce(fs: seq<Fragment>, i: nat, j: nat)
    requires i < j < |fs| && FeedAll(fs).outs[i].Some?
    ensures FeedAll(fs).outs[j].None?
  {
    hide FeedAll, Crowded, Whole, Assembled, Received;
    FeedAllPrefix(fs, i + 1);
    FeedAllPrefix(fs, j + 1);
    Lifecycle(fs[..i + 1]);
    Lifecycle(fs[..j + 1]);
    assert Ended(fs[..i + 1]);
    assert fs[..j][..i + 1] == fs[..i + 1];
    EndedStays(fs[..j], i + 1);
    assert fs[..j + 1][..j] == fs[..j];
  }

  /** A finished datagram holds neither bytes nor ranges. */
  lemma {:induction false} FinishedHoldsNothing(fs: seq<Fragment>)
    ensures FeedAll(fs).state.done ==> FeedAll(fs).state.head == EMPTY
    ensures FeedAll(fs).state.head.len <= 65_535 && RangeTotal(FeedAll(fs).state.head) <= 16
    decreases |fs|
  {
    assert RunStarts(EMPTY.held.Keys) == {};
    if fs != [] {
      FinishedHoldsNothing(fs[..|fs| - 1]);
    }
  }
}
