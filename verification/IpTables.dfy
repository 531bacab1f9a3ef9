/** What any run of fragments, of any number of interleaved datagrams, leaves in the table. */
module IpTables {
  import opened Wrappers
  import opened Words
  import opened HeadBuffer
  import opened IpReassembly
  import opened IpRuns
  import Sums

  datatype TableRun = TableRun(table: Table, outs: seq<Option<seq<byte>>>)

  /** The table starts empty and takes the fragments one by one. */
  ghost function Run(fs: seq<Fragment>): (r: TableRun)
    ensures Sound(r.table) && |r.outs| == |fs|
  {
    if fs == [] then TableRun(NO_DATAGRAMS, [])
    else
      var r := Run(fs[..|fs| - 1]);
      var (table, out) := Step(r.table, fs[|fs| - 1]);
      TableRun(table, r.outs + [out])
  }

  /** The fragments of one datagram, in arrival order. */
  ghost function Of(fs: seq<Fragment>, k: FragKey): seq<Fragment> {
    if fs == [] then []
    else if fs[|fs| - 1].key == k then Of(fs[..|fs| - 1], k) + [fs[|fs| - 1]]
    else Of(fs[..|fs| - 1], k)
  }

  /** What was emitted on the fragments of one datagram. */
  ghost function OutsOf(fs: seq<Fragment>, outs: seq<Option<seq<byte>>>, k: FragKey): (r: seq<Option<seq<byte>>>)
    requires |outs| == |fs|
    ensures |r| == |Of(fs, k)|
  {
    if fs == [] then []
    else if fs[|fs| - 1].key == k then OutsOf(fs[..|fs| - 1], outs[..|fs| - 1], k) + [outs[|fs| - 1]]
    else OutsOf(fs[..|fs| - 1], outs[..|fs| - 1], k)
  }

  ghost function Nothing(n: nat): seq<Option<seq<byte>>> {
    seq(n, _ => None)
  }

  ghost predicate HasRoom(t: Table) {
    |t.datagrams| < 1024
  }

  /**
   Datagrams do not interfere. A tracked key is in exactly the state, and emitted exactly the messages, that its own
   fragments alone produce; an untracked key emitted nothing.
   */
  lemma {:induction false} Isolation(fs: seq<Fragment>, k: FragKey)
    ensures k in Run(fs).table.datagrams ==>
              Run(fs).table.datagrams[k] == FeedAll(Of(fs, k)).state
              && OutsOf(fs, Run(fs).outs, k) == FeedAll(Of(fs, k)).outs
    ensures k !in Run(fs).table.datagrams ==> OutsOf(fs, Run(fs).outs, k) == Nothing(|Of(fs, k)|)
    ensures k !in Run(fs).table.datagrams && HasRoom(Run(fs).table) ==>
              FeedAll(Of(fs, k)).state == FRESH && FeedAll(Of(fs, k)).outs == Nothing(|Of(fs, k)|)
    decreases |fs|
  {
    if fs == [] {
      assert FeedAll(Of(fs, k)) == History(FRESH, [], []);
    } else {
      var before, f := fs[..|fs| - 1], fs[|fs| - 1];
      Isolation(before, k);
      var r, o := Run(before), FeedAll(Of(before, k));
      assert Run(fs).outs[..|fs| - 1] == r.outs;
      hide Step, FeedAll, Sound, HasRoom;
      if f.key != k {
        StepElsewhere(r.table, f, k);
      } else {
        FeedAllSnoc(Of(before, k), f);
        StepHere(r.table, f, o.state);
        assert Nothing(|Of(fs, k)|) == Nothing(|Of(before, k)|) + [None];
      }
    }
  }

  /** A fragment of another datagram leaves this one alone, and never makes room. */
  lemma StepElsewhere(t: Table, f: Fragment, k: FragKey)
    requires Sound(t) && f.key != k
    ensures var t' := Step(t, f).0;
            && (k in t'.datagrams <==> k in t.datagrams)
            && (k in t.datagrams ==> t'.datagrams[k] == t.datagrams[k])
            && (HasRoom(t') ==> HasRoom(t))
  {
    hide Feed;
    var t' := Step(t, f).0;
    assert t.datagrams.Keys <= t'.datagrams.Keys;
    KeysGrow(t, t');
  }

  lemma KeysGrow(t: Table, t': Table)
    requires t.datagrams.Keys <= t'.datagrams.Keys
    ensures |t.datagrams| <= |t'.datagrams|
  {
    assert |t'.datagrams.Keys - t.datagrams.Keys| == |t'.datagrams.Keys| - |t.datagrams.Keys|;
    assert |t.datagrams| == |t.datagrams.Keys| && |t'.datagrams| == |t'.datagrams.Keys|;
  }

  /** A fragment meets its own datagram's state `s`: the tracked one, or a fresh one when there is room to track it. */
  lemma StepHere(t: Table, f: Fragment, s: State)
    requires Sound(t) && WellFormed(s.head)
    requires f.key in t.datagrams ==> s == t.datagrams[f.key]
    requires f.key !in t.datagrams && HasRoom(t) ==> s == FRESH
    ensures var (t', out) := Step(t, f);
            if f.key in t'.datagrams then
              t'.datagrams[f.key] == Feed(s, f).view && out == Feed(s, f).emitted
              && (f.key in t.datagrams || HasRoom(t))
            else
              out == None && f.key !in t.datagrams
              && (HasRoom(t') ==> HasRoom(t) && Feed(s, f) == Outcome(s, None, false))
  {
    if f.offset >= MAX_DATAGRAM_BYTES {
      NoiseIgnored(s, f);
    }
    hide Feed;
  }

  lemma {:induction false} FeedAllSnoc(fs: seq<Fragment>, f: Fragment)
    ensures FeedAll(fs + [f]).state == Feed(FeedAll(fs).state, f).view
    ensures FeedAll(fs + [f]).outs == FeedAll(fs).outs + [Feed(FeedAll(fs).state, f).emitted]
  {
    assert (fs + [f])[..|fs|] == fs;
  }

  lemma NoiseIgnored(s: State, f: Fragment)
    requires WellFormed(s.head) && f.offset >= MAX_DATAGRAM_BYTES
    ensures Feed(s, f) == Outcome(s, None, false)
  {
  }

  // ---------------------------------------------------------------------------------------------------------------
  // Bounds
  // ---------------------------------------------------------------------------------------------------------------

  ghost predicate Capped(s: State) {
    && s.head.len <= 65_535
    && RangeTotal(s.head) <= 16
    && (s.done ==> s.head == EMPTY)
  }

  ghost function DoneKeys(t: Table): set<FragKey> {
    set k | k in t.datagrams && t.datagrams[k].done
  }

  ghost function Buffered(t: Table): nat {
    Sums.SumOver(map k | k in t.datagrams :: t.datagrams[k].head.len)
  }

  lemma {:induction false} FeedCapped(s: State, f: Fragment)
    requires WellFormed(s.head) && Capped(s)
    ensures Capped(Feed(s, f).view)
    ensures Feed(s, f).emitted.Some? ==> !s.done && Feed(s, f).view.done
    ensures s.done ==> Feed(s, f).view.done
  {
    assert Ranges.RunStarts(EMPTY.held.Keys) == {};
  }

  /**
   Every bound the module promises, after any run: datagrams tracked, bytes and ranges per datagram, and bytes in
   all; and no more messages were rebuilt than datagrams finished.
   */
  lemma {:induction false} Bounded(fs: seq<Fragment>)
    ensures var t := Run(fs).table;
            && |t.datagrams| <= 1024
            && (forall k :: k in t.datagrams ==> Capped(t.datagrams[k]))
            && t.reassembled <= |DoneKeys(t)|
            && Buffered(t) <= 1024 * 65_535
    decreases |fs|
  {
    var t := Run(fs).table;
    if fs != [] {
      Bounded(fs[..|fs| - 1]);
      StepBounded(Run(fs[..|fs| - 1]).table, fs[|fs| - 1]);
    } else {
      assert DoneKeys(t) == {};
    }
    var lens := map k | k in t.datagrams :: t.datagrams[k].head.len;
    Sums.SumBound(lens, MAX_DATAGRAM_BYTES);
    assert lens.Keys == t.datagrams.Keys;
    assert |lens| == |lens.Keys| && |t.datagrams| == |t.datagrams.Keys|;
    assert |lens| * MAX_DATAGRAM_BYTES <= MAX_TRACKED_DATAGRAMS * MAX_DATAGRAM_BYTES;
  }

  lemma {:induction false} StepBounded(t: Table, f: Fragment)
    requires Sound(t)
    requires |t.datagrams| <= MAX_TRACKED_DATAGRAMS && t.reassembled <= |DoneKeys(t)|
    requires forall k :: k in t.datagrams ==> Capped(t.datagrams[k])
    ensures var t' := Step(t, f).0;
            && |t'.datagrams| <= MAX_TRACKED_DATAGRAMS && t'.reassembled <= |DoneKeys(t')|
            && forall k :: k in t'.datagrams ==> Capped(t'.datagrams[k])
  {
    assert Capped(FRESH) by {
      assert Ranges.RunStarts(EMPTY.held.Keys) == {};
    }
    var entry := Entry(t, f.key);
    FeedCapped(entry, f);
    if f.offset < MAX_DATAGRAM_BYTES && !Dropped(t, f) {
      RecordBounded(t, f.key, Feed(entry, f));
    }
  }

  lemma {:induction false} RecordBounded(t: Table, k: FragKey, o: Outcome)
    requires |t.datagrams| <= MAX_TRACKED_DATAGRAMS && t.reassembled <= |DoneKeys(t)|
    requires k in t.datagrams || |t.datagrams| < MAX_TRACKED_DATAGRAMS
    requires o.emitted.Some? ==> !Entry(t, k).done && o.view.done
    requires Entry(t, k).done ==> o.view.done
    ensures var t' := Recorded(t, k, o);
            |t'.datagrams| <= MAX_TRACKED_DATAGRAMS && t'.reassembled <= |DoneKeys(t')|
  {
    var t' := Recorded(t, k, o);
    if k in t.datagrams {
      assert t'.datagrams.Keys == t.datagrams.Keys;
    } else {
      assert t'.datagrams.Keys == t.datagrams.Keys + {k};
    }
    assert |t'.datagrams| == |t'.datagrams.Keys| && |t.datagrams| == |t.datagrams.Keys|;
    if o.view.done && !Entry(t, k).done {
      assert DoneKeys(t') == DoneKeys(t) + {k} && k !in DoneKeys(t);
    } else {
      assert DoneKeys(t') == DoneKeys(t);
    }
  }

  // ---------------------------------------------------------------------------------------------------------------
  // One message a datagram
  // ---------------------------------------------------------------------------------------------------------------

  ghost predicate TrackedDone(t: Table, k: FragKey) {
    k in t.datagrams && t.datagrams[k].done
  }

  /** A finished datagram stays finished and silent, and a message comes out only as its datagram finishes. */
  lemma StepDone(t: Table, f: Fragment, k: FragKey)
    requires Sound(t)
    ensures var (t', out) := Step(t, f);
            && (TrackedDone(t, k) ==> TrackedDone(t', k))
            && (TrackedDone(t, f.key) ==> out.None?)
            && (out.Some? ==> TrackedDone(t', f.key))
  {
    hide Placed, RunLength, RangeTotal;
  }

  /** Wherever a message came out, its datagram is tracked and finished from then on. */
  lemma {:induction false} EmittedDone(fs: seq<Fragment>, i: nat)
    requires i < |fs| && Run(fs).outs[i].Some?
    ensures TrackedDone(Run(fs).table, fs[i].key)
    decreases |fs|
  {
    hide Step, TrackedDone, Sound;
    var n := |fs| - 1;
    StepDone(Run(fs[..n]).table, fs[n], fs[i].key);
    if i < n {
      EmittedDone(fs[..n], i);
    }
  }

  /** In any run of the table, a datagram is emitted at most once. */
  lemma {:induction false} OneMessagePerDatagram(fs: seq<Fragment>, i: nat, j: nat)
    requires i < j < |fs| && fs[i].key == fs[j].key && Run(fs).outs[i].Some?
    ensures Run(fs).outs[j].None?
    decreases |fs|
  {
    hide Step, TrackedDone, Sound;
    var n := |fs| - 1;
    if j < n {
      OneMessagePerDatagram(fs[..n], i, j);
    } else {
      EmittedDone(fs[..n], i);
      StepDone(Run(fs[..n]).table, fs[n], fs[i].key);
    }
  }

  // ---------------------------------------------------------------------------------------------------------------
  // The counters
  // ---------------------------------------------------------------------------------------------------------------

  /** The last fragment found no room in the table. */
  ghost predicate RefusedLast(fs: seq<Fragment>)
    requires fs != []
  {
    var before, f := fs[..|fs| - 1], fs[|fs| - 1];
    f.offset < MAX_DATAGRAM_BYTES && Dropped(Run(before).table, f)
  }

  /** The last fragment is accepted by its open datagram, and differs from the first byte written at some position. */
  ghost predicate DisagreesLast(fs: seq<Fragment>)
    requires fs != []
  {
    var before, f := fs[..|fs| - 1], fs[|fs| - 1];
    && f.offset < MAX_DATAGRAM_BYTES && !Dropped(Run(before).table, f) && !Ended(Of(before, f.key))
    && Disagrees(Content(Of(before, f.key)), Chunk(f.offset, f.bytes), 0, MAX_DATAGRAM_BYTES)
  }

  ghost function Refusals(fs: seq<Fragment>): nat {
    if fs == [] then 0 else Refusals(fs[..|fs| - 1]) + if RefusedLast(fs) then 1 else 0
  }

  ghost function Disagreements(fs: seq<Fragment>): nat {
    if fs == [] then 0 else Disagreements(fs[..|fs| - 1]) + if DisagreesLast(fs) then 1 else 0
  }

  /** A fragment disagrees in the table exactly when it disagrees with what its own datagram was sent before. */
  lemma {:induction false} DisagreementIsLocal(before: seq<Fragment>, f: Fragment)
    requires f.offset < MAX_DATAGRAM_BYTES && !Dropped(Run(before).table, f)
    ensures WellFormed(Entry(Run(before).table, f.key).head)
    ensures Feed(Entry(Run(before).table, f.key), f).conflict
            <==> !Ended(Of(before, f.key))
                 && Disagrees(Content(Of(before, f.key)), Chunk(f.offset, f.bytes), 0, MAX_DATAGRAM_BYTES)
  {
    hide Ended, Disagrees, Content, Run, FirstEnd, Chunks, Feed, Crowded, Whole, Received;
    var own := Of(before, f.key);
    Isolation(before, f.key);
    Lifecycle(own + [f]);
    assert (own + [f])[..|own|] == own;
  }

  /** The three counters count what happened: datagrams rebuilt, fragments that disagreed, and fragments refused. */
  lemma {:induction false} CountersMeaning(fs: seq<Fragment>)
    ensures Run(fs).table.reassembled == CountSome(Run(fs).outs)
    ensures Run(fs).table.conflicting == Disagreements(fs)
    ensures Run(fs).table.dropped == Refusals(fs)
    decreases |fs|
  {
    hide Ended, Disagrees, Content, Feed, Sound;
    if fs != [] {
      var before, f := fs[..|fs| - 1], fs[|fs| - 1];
      CountersMeaning(before);
      assert Run(fs).outs[..|fs| - 1] == Run(before).outs;
      if f.offset < MAX_DATAGRAM_BYTES && !Dropped(Run(before).table, f) {
        DisagreementIsLocal(before, f);
      }
    }
  }
}
