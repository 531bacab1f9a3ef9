/**
 When a direction's stream is tracked, finishes and speaks: decided by its packets alone, over positions that do not
 wrap.
 */
module TcpLifecycle {
  import opened Wrappers
  import opened Words
  import opened Ranges
  import opened HeadBuffer
  import opened Apps
  import opened TcpReassembly
  import opened TcpRuns
  import opened TcpSplit
  import opened TcpTables

  // ---------------------------------------------------------------------------------------------------------------
  // What a stream sees of its writes
  // ---------------------------------------------------------------------------------------------------------------

  /** The first 16384 positions from the start, each with the byte first written there. */
  ghost function Visible(i: Ideal): Head {
    Head(16384, Window(FirstWriter(i.log), i.origin, 16384))
  }

  lemma VisibleAt(i: Ideal, x: int)
    ensures x in Visible(i).held <==> 0 <= x < 16384 && i.origin + x in FirstWriter(i.log)
    ensures x in Visible(i).held ==> Visible(i).held[x] == FirstWriter(i.log)[i.origin + x]
  {
    hide FirstWriter;
    WindowAt(FirstWriter(i.log), i.origin, 16384, x);
  }

  /** How many bytes from the start are there without a gap. */
  ghost function GapFree(i: Ideal): (n: nat)
    ensures IsPrefix(Visible(i).held.Keys, n) && n <= 16384
  {
    forall x | x in Visible(i).held ensures 0 <= x < 16384 {
      VisibleAt(i, x);
    }
    RunLength(Visible(i))
  }

  /** What they decode to. */
  ghost function Heard(i: Ideal, ports: Ports, wellFormed: seq<byte> -> bool): AppLayer {
    AppFromPayload(ports, Bytes(Visible(i), GapFree(i)), true, wellFormed)
  }

  /** The decoded bytes are those first written at the positions from the start on, up to the first gap. */
  lemma HeardBytes(i: Ideal, x: nat)
    ensures x < GapFree(i) ==>
              i.origin + x in FirstWriter(i.log) && Bytes(Visible(i), GapFree(i))[x] == FirstWriter(i.log)[i.origin + x]
    ensures x == GapFree(i) < 16384 ==> i.origin + x !in FirstWriter(i.log)
  {
    hide FirstWriter;
    VisibleAt(i, x);
  }

  // ---------------------------------------------------------------------------------------------------------------
  // The life of a stream
  // ---------------------------------------------------------------------------------------------------------------

  datatype Fate = Untracked | Alive(ideal: Ideal) | Over

  /** What becomes of a stream whose newest write was accepted, and what it says. */
  ghost function Verdict(i: Ideal, ports: Ports, wellFormed: seq<byte> -> bool): (Fate, Option<AppLayer>) {
    if |RunStarts(Visible(i).held.Keys)| > 16 then (Over, None)
    else if |i.log| >= 2 && GapFree(i) > 0 && IsComplete(Heard(i, ports, wellFormed)) then
      (Over, Some(Heard(i, ports, wellFormed)))
    else if |i.log| >= 2 && GapFree(i) >= 16384 then (Over, None)
    else (Alive(i), None)
  }

  /**
   A packet that ends the direction finishes a tracked stream and does not make one; any SYN or data makes one; only an
   accepted write can make it speak.
   */
  ghost function FateStep(f: Fate, p: Segment, at: int, wellFormed: seq<byte> -> bool): (Fate, Option<AppLayer>) {
    if Ends(p) then (if f.Untracked? then Untracked else Over, None)
    else if f.Over? || (!p.syn && p.payload == []) then (f, None)
    else
      var before := if f.Alive? then Some(f.ideal) else None;
      var after := IdealStep(before, p, at).value;
      if p.syn || !Accepts(if f.Alive? then f.ideal else after, at) then (Alive(after), None)
      else Verdict(after, PortsOf(p), wellFormed)
  }

  datatype Story = Story(fate: Fate, outs: seq<Option<AppLayer>>)

  ghost function StoryOf(ps: seq<Segment>, at: seq<int>, wellFormed: seq<byte> -> bool): (t: Story)
    requires |at| == |ps|
    ensures |t.outs| == |ps|
  {
    if ps == [] then Story(Untracked, [])
    else
      var n := |ps| - 1;
      var before := StoryOf(ps[..n], at[..n], wellFormed);
      var (fate, out) := FateStep(before.fate, ps[n], at[n], wellFormed);
      Story(fate, before.outs + [out])
  }

  /** A stream stands for a fate. */
  ghost predicate Stands(s: Option<State>, f: Fate) {
    match f
    case Untracked => s.None?
    case Over => s.Some? && s.value.done
    case Alive(i) => s.Some? && !s.value.done && Refines(s.value, i) && (i.synBased || i.log != [])
  }

  /** A stream in step with its ideal is judged as its visible writes say. */
  lemma JudgedAsVisible(s: State, i: Ideal, ports: Ports, wellFormed: seq<byte> -> bool)
    requires WellFormed(s.head) && !s.done && Refines(s, i) && (i.synBased || i.log != [])
    ensures var (s', out), (f, said) := Judged(s, ports, wellFormed), Verdict(i, ports, wellFormed);
            out == said && Stands(Some(s'), f)
  {
    hide Window, FirstWriter, Reach, RunStarts;
    assert s.head.held == Visible(i).held;
    PrefixUnique(s.head.held.Keys, RunLength(s.head), GapFree(i));
    assert Bytes(s.head, RunLength(s.head)) == Bytes(Visible(i), GapFree(i));
    hide RunLength, GapFree, AppFromPayload, IsComplete, Bytes;
  }

  /** One data packet at an open stream. */
  lemma DataFate(s: State, i: Ideal, p: Segment, at: int, wellFormed: seq<byte> -> bool)
    requires WellFormed(s.head) && !s.done && Refines(s, i) && Nearby(i.origin, at) && p.seqNo == Wrap32(at) && p.payload != []
    requires i.synBased || i.log != [] || at == i.origin
    ensures var o, i' := Feed(s, p.seqNo, p.payload, PortsOf(p), wellFormed), IdealData(i, at, p.payload);
            if !Accepts(i, at) then o.emitted == None && o.state == s && i' == i
            else var (f, said) := Verdict(i', PortsOf(p), wellFormed); o.emitted == said && Stands(Some(o.state), f)
  {
    hide Refines, Feed, Judged, Verdict, Stands, Wrap32;
    PlacedRefines(s, i, at, p.payload);
    FeedIsJudged(s, p.seqNo, p.payload, PortsOf(p), wellFormed);
    if Accepts(i, at) {
      assert !Placed(s, p.seqNo, p.payload).done;
      JudgedAsVisible(Placed(s, p.seqNo, p.payload), IdealData(i, at, p.payload), PortsOf(p), wellFormed);
    }
  }

  lemma StepFate(s: Option<State>, f: Fate, p: Segment, at: int, wellFormed: seq<byte> -> bool)
    requires Healthy(s) && Stands(s, f)
    requires f.Untracked? ==> Placeable(None, p, at)
    requires f.Alive? ==> Placeable(Some(f.ideal), p, at)
    ensures var l, (f', said) := LifeStep(s, p, wellFormed), FateStep(f, p, at, wellFormed);
            l.emitted == said && Stands(l.stream, f')
  {
    hide Refines, Feed, Verdict;
    match f
    case Over =>
      DoneStays(s, p, wellFormed);
    case Alive(i) =>
      if !Ends(p) && p.syn {
        SynRefines(s.value, i, p, at);
      } else if !Ends(p) && p.payload != [] {
        DataFate(s.value, i, p, at, wellFormed);
      }
    case Untracked =>
      if !Ends(p) && p.syn {
        FirstStepRefines(p, at, wellFormed);
      } else if !Ends(p) && p.payload != [] {
        FreshRefines(p.seqNo, at);
        DataFate(Fresh(p.seqNo), Ideal(at, [], false), p, at, wellFormed);
      }
  }

  lemma FreshRefines(seqNo: u32, at: int)
    requires seqNo == Wrap32(at)
    ensures Refines(Fresh(seqNo), Ideal(at, [], false)) && WellFormed(Fresh(seqNo).head)
  {
    EmptyWindow(at);
  }

  lemma FateFollowsIdeal(f: Fate, i: Option<Ideal>, p: Segment, at: int, wellFormed: seq<byte> -> bool)
    requires (f.Alive? ==> i == Some(f.ideal)) && (f.Untracked? ==> i == None)
    ensures var f' := FateStep(f, p, at, wellFormed).0;
            (f'.Alive? ==> IdealStep(i, p, at) == Some(f'.ideal)) && (f'.Untracked? ==> IdealStep(i, p, at) == None)
  {
    hide Ends;
  }

  /**
   A stream's whole life. In every run of a direction what comes out, on each packet, and whether the stream is
   untracked, open or finished are what the packets say: it finishes on a packet that ends the direction, on more than 16
   separate runs of bytes, on a whole message in the gap-free part, or when that part is 16384 bytes.
   */
  lemma {:induction false} Lifecycle(ps: seq<Segment>, at: seq<int>, wellFormed: seq<byte> -> bool)
    requires |at| == |ps| && PlaceableRun(ps, at)
    ensures StoryOf(ps, at, wellFormed).outs == RunOf(ps, wellFormed).outs
    ensures Stands(RunOf(ps, wellFormed).stream, StoryOf(ps, at, wellFormed).fate)
    ensures StoryOf(ps, at, wellFormed).fate.Alive? ==> IdealRun(ps, at) == Some(StoryOf(ps, at, wellFormed).fate.ideal)
    ensures StoryOf(ps, at, wellFormed).fate.Untracked? ==> IdealRun(ps, at) == None
    decreases |ps|
  {
    if ps != [] {
      var n := |ps| - 1;
      Lifecycle(ps[..n], at[..n], wellFormed);
      FateFollowsIdeal(StoryOf(ps[..n], at[..n], wellFormed).fate, IdealRun(ps[..n], at[..n]), ps[n], at[n], wellFormed);
      hide Stands, LifeStep, Placeable, FateStep, IdealStep;
      StepFate(RunOf(ps[..n], wellFormed).stream, StoryOf(ps[..n], at[..n], wellFormed).fate, ps[n], at[n], wellFormed);
    }
  }

  // ---------------------------------------------------------------------------------------------------------------
  // The packets that end a direction, among any other traffic
  // ---------------------------------------------------------------------------------------------------------------

  /** At the table, such a packet says nothing, finishes its own direction if it is tracked, and changes nothing else. */
  lemma StepEnds(t: Table, p: Segment, wellFormed: seq<byte> -> bool)
    requires Sound(t) && Ends(p)
    ensures var (t', out) := Step(t, p, wellFormed);
            && out == None && t'.streams.Keys == t.streams.Keys
            && (KeyOf(p) in t.streams ==> TrackedDone(t', KeyOf(p)))
            && (forall k :: k in t.streams && k != KeyOf(p) ==> t'.streams[k] == t.streams[k])
            && (t'.recovered, t'.dropped, t'.conflicting) == (t.recovered, t.dropped, t.conflicting)
  {
  }

  /**
   In every run of the table a packet that ends its direction brings nothing out. A tracked direction is finished and
   silent from then on; an untracked one is still untracked.
   */
  lemma {:induction false} EndingFinishes(ps: seq<Segment>, wellFormed: seq<byte> -> bool, i: nat)
    requires i < |ps| && Ends(ps[i])
    ensures RunTable(ps, wellFormed).outs[i] == None
    ensures var k, before := KeyOf(ps[i]), RunTable(ps[..i], wellFormed).table;
            if k in before.streams then
              && TrackedDone(RunTable(ps, wellFormed).table, k)
              && forall j :: i <= j < |ps| && KeyOf(ps[j]) == k ==> RunTable(ps, wellFormed).outs[j] == None
            else k !in RunTable(ps[..i + 1], wellFormed).table.streams
    decreases |ps|
  {
    hide Step, TrackedDone, Sound, Ends;
    var n := |ps| - 1;
    StepDone(RunTable(ps[..n], wellFormed).table, ps[n], KeyOf(ps[i]), wellFormed);
    if i < n {
      EndingFinishes(ps[..n], wellFormed, i);
      assert ps[..n][..i] == ps[..i] && ps[..n][..i + 1] == ps[..i + 1];
    } else {
      StepEnds(RunTable(ps[..n], wellFormed).table, ps[n], wellFormed);
      assert ps[..i + 1] == ps;
    }
  }
}
