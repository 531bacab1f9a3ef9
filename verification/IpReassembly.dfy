/** Rebuilding IP datagrams from their fragments. */
module IpReassembly {
  import opened Wrappers
  import opened Words
  import opened Ranges
  import opened HeadBuffer
  import opened Net

  const MAX_DATAGRAM_BYTES: nat := 65_535
  const MAX_TRACKED_DATAGRAMS: nat := 1024
  const MAX_RANGES: nat := 16

  /** Fragments of one original share source, destination, protocol and identification. */
  datatype FragKey = FragKey(src: IpAddr, dst: IpAddr, protocol: byte, id: u32)

  datatype Fragment = Fragment(key: FragKey, offset: nat, more: bool, bytes: seq<byte>)

  /** `frag_info` and `fragment_bytes`: the view of a packet the reassembler works on, if it is a fragment. */
  function FragInfo(h: IpHeader, bytes: seq<byte>): Option<Fragment> {
    if !h.fragmented then None
    else match h
      case Ipv4(src, dst, protocol, id, offset, more, _) => Some(Fragment(FragKey(src, dst, protocol, id), offset, more, bytes))
      case Ipv6(src, dst, protocol, id, offset, more, _) => Some(Fragment(FragKey(src, dst, protocol, id), offset, more, bytes))
  }

  // ---------------------------------------------------------------------------------------------------------------
  // What one fragment does, on values
  // ---------------------------------------------------------------------------------------------------------------

  datatype State = State(head: Head, totalLen: Option<nat>, fragments: nat, done: bool)

  const FRESH: State := State(EMPTY, None, 0, false)

  ghost function Finished(v: State): State {
    v.(head := EMPTY, done := true)
  }

  /** What a fragment leaves behind: the new view, the datagram it completed, and whether it disagreed. */
  datatype Outcome = Outcome(view: State, emitted: Option<seq<byte>>, conflict: bool)

  ghost function Placed(v: State, f: Fragment): State {
    State(WriteTo(v.head, f.offset, f.bytes, MAX_DATAGRAM_BYTES),
         if !f.more && v.totalLen.None? then Some(f.offset + |f.bytes|) else v.totalLen,
         v.fragments + 1, false)
  }

  ghost function Feed(v: State, f: Fragment): (o: Outcome)
    requires WellFormed(v.head)
    ensures WellFormed(o.view.head)
  {
    if f.offset >= MAX_DATAGRAM_BYTES || v.done then Outcome(v, None, false)
    else
      var placed := Placed(v, f);
      var conflict := Conflicts(v.head, f.offset, f.bytes, MAX_DATAGRAM_BYTES);
      if RangeTotal(placed.head) > MAX_RANGES then Outcome(Finished(placed), None, conflict)
      else if placed.totalLen.None? || placed.totalLen.value == 0 || RunLength(placed.head) < placed.totalLen.value then
        Outcome(placed, None, conflict)
      else
        Outcome(Finished(placed), Some(Bytes(placed.head, placed.totalLen.value)), conflict)
  }

  /** The whole table: every tracked datagram and the three counters. */
  datatype Table = Table(datagrams: map<FragKey, State>, reassembled: nat, dropped: nat, conflicting: nat)

  const NO_DATAGRAMS: Table := Table(map[], 0, 0, 0)

  ghost predicate Sound(t: Table) {
    forall k :: k in t.datagrams ==> WellFormed(t.datagrams[k].head)
  }

  ghost function Entry(t: Table, k: FragKey): State {
    if k in t.datagrams then t.datagrams[k] else FRESH
  }

  ghost predicate Dropped(t: Table, f: Fragment) {
    f.key !in t.datagrams && |t.datagrams| >= MAX_TRACKED_DATAGRAMS
  }

  ghost function Step(t: Table, f: Fragment): (r: (Table, Option<seq<byte>>))
    requires Sound(t)
    ensures Sound(r.0)
  {
    if f.offset >= MAX_DATAGRAM_BYTES then (t, None)
    else if Dropped(t, f) then (t.(dropped := t.dropped + 1), None)
    else
      var o := Feed(Entry(t, f.key), f);
      (Recorded(t, f.key, o), o.emitted)
  }

  ghost function Recorded(t: Table, k: FragKey, o: Outcome): Table {
    Table(t.datagrams[k := o.view],
          t.reassembled + (if o.emitted.Some? then 1 else 0),
          t.dropped,
          t.conflicting + (if o.conflict then 1 else 0))
  }

  lemma StepWhenDone(t: Table, f: Fragment)
    requires Sound(t) && f.offset < MAX_DATAGRAM_BYTES && !Dropped(t, f) && Entry(t, f.key).done
    ensures Step(t, f) == (t.(datagrams := t.datagrams[f.key := Entry(t, f.key)]), None)
  {
  }

  // ---------------------------------------------------------------------------------------------------------------
  // The program's own objects
  // ---------------------------------------------------------------------------------------------------------------

  class Datagram {
    var buf: seq<byte>
    var filled: seq<Range>
    var totalLen: Option<nat>
    var fragments: nat
    var done: bool
    ghost const key: FragKey  // the key it is tracked under
    ghost var state: State    // what the fields stand for

    ghost predicate Valid()
      reads this
    {
      && Inv(buf, filled) && |buf| <= MAX_DATAGRAM_BYTES
      && (done ==> buf == [] && filled == [])
      && state == State(Abs(buf, filled), totalLen, fragments, done)
    }

    constructor (ghost key: FragKey)
      ensures Valid() && state == FRESH && this.key == key
    {
      this.key := key;
      buf, filled, totalLen, fragments, done := [], [], None, 0, false;
      state := FRESH;
    }

    method Finish()
      requires Valid()
      modifies this
      ensures Valid() && state == Finished(old(state))
    {
      done := true;
      buf := [];
      filled := [];
      state := Finished(state);
    }

    method Write(offset: nat, payload: seq<byte>) returns (conflict: bool)
      requires Valid() && !done
      modifies `buf, `filled, `state
      ensures Valid()
      ensures state == old(state).(head := WriteTo(old(state).head, offset, payload, MAX_DATAGRAM_BYTES))
      ensures conflict <==> Conflicts(old(state).head, offset, payload, MAX_DATAGRAM_BYTES)
    {
      buf, filled, conflict := HeadBuffer.Write(buf, filled, offset, payload, MAX_DATAGRAM_BYTES);
      state := state.(head := Abs(buf, filled));
    }

    /** The counts the code reads off the range list are facts about the set of held positions. */
    lemma RangeFacts()
      requires Valid()
      ensures WellFormed(state.head)
      ensures |filled| == RangeTotal(state.head)
      ensures Contiguous(filled) == RunLength(state.head)
      ensures forall at :: 0 <= at < Contiguous(filled) ==> at in state.head.held && at < |buf| && state.head.held[at] == buf[at]
    {
      AbsKeys(buf, filled);
      RangeCount(filled, state.head.held.Keys);
      ContiguousIsPrefix(filled, state.head.held.Keys);
      PrefixUnique(state.head.held.Keys, Contiguous(filled), RunLength(state.head));
    }

    /** Write the fragment's bytes, count it, and let the first last fragment fix the total length. */
    method Place(f: Fragment) returns (conflict: bool)
      requires Valid() && !done
      modifies this
      ensures Valid() && state == Placed(old(state), f)
      ensures conflict <==> Conflicts(old(state).head, f.offset, f.bytes, MAX_DATAGRAM_BYTES)
    {
      conflict := Write(f.offset, f.bytes);
      fragments := fragments + 1;
      if !f.more && totalLen.None? {
        totalLen := Some(f.offset + |f.bytes|);
      }
      state := state.(fragments := fragments, totalLen := totalLen);
    }

    /** The part of `push` that works on the fragment's own datagram. */
    method Accept(f: Fragment) returns (out: Option<seq<byte>>, conflict: bool)
      requires Valid() && !done && f.offset < MAX_DATAGRAM_BYTES
      modifies this
      ensures Valid() && WellFormed(old(state).head)
      ensures Outcome(state, out, conflict) == Feed(old(state), f)
    {
      RangeFacts();
      ghost var s := state;
      conflict := Place(f);
      out := Settle(s, f, conflict);
    }

    /** Give up on too many ranges, or hand the datagram over when the run from 0 reaches its length. */
    method Settle(ghost s: State, f: Fragment, ghost conflict: bool) returns (out: Option<seq<byte>>)
      requires Valid() && f.offset < MAX_DATAGRAM_BYTES && !s.done
      requires WellFormed(s.head) && state == Placed(s, f)
      requires conflict <==> Conflicts(s.head, f.offset, f.bytes, MAX_DATAGRAM_BYTES)
      modifies this
      ensures Valid()
      ensures Outcome(state, out, conflict) == Feed(s, f)
    {
      ghost var placed := state;
      RangeFacts();
      out := None;
      if |filled| > MAX_RANGES {
        Finish();
        return;
      }
      if totalLen.None? || totalLen.value == 0 || Contiguous(filled) < totalLen.value {
        return;
      }
      out := Some(buf[..totalLen.value]);
      assert out.value == Bytes(placed.head, totalLen.value);
      Finish();
    }
  }

  class IpReassembler {
    var datagrams: map<FragKey, Datagram>
    var reassembled: nat
    var droppedDatagrams: nat
    var conflictingOverlaps: nat
    ghost var table: Table  // what the fields stand for
    ghost var Repr: set<Datagram>

    ghost predicate Valid()
      reads this, Repr
    {
      && table == Table(table.datagrams, reassembled, droppedDatagrams, conflictingOverlaps)
      && table.datagrams.Keys == datagrams.Keys
      && (forall k :: k in datagrams ==> datagrams[k] in Repr && datagrams[k].key == k)
      && (forall k :: k in datagrams ==> datagrams[k].Valid() && datagrams[k].state == table.datagrams[k])
    }

    lemma TableSound()
      requires Valid()
      ensures Sound(table)
    {
      forall k | k in datagrams ensures WellFormed(datagrams[k].state.head) {
        datagrams[k].RangeFacts();
      }
    }

    constructor ()
      ensures Valid() && table == NO_DATAGRAMS && Repr == {}
    {
      datagrams, reassembled, droppedDatagrams, conflictingOverlaps := map[], 0, 0, 0;
      table := NO_DATAGRAMS;
      Repr := {};
    }

    /** `entry(key).or_insert_with(Datagram::new)`, for a key not tracked yet. */
    method Insert(k: FragKey) returns (dg: Datagram)
      requires Valid() && k !in datagrams
      modifies this
      ensures Valid() && Repr == old(Repr) + {dg} && fresh(dg)
      ensures k in datagrams && datagrams[k] == dg && dg.state == FRESH
      ensures table == old(table).(datagrams := old(table).datagrams[k := FRESH])
    {
      dg := new Datagram(k);
      datagrams := datagrams[k := dg];
      Repr := Repr + {dg};
      table := table.(datagrams := table.datagrams[k := FRESH]);
    }

    /** Hand the fragment to its own datagram. */
    method Deliver(dg: Datagram, f: Fragment) returns (out: Option<seq<byte>>, conflict: bool)
      requires Valid() && f.key in datagrams && datagrams[f.key] == dg
      requires !dg.done && f.offset < MAX_DATAGRAM_BYTES
      modifies `table, dg
      ensures Valid() && WellFormed(old(dg.state).head)
      ensures Outcome(dg.state, out, conflict) == Feed(old(dg.state), f)
      ensures table == old(table).(datagrams := old(table).datagrams[f.key := dg.state])
    {
      out, conflict := dg.Accept(f);
      table := table.(datagrams := table.datagrams[f.key := dg.state]);
    }

    /** The counters `push` moves. */
    method Count(conflict: bool, emitted: bool)
      requires Valid()
      modifies `reassembled, `conflictingOverlaps, `table
      ensures Valid()
      ensures table == old(table).(conflicting := old(table).conflicting + (if conflict then 1 else 0),
                                   reassembled := old(table).reassembled + (if emitted then 1 else 0))
    {
      if conflict {
        conflictingOverlaps := conflictingOverlaps + 1;
      }
      if emitted {
        reassembled := reassembled + 1;
      }
      table := table.(conflicting := conflictingOverlaps, reassembled := reassembled);
    }

    /** `entry(key).or_insert_with(Datagram::new)` behind the cap on tracked datagrams; null when there is no room. */
    method Track(f: Fragment) returns (dg: Datagram?)
      requires Valid()
      modifies this
      ensures Valid() && fresh(Repr - old(Repr)) && old(Repr) <= Repr
      ensures dg == null <==> Dropped(old(table), f)
      ensures dg == null ==> table == old(table).(dropped := old(table).dropped + 1)
      ensures dg != null ==> f.key in datagrams && datagrams[f.key] == dg && dg.state == Entry(old(table), f.key)
      ensures dg != null ==> table == old(table).(datagrams := old(table).datagrams[f.key := dg.state])
    {
      hide HeadBuffer.Inv, HeadBuffer.Abs;
      if f.key in datagrams {
        dg := datagrams[f.key];
        assert table.datagrams[f.key := dg.state] == table.datagrams;
        return;
      }
      assert |table.datagrams| == |table.datagrams.Keys| == |datagrams.Keys| == |datagrams|;
      if |datagrams| >= MAX_TRACKED_DATAGRAMS {
        droppedDatagrams := droppedDatagrams + 1;
        table := table.(dropped := droppedDatagrams);
        return null;
      }
      dg := Insert(f.key);
    }

    /** `push`, after the packet turned out to be a fragment. */
    method Push(f: Fragment) returns (out: Option<seq<byte>>)
      requires Valid()
      modifies this, Repr
      ensures Valid() && fresh(Repr - old(Repr))
      ensures Sound(old(table)) && (table, out) == Step(old(table), f)
    {
      hide HeadBuffer.Inv, HeadBuffer.Abs;
      TableSound();
      if f.offset >= MAX_DATAGRAM_BYTES {
        return None;
      }
      var dg := Track(f);
      if dg == null {
        return None;
      }
      out := PushTracked(dg, f, old(table));
    }

    /** The rest of `push`, once the fragment's datagram is tracked. */
    method PushTracked(dg: Datagram, f: Fragment, ghost t: Table) returns (out: Option<seq<byte>>)
      requires Valid() && f.key in datagrams && datagrams[f.key] == dg && dg.state.done == dg.done
      requires f.offset < MAX_DATAGRAM_BYTES && Sound(t) && !Dropped(t, f) && dg.state == Entry(t, f.key)
      requires table == t.(datagrams := t.datagrams[f.key := dg.state])
      modifies `reassembled, `conflictingOverlaps, `table, dg
      ensures Valid() && (table, out) == Step(t, f)
    {
      hide Valid, Datagram.Valid, Feed;
      if dg.done {
        StepWhenDone(t, f);
        return None;
      }
      var conflict;
      out, conflict := Deliver(dg, f);
      Count(conflict, out.Some?);
      assert table.datagrams == t.datagrams[f.key := dg.state];
    }
  }
}
