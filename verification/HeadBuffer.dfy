/**
 The byte buffer under both reassemblers. `buf` and `filled` stand for a finite map from offset to the byte first
 written there; whatever is not in the map reads as zero.
 */
module HeadBuffer {
  import opened Words
  import opened Ranges

  /** What a buffer stands for: its length, and the byte held at each filled offset. */
  datatype Head = Head(len: nat, held: map<int, byte>)

  const EMPTY: Head := Head(0, map[])

  ghost predicate Inv(buf: seq<byte>, filled: seq<Range>) {
    && Normal(filled)
    && (forall i :: 0 <= i < |filled| ==> filled[i].end <= |buf|)
    && (forall at :: 0 <= at < |buf| && !Covers(filled, at) ==> buf[at] == 0)
  }

  ghost function Abs(buf: seq<byte>, filled: seq<Range>): Head {
    Head(|buf|, map at | 0 <= at < |buf| && Covers(filled, at) :: buf[at])
  }

  ghost predicate WellFormed(h: Head) {
    forall at :: at in h.held ==> 0 <= at < h.len
  }

  lemma AbsKeys(buf: seq<byte>, filled: seq<Range>)
    requires Inv(buf, filled)
    ensures WellFormed(Abs(buf, filled))
    ensures forall at :: at in Abs(buf, filled).held.Keys <==> Covers(filled, at)
  {
    forall at | Covers(filled, at) ensures 0 <= at < |buf| {
      var i :| 0 <= i < |filled| && filled[i].start <= at < filled[i].end;
      assert filled[i].end <= |buf|;
    }
  }

  lemma AbsAt(buf: seq<byte>, filled: seq<Range>, at: int)
    requires Inv(buf, filled)
    ensures at in Abs(buf, filled).held <==> Covers(filled, at)
    ensures Covers(filled, at) ==> 0 <= at < |buf| && Abs(buf, filled).held[at] == buf[at]
  {
    AbsKeys(buf, filled);
    assert at in Abs(buf, filled).held <==> at in Abs(buf, filled).held.Keys;
  }

  /** The concrete state is determined by what it stands for: equal maps and lengths mean equal `buf` and `filled`. */
  lemma StateDetermined(buf: seq<byte>, filled: seq<Range>, buf': seq<byte>, filled': seq<Range>)
    requires Inv(buf, filled) && Inv(buf', filled')
    requires Abs(buf, filled) == Abs(buf', filled')
    ensures buf == buf' && filled == filled'
  {
    AbsKeys(buf, filled);
    AbsKeys(buf', filled');
    forall at ensures Covers(filled, at) <==> Covers(filled', at) {
      assert at in Abs(buf, filled).held.Keys <==> at in Abs(buf', filled').held.Keys;
    }
    NormalFormUnique(filled, filled');
    forall at | 0 <= at < |buf| ensures buf[at] == buf'[at] {
      if Covers(filled, at) {
        assert Abs(buf, filled).held[at] == Abs(buf', filled').held[at];
      }
    }
  }

  /** First writer wins: bytes already held stay, the rest of the part of `payload` below `cap` is added. */
  ghost function WriteTo(h: Head, offset: nat, payload: seq<byte>, cap: nat): Head {
    var end := Min(offset + |payload|, cap);
    if end <= offset then h
    else Head(Max(h.len, end), h.held + (map at | offset <= at < end && at !in h.held :: payload[at - offset]))
  }

  lemma WriteNothing(h: Head, offset: nat, payload: seq<byte>, cap: nat)
    requires Min(offset + |payload|, cap) <= offset
    ensures WriteTo(h, offset, payload, cap) == h
  {
  }

  lemma WriteKeepsForm(h: Head, offset: nat, payload: seq<byte>, cap: nat)
    requires WellFormed(h)
    ensures WellFormed(WriteTo(h, offset, payload, cap))
  {
  }

  /** Some byte already held differs from the byte written over it. */
  ghost predicate Conflicts(h: Head, offset: nat, payload: seq<byte>, cap: nat) {
    exists at :: offset <= at < offset + |payload| && at < cap && at in h.held && h.held[at] != payload[at - offset]
  }

  /** Everything held moves `delta` later; what leaves the first `cap` positions is forgotten. */
  ghost function Shift(h: Head, delta: nat, cap: nat): Head {
    Head(Min(h.len + delta, cap), map at | 0 <= at < cap && HeldBefore(h, at, delta) :: h.held[at - delta])
  }

  ghost predicate HeldBefore(h: Head, at: int, delta: nat) {
    at - delta in h.held
  }

  lemma ShiftAt(h: Head, delta: nat, cap: nat, at: int)
    ensures at in Shift(h, delta, cap).held <==> 0 <= at < cap && at - delta in h.held
    ensures at in Shift(h, delta, cap).held ==> Shift(h, delta, cap).held[at] == h.held[at - delta]
  {
    assert HeldBefore(h, at, delta) <==> at - delta in h.held;
  }

  /** The number of separate runs of held bytes. */
  ghost function RangeTotal(h: Head): nat {
    |RunStarts(h.held.Keys)|
  }

  /** The length of the run of held bytes that starts at offset 0. */
  ghost function RunLength(h: Head): (n: nat)
    requires WellFormed(h)
    ensures IsPrefix(h.held.Keys, n) && n <= h.len
  {
    RunLengthFrom(h, 0)
  }

  ghost function RunLengthFrom(h: Head, from: nat): (n: nat)
    requires WellFormed(h) && from <= h.len
    requires forall at :: 0 <= at < from ==> at in h.held
    ensures IsPrefix(h.held.Keys, n) && n <= h.len
    decreases h.len - from
  {
    if from in h.held then RunLengthFrom(h, from + 1) else from
  }

  /** The first `n` bytes held. */
  ghost function Bytes(h: Head, n: nat): (bytes: seq<byte>)
    requires forall at :: 0 <= at < n ==> at in h.held
    ensures |bytes| == n && forall at :: 0 <= at < n ==> bytes[at] == h.held[at]
  {
    seq(n, i requires 0 <= i < n => h.held[i])
  }

  /** The walk of `write` over the payload, comparing what is filled and storing what is not. */
  method Store(buf: seq<byte>, filled: seq<Range>, offset: nat, payload: seq<byte>, end: nat)
    returns (buf': seq<byte>, conflict: bool)
    requires offset <= end <= |buf| && end - offset <= |payload|
    ensures |buf'| == |buf|
    ensures forall at :: 0 <= at < |buf| ==>
                           buf'[at] == if offset <= at < end && !Covers(filled, at) then payload[at - offset] else buf[at]
    ensures conflict <==> exists at :: offset <= at < end && Covers(filled, at) && buf[at] != payload[at - offset]
  {
    hide Covers;
    buf', conflict := buf, false;
    var i := 0;
    while i < end - offset
      invariant 0 <= i <= end - offset && |buf'| == |buf|
      invariant forall at :: 0 <= at < |buf| ==>
                               buf'[at] == if offset <= at < offset + i && !Covers(filled, at) then payload[at - offset] else buf[at]
      invariant conflict <==>
                exists at :: offset <= at < offset + i && Covers(filled, at) && buf[at] != payload[at - offset]
    {
      var at := offset + i;
      if Covers(filled, at) {
        if buf'[at] != payload[i] {
          conflict := true;
        }
      } else {
        buf' := buf'[at := payload[i]];
      }
      i := i + 1;
    }
  }

  /** `write`: grow the buffer with zeros, store the payload, and add the range. */
  method Write(buf: seq<byte>, filled: seq<Range>, offset: nat, payload: seq<byte>, cap: nat)
    returns (buf': seq<byte>, filled': seq<Range>, conflict: bool)
    requires Inv(buf, filled) && |buf| <= cap
    ensures Inv(buf', filled') && |buf'| <= cap
    ensures Abs(buf', filled') == WriteTo(Abs(buf, filled), offset, payload, cap)
    ensures conflict <==> Conflicts(Abs(buf, filled), offset, payload, cap)
  {
    hide Abs, WriteTo, Covers;
    buf', filled', conflict := buf, filled, false;
    var end := Min(offset + |payload|, cap);
    ConflictInBuffer(buf, filled, offset, payload, cap);
    if end <= offset {
      WriteNothing(Abs(buf, filled), offset, payload, cap);
      return;
    }
    if |buf'| < end {
      buf' := buf' + seq(end - |buf'|, _ => 0);
    }
    buf', conflict := Store(buf', filled, offset, payload, end);
    filled' := AddRange(filled, offset, end);
    WriteRepresents(buf, filled, offset, payload, cap, buf', filled');
  }

  /** A conflict, read off the buffer. */
  lemma ConflictInBuffer(buf: seq<byte>, filled: seq<Range>, offset: nat, payload: seq<byte>, cap: nat)
    requires Inv(buf, filled)
    ensures forall at :: Covers(filled, at) ==> 0 <= at < |buf|
    ensures Conflicts(Abs(buf, filled), offset, payload, cap)
            <==> exists at :: offset <= at < Min(offset + |payload|, cap) && Covers(filled, at) && buf[at] != payload[at - offset]
  {
    AbsKeys(buf, filled);
    var h := Abs(buf, filled);
    assert forall at :: at in h.held <==> Covers(filled, at);
    assert forall at :: at in h.held ==> h.held[at] == buf[at];
    hide Covers, Abs;
    if Conflicts(h, offset, payload, cap) {
      var at :| offset <= at < offset + |payload| && at < cap && at in h.held && h.held[at] != payload[at - offset];
      assert Covers(filled, at);
    }
  }

  lemma WriteRepresents(buf: seq<byte>, filled: seq<Range>, offset: nat, payload: seq<byte>, cap: nat,
                        buf': seq<byte>, filled': seq<Range>)
    requires Inv(buf, filled) && Normal(filled')
    requires offset < Min(offset + |payload|, cap)
    requires |buf'| == Max(|buf|, Min(offset + |payload|, cap))
    requires forall at :: 0 <= at < |buf'| ==>
                            buf'[at] == if offset <= at < Min(offset + |payload|, cap) && !Covers(filled, at) then payload[at - offset]
                            else if at < |buf| then buf[at] else 0
    requires forall at :: Covers(filled', at) <==> Covers(filled, at) || offset <= at < Min(offset + |payload|, cap)
    ensures Inv(buf', filled')
    ensures Abs(buf', filled') == WriteTo(Abs(buf, filled), offset, payload, cap)
  {
    AbsKeys(buf, filled);
    forall i | 0 <= i < |filled'| ensures filled'[i].end <= |buf'| {
      assert filled'[i].start <= filled'[i].end - 1 < filled'[i].end;
      assert Covers(filled', filled'[i].end - 1);
      if Covers(filled, filled'[i].end - 1) {
        assert filled'[i].end - 1 in Abs(buf, filled).held.Keys;
      }
    }
    var got, want := Abs(buf', filled').held, WriteTo(Abs(buf, filled), offset, payload, cap).held;
    AbsKeys(buf', filled');
    forall at ensures (at in got <==> at in want) && (at in got && at in want ==> got[at] == want[at]) {
      assert at in Abs(buf, filled).held.Keys <==> Covers(filled, at);
      WriteToAt(Abs(buf, filled), offset, payload, cap, at);
    }
    hide Abs, Covers;
    MapsEqual(got, want);
  }

  // ---------------------------------------------------------------------------------------------------------------
  // Logs of writes, at absolute positions
  // ---------------------------------------------------------------------------------------------------------------

  /** One accepted write at an absolute position. */
  datatype Chunk = Chunk(at: int, bytes: seq<byte>)

  ghost predicate Has(c: Chunk, x: int) {
    c.at <= x < c.at + |c.bytes|
  }

  ghost predicate Reached(log: seq<Chunk>, x: int) {
    exists i :: 0 <= i < |log| && Has(log[i], x)
  }

  /** Write `i` is the earliest one to cover position `x`. */
  ghost predicate CoversFirst(log: seq<Chunk>, i: int, x: int) {
    0 <= i < |log| && Has(log[i], x) && forall j :: 0 <= j < i ==> !Has(log[j], x)
  }

  /** Add a write to a first-writer map: only positions nobody wrote yet are taken. */
  ghost function Merge(m: map<int, byte>, c: Chunk): map<int, byte> {
    m + (map x | c.at <= x < c.at + |c.bytes| && x !in m :: c.bytes[x - c.at])
  }

  ghost function FirstWriter(log: seq<Chunk>): map<int, byte> {
    if log == [] then map[] else Merge(FirstWriter(log[..|log| - 1]), log[|log| - 1])
  }

  lemma ReachedSnoc(log: seq<Chunk>, c: Chunk, x: int)
    ensures Reached(log + [c], x) <==> Reached(log, x) || Has(c, x)
  {
    hide Has;
    if Reached(log, x) {
      var i :| 0 <= i < |log| && Has(log[i], x);
      assert Has((log + [c])[i], x);
    } else if Has(c, x) {
      assert Has((log + [c])[|log|], x);
    }
  }

  lemma CoversFirstSnoc(log: seq<Chunk>, c: Chunk, i: int, x: int)
    requires CoversFirst(log + [c], i, x)
    ensures 0 <= i <= |log| && Has((log + [c])[i], x)
    ensures if i < |log| then CoversFirst(log, i, x) else i == |log| && !Reached(log, x)
  {
    hide Has;
    assert forall j :: 0 <= j < |log| ==> (log + [c])[j] == log[j];
  }

  /** The map has exactly the positions some write covers, and at each the byte of the earliest such write. */
  lemma {:induction false} FirstWriterMeaning(log: seq<Chunk>)
    ensures forall x :: x in FirstWriter(log) <==> Reached(log, x)
    ensures forall i, x :: CoversFirst(log, i, x) ==> x in FirstWriter(log) && FirstWriter(log)[x] == log[i].bytes[x - log[i].at]
    decreases |log|
  {
    if log != [] {
      var init, c := log[..|log| - 1], log[|log| - 1];
      assert init + [c] == log;
      FirstWriterMeaning(init);
      var m := FirstWriter(init);
      assert FirstWriter(log) == Merge(m, c);
      hide Reached, CoversFirst, FirstWriter;
      forall x ensures x in Merge(m, c) <==> Reached(log, x) {
        ReachedSnoc(init, c, x);
      }
      forall i, x | CoversFirst(log, i, x) 
        ensures x in Merge(m, c) && 0 <= i < |log| && Has(log[i], x) && Merge(m, c)[x] == log[i].bytes[x - log[i].at]
      {
        CoversFirstSnoc(init, c, i, x);
      }
    }
  }

  lemma FirstWriterSnoc(log: seq<Chunk>, c: Chunk)
    ensures FirstWriter(log + [c]) == Merge(FirstWriter(log), c)
  {
    assert (log + [c])[..|log|] == log;
  }

  lemma ReachedHasFirst(log: seq<Chunk>, x: int) returns (i: nat)
    requires Reached(log, x)
    ensures CoversFirst(log, i, x)
  {
    i :| 0 <= i < |log| && Has(log[i], x);
    while exists j :: 0 <= j < i && Has(log[j], x)
      invariant 0 <= i < |log| && Has(log[i], x)
      decreases i
    {
      var j :| 0 <= j < i && Has(log[j], x);
      i := j;
    }
  }

  /** A map of absolute positions, seen through the window of `cap` positions that starts at `origin`. */
  ghost function Window(m: map<int, byte>, origin: int, cap: nat): map<int, byte> {
    map at | 0 <= at < cap && Within(m, origin, at) :: m[origin + at]
  }

  ghost predicate Within(m: map<int, byte>, origin: int, at: int) {
    origin + at in m
  }

  /** A write that disagrees, inside the window, with a byte an earlier write had put there. */
  ghost predicate Disagrees(m: map<int, byte>, c: Chunk, origin: int, cap: nat) {
    exists x :: origin <= x < origin + cap && Has(c, x) && x in m && m[x] != c.bytes[x - c.at]
  }

  lemma MapsEqual(a: map<int, byte>, b: map<int, byte>)
    requires forall x :: x in a <==> x in b
    requires forall x :: x in a && x in b ==> a[x] == b[x]
    ensures a == b
  {
    assert forall x :: x in a.Keys <==> x in b.Keys;
    assert a.Keys == b.Keys;
    assert forall x :: x in a ==> a[x] == b[x];
  }

  /** Writing at the window's offset is merging into the map. */
  lemma WindowWrite(h: Head, m: map<int, byte>, c: Chunk, origin: int, cap: nat)
    requires c.at >= origin && h.held == Window(m, origin, cap)
    ensures WriteTo(h, c.at - origin, c.bytes, cap).held == Window(Merge(m, c), origin, cap)
    ensures Conflicts(h, c.at - origin, c.bytes, cap) <==> Disagrees(m, c, origin, cap)
  {
    var got, want := WriteTo(h, c.at - origin, c.bytes, cap).held, Window(Merge(m, c), origin, cap);
    forall at ensures (at in got <==> at in want) && (at in got && at in want ==> got[at] == want[at]) {
      WindowWriteAt(h, m, c, origin, cap, at);
    }
    WindowConflict(h, m, c, origin, cap);
    hide WriteTo, Window, Merge, Conflicts, Disagrees;
    MapsEqual(got, want);
  }

  lemma WriteToAt(h: Head, offset: nat, payload: seq<byte>, cap: nat, at: int)
    ensures var after, written := WriteTo(h, offset, payload, cap).held, offset <= at < offset + |payload| && at < cap;
            && (at in after <==> at in h.held || written)
            && (at in h.held ==> after[at] == h.held[at])
            && (at !in h.held && written ==> after[at] == payload[at - offset])
  {
  }

  lemma WindowAt(m: map<int, byte>, origin: int, cap: nat, at: int)
    ensures at in Window(m, origin, cap) <==> 0 <= at < cap && origin + at in m
    ensures at in Window(m, origin, cap) ==> Window(m, origin, cap)[at] == m[origin + at]
  {
    assert Within(m, origin, at) <==> origin + at in m;
  }

  lemma MergeAt(m: map<int, byte>, c: Chunk, x: int)
    ensures x in Merge(m, c) <==> x in m || Has(c, x)
    ensures x in m ==> Merge(m, c)[x] == m[x]
    ensures x !in m && Has(c, x) ==> Merge(m, c)[x] == c.bytes[x - c.at]
  {
  }

  lemma WindowWriteAt(h: Head, m: map<int, byte>, c: Chunk, origin: int, cap: nat, at: int)
    requires c.at >= origin && h.held == Window(m, origin, cap)
    ensures var got, want := WriteTo(h, c.at - origin, c.bytes, cap).held, Window(Merge(m, c), origin, cap);
            (at in got <==> at in want) && (at in got && at in want ==> got[at] == want[at])
  {
    hide WriteTo, Window, Merge;
    WriteToAt(h, c.at - origin, c.bytes, cap, at);
    WindowAt(m, origin, cap, at);
    WindowAt(Merge(m, c), origin, cap, at);
    MergeAt(m, c, origin + at);
  }

  lemma WindowConflict(h: Head, m: map<int, byte>, c: Chunk, origin: int, cap: nat)
    requires c.at >= origin && h.held == Window(m, origin, cap)
    ensures Conflicts(h, c.at - origin, c.bytes, cap) <==> Disagrees(m, c, origin, cap)
  {
    var offset := c.at - origin;
    if Conflicts(h, offset, c.bytes, cap) {
      var at :| offset <= at < offset + |c.bytes| && at < cap && at in h.held && h.held[at] != c.bytes[at - offset];
      var x := origin + at;
      assert Within(m, origin, at);
      assert Has(c, x) && x - c.at == at - offset;
    }
    if Disagrees(m, c, origin, cap) {
      var x :| origin <= x < origin + cap && Has(c, x) && x in m && m[x] != c.bytes[x - c.at];
      var at := x - origin;
      assert Within(m, origin, at) && origin + at == x && x - c.at == at - offset;
      assert at in h.held && h.held[at] == m[x];
    }
  }

  /** Moving the start of the buffer earlier is moving the window, when nothing in the map precedes the old start. */
  lemma WindowShift(h: Head, m: map<int, byte>, origin: int, delta: nat, cap: nat)
    requires h.held == Window(m, origin, cap)
    requires forall x :: x in m ==> origin <= x
    ensures Shift(h, delta, cap).held == Window(m, origin - delta, cap)
  {
    var got, want := Shift(h, delta, cap).held, Window(m, origin - delta, cap);
    forall at ensures (at in got <==> at in want) && (at in got && at in want ==> got[at] == want[at]) {
      assert origin + (at - delta) == origin - delta + at;
      assert Within(m, origin, at - delta) <==> origin - delta + at in m;
      assert Within(m, origin - delta, at) <==> origin - delta + at in m;
      assert HeldBefore(h, at, delta) <==> at - delta in h.held;
    }
    MapsEqual(got, want);
  }
}
