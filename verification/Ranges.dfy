/**
 The list of filled ranges that both reassemblers keep beside their buffer: sorted, merged, and separated by real
 gaps. The list is the unique normal form of the set of positions it covers.
 */
module Ranges {

  datatype Range = Range(start: nat, end: nat)

  /** `is_filled`: some range holds the position. */
  predicate Covers(rs: seq<Range>, at: int) {
    exists i :: 0 <= i < |rs| && rs[i].start <= at < rs[i].end
  }

  ghost predicate Normal(rs: seq<Range>) {
    && (forall i :: 0 <= i < |rs| ==> rs[i].start < rs[i].end)
    && (forall i, j :: 0 <= i < j < |rs| ==> rs[i].end < rs[j].start)
  }

  /** `Vec::sort_unstable` on pairs: lexicographic, by insertion. */
  function Sort(rs: seq<Range>): (out: seq<Range>)
    ensures |out| == |rs|
  {
    if rs == [] then [] else SortInsert(rs[|rs| - 1], Sort(rs[..|rs| - 1]))
  }

  function SortInsert(r: Range, rs: seq<Range>): (out: seq<Range>)
    ensures |out| == |rs| + 1
  {
    if rs == [] || r.start < rs[0].start || (r.start == rs[0].start && r.end <= rs[0].end) then [r] + rs
    else [rs[0]] + SortInsert(r, rs[1..])
  }

  predicate Apart(a: Range, b: Range) {
    a.end < b.start || b.end < a.start
  }

  /** Sorting a normal list with one more range at a distance from all of them puts the range in its place. */
  lemma {:induction false} SortInsertNormal(r: Range, rs: seq<Range>)
    requires Normal(rs) && r.start < r.end
    requires forall i :: 0 <= i < |rs| ==> Apart(rs[i], r)
    ensures Normal(SortInsert(r, rs))
    ensures forall x :: x in SortInsert(r, rs) <==> x == r || x in rs
    ensures forall at :: Covers(SortInsert(r, rs), at) <==> Covers(rs, at) || r.start <= at < r.end
    decreases |rs|
  {
    var out := SortInsert(r, rs);
    if rs == [] || r.start <= rs[0].start {
      assert |rs| > 0 ==> Apart(rs[0], r);
      assert out == [r] + rs;
      forall at ensures Covers(out, at) <==> Covers(rs, at) || r.start <= at < r.end {
        CoversCons(r, rs, at);
      }
    } else {
      var tail := SortInsert(r, rs[1..]);
      SortInsertNormal(r, rs[1..]);
      assert rs == [rs[0]] + rs[1..];
      assert Apart(rs[0], r);
      forall j | 0 <= j < |tail| ensures rs[0].end < tail[j].start {
        assert tail[j] in tail;
      }
      forall at ensures Covers(out, at) <==> Covers(rs, at) || r.start <= at < r.end {
        CoversCons(rs[0], rs[1..], at);
        CoversCons(rs[0], tail, at);
      }
    }
  }

  lemma CoversCons(r: Range, rs: seq<Range>, at: int)
    ensures Covers([r] + rs, at) <==> r.start <= at < r.end || Covers(rs, at)
  {
    var all := [r] + rs;
    if r.start <= at < r.end {
      assert all[0].start <= at < all[0].end;
    }
    if Covers(rs, at) {
      var i :| 0 <= i < |rs| && rs[i].start <= at < rs[i].end;
      assert all[i + 1] == rs[i];
    }
    if Covers(all, at) {
      var i :| 0 <= i < |all| && all[i].start <= at < all[i].end;
      if i > 0 {
        assert all[i] == rs[i - 1];
      }
    }
  }

  lemma CoversSnoc(rs: seq<Range>, r: Range, at: int)
    ensures Covers(rs + [r], at) <==> Covers(rs, at) || r.start <= at < r.end
  {
    var all := rs + [r];
    if r.start <= at < r.end {
      assert all[|rs|].start <= at < all[|rs|].end;
    }
    if Covers(rs, at) {
      var i :| 0 <= i < |rs| && rs[i].start <= at < rs[i].end;
      assert all[i] == rs[i];
    }
  }

  lemma SortNormal(rs: seq<Range>)
    requires Normal(rs)
    ensures Sort(rs) == rs
    decreases |rs|
  {
    if rs != [] {
      var init, last := rs[..|rs| - 1], rs[|rs| - 1];
      SortNormal(init);
      SortInsertLast(last, init);
    }
  }

  lemma SortInsertLast(r: Range, rs: seq<Range>)
    requires forall i :: 0 <= i < |rs| ==> rs[i].start < r.start
    ensures SortInsert(r, rs) == rs + [r]
    decreases |rs|
  {
    if rs != [] {
      SortInsertLast(r, rs[1..]);
    }
  }

  /** Kept and merged ranges together account for the ranges seen and the new interval. */
  ghost predicate Accounts(kept: seq<Range>, merged: Range, seen: seq<Range>, start: nat, end: nat) {
    forall at :: Covers(kept, at) || merged.start <= at < merged.end <==> Covers(seen, at) || start <= at < end
  }

  lemma AccountsKept(kept: seq<Range>, merged: Range, seen: seq<Range>, start: nat, end: nat, r: Range)
    requires Accounts(kept, merged, seen, start, end)
    ensures Accounts(kept + [r], merged, seen + [r], start, end)
  {
    hide Covers;
    forall at ensures Covers(kept + [r], at) || merged.start <= at < merged.end <==> Covers(seen + [r], at) || start <= at < end {
      CoversSnoc(seen, r, at);
      CoversSnoc(kept, r, at);
    }
  }

  lemma AccountsMerged(kept: seq<Range>, merged: Range, seen: seq<Range>, start: nat, end: nat, r: Range)
    requires Accounts(kept, merged, seen, start, end) && merged.start < merged.end && r.start < r.end && !Apart(r, merged)
    ensures Accounts(kept, Swallow(merged, r), seen + [r], start, end)
  {
    hide Covers;
    var wide := Swallow(merged, r);
    forall at ensures Covers(kept, at) || wide.start <= at < wide.end <==> Covers(seen + [r], at) || start <= at < end {
      CoversSnoc(seen, r, at);
    }
  }

  /** The range from the lesser start to the greater end. */
  function Swallow(merged: Range, r: Range): Range {
    Range(if r.start < merged.start then r.start else merged.start, if r.end > merged.end then r.end else merged.end)
  }

  /**
   `add_range`: keep every range that does not touch the growing `merged`, swallow the others, then sort. The
   result is a normal form of exactly the old set and the new interval.
   */
  method AddRange(filled: seq<Range>, start: nat, end: nat) returns (out: seq<Range>)
    requires Normal(filled) && start < end
    ensures Normal(out)
    ensures forall at :: Covers(out, at) <==> Covers(filled, at) || start <= at < end
  {
    hide Covers;
    var merged := Range(start, end);
    var kept: seq<Range> := [];
    var i := 0;
    assert Accounts(kept, merged, filled[..0], start, end) by {
      assert filled[..0] == kept;
    }
    while i < |filled|
      invariant 0 <= i <= |filled|
      invariant Normal(kept) && merged.start < merged.end
      invariant forall k :: 0 <= k < |kept| ==> Apart(kept[k], merged)
      invariant forall k, j :: 0 <= k < |kept| && i <= j < |filled| ==> kept[k].end < filled[j].start
      invariant Accounts(kept, merged, filled[..i], start, end)
    {
      hide Accounts;
      var r := filled[i];
      assert filled[..i + 1] == filled[..i] + [r];
      if r.end < merged.start || r.start > merged.end {
        AccountsKept(kept, merged, filled[..i], start, end, r);
        kept := kept + [r];
      } else {
        AccountsMerged(kept, merged, filled[..i], start, end, r);
        merged := Swallow(merged, r);
      }
      i := i + 1;
    }
    assert filled[..i] == filled;
    out := Sort(kept + [merged]);
    assert (kept + [merged])[..|kept|] == kept;
    SortNormal(kept);
    SortInsertNormal(merged, kept);
  }

  /** Two normal lists that cover the same positions are the same list. */
  lemma {:induction false} NormalFormUnique(a: seq<Range>, b: seq<Range>)
    requires Normal(a) && Normal(b)
    requires forall at :: Covers(a, at) <==> Covers(b, at)
    ensures a == b
    decreases |a|
  {
    CoversOwnStart(a);
    CoversOwnStart(b);
    if a != [] {
      FirstRangeForced(a, b);
      FirstRangeForced(b, a);
      forall at ensures Covers(a[1..], at) <==> Covers(b[1..], at) {
        CoversCons(a[0], a[1..], at);
        CoversCons(b[0], b[1..], at);
        assert a == [a[0]] + a[1..] && b == [b[0]] + b[1..];
        if at < a[0].end {
          assert !Covers(a[1..], at) && !Covers(b[1..], at);
        }
      }
      NormalFormUnique(a[1..], b[1..]);
    }
  }

  lemma CoversOwnStart(rs: seq<Range>)
    requires Normal(rs)
    ensures rs != [] ==> Covers(rs, rs[0].start)
  {
    if rs != [] {
      assert rs[0].start <= rs[0].start < rs[0].end;
    }
  }

  lemma FirstRangeForced(a: seq<Range>, b: seq<Range>)
    requires Normal(a) && Normal(b) && a != [] && b != []
    requires forall at :: Covers(a, at) <==> Covers(b, at)
    ensures b[0].start <= a[0].start && b[0].end >= a[0].end
  {
    CoversOwnStart(a);
    CoversOwnStart(b);
    assert !Covers(b, b[0].end);
    if a[0].start <= b[0].end < a[0].end {
      assert false;
    }
  }

  /** Positions of `s` whose predecessor is missing: one for each maximal run. */
  ghost function RunStarts(s: set<int>): set<int> {
    set x | x in s && !HasPredecessor(s, x)
  }

  ghost predicate HasPredecessor(s: set<int>, x: int) {
    x - 1 in s
  }

  /** The length of the list is the number of maximal runs of the set it stands for. */
  lemma {:induction false} RangeCount(rs: seq<Range>, s: set<int>)
    requires Normal(rs)
    requires forall at :: at in s <==> Covers(rs, at)
    ensures |rs| == |RunStarts(s)|
    decreases |rs|
  {
    if rs == [] {
      assert RunStarts(s) == {};
    } else {
      var first, rest := rs[0], rs[1..];
      assert rs == [first] + rest;
      var s' := set at | at in s && at > first.end;
      forall at ensures at in s' <==> Covers(rest, at) {
        CoversCons(first, rest, at);
        RestBeyond(rs, at);
      }
      RangeCount(rest, s');
      FirstRunStart(rs, s, s');
      assert RunStarts(s) == {first.start} + RunStarts(s');
    }
  }

  lemma RestBeyond(rs: seq<Range>, at: int)
    requires Normal(rs) && rs != []
    ensures Covers(rs[1..], at) ==> at > rs[0].end
  {
  }

  lemma FirstRunStart(rs: seq<Range>, s: set<int>, s': set<int>)
    requires Normal(rs) && rs != []
    requires forall at :: at in s <==> Covers(rs, at)
    requires s' == set at | at in s && at > rs[0].end
    ensures forall at :: at in RunStarts(s) <==> at == rs[0].start || at in RunStarts(s')
    ensures rs[0].start !in RunStarts(s')
  {
    var first, rest := rs[0], rs[1..];
    assert rs == [first] + rest;
    forall at ensures at in s <==> first.start <= at < first.end || at in s' {
      CoversCons(first, rest, at);
      RestBeyond(rs, at);
    }
    forall at ensures at in RunStarts(s) <==> at == first.start || at in RunStarts(s') {
      assert HasPredecessor(s, at) <==> at - 1 in s;
      assert HasPredecessor(s', at) <==> at - 1 in s';
    }
  }

  /** `n` is the length of the run of `s` that starts at position 0. */
  ghost predicate IsPrefix(s: set<int>, n: int) {
    0 <= n && n !in s && forall at :: 0 <= at < n ==> at in s
  }

  lemma PrefixUnique(s: set<int>, m: int, n: int)
    requires IsPrefix(s, m) && IsPrefix(s, n)
    ensures m == n
  {
  }

  /** `contiguous`: the end of the first range when it starts at 0. */
  function Contiguous(filled: seq<Range>): (n: nat) {
    if filled != [] && filled[0].start == 0 then filled[0].end else 0
  }

  lemma ContiguousIsPrefix(filled: seq<Range>, s: set<int>)
    requires Normal(filled)
    requires forall at :: at in s <==> Covers(filled, at)
    ensures IsPrefix(s, Contiguous(filled))
  {
    var n := Contiguous(filled);
    if n == 0 {
      assert !Covers(filled, 0);
    } else {
      forall at | 0 <= at < n ensures Covers(filled, at) {
        assert filled[0].start <= at < filled[0].end;
      }
      assert !Covers(filled, n);
    }
  }
}
