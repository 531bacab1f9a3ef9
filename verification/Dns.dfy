/**
 DNS messages: the name walk with compression pointers (section 4.1.4 of RFC 1035), and the message walk over the
 question and answer sections.
 */
module Dns {
  import opened Wrappers
  import opened Words

  const MAX_JUMPS: nat := 16
  const MAX_LABELS: nat := 127

  type Labels = seq<seq<byte>>

  datatype DnsError = Truncated | Malformed

  /** A name read at some offset, and the offset just past it in its original position. */
  datatype Name = Name(labels: Labels, next: nat)

  type NameResult = Result<Name, DnsError>

  // ---------------------------------------------------------------------------------------------------------------
  // Names
  // ---------------------------------------------------------------------------------------------------------------

  function PointerTarget(b0: byte, b1: byte): nat {
    (b0 % 64) * 0x100 + b1
  }

  function Prepend(first: seq<byte>, r: NameResult): NameResult {
    match r
    case Ok(name) => Ok(Name([first] + name.labels, name.next))
    case Err(_) => r
  }

  function Landing(r: NameResult, next: nat): NameResult {
    match r
    case Ok(name) => Ok(Name(name.labels, next))
    case Err(_) => r
  }

  /** The name at `offset`, when `jumps` more pointers may be followed and `count` labels were read before it. */
  function NameAt(msg: seq<byte>, offset: nat, jumps: nat, count: nat): NameResult
    decreases jumps, |msg| - offset
  {
    if offset >= |msg| then Err(Truncated)
    else
      var len := msg[offset];
      if len >= 0xC0 then
        if offset + 1 >= |msg| then Err(Malformed)
        else
          var target := PointerTarget(len, msg[offset + 1]);
          if jumps == 0 || target >= |msg| || target >= offset then Err(Malformed)
          else Landing(NameAt(msg, target, jumps - 1, count), offset + 2)
      else if len >= 0x40 then Err(Malformed)
      else if len == 0 then Ok(Name([], offset + 1))
      else if offset + 1 + len > |msg| then Err(Truncated)
      else if count + 1 > MAX_LABELS then Err(Malformed)
      else Prepend(msg[offset + 1..offset + 1 + len], NameAt(msg, offset + 1 + len, jumps, count + 1))
  }

  /** What the loop has read so far, put in front of what the walk still has to read. */
  ghost function Resumed(labels: Labels, afterPointer: Option<nat>, rest: NameResult): NameResult {
    match rest
    case Ok(name) => Ok(Name(labels + name.labels, if afterPointer.Some? then afterPointer.value else name.next))
    case Err(_) => rest
  }

  lemma ResumedNothing(r: NameResult)
    ensures Resumed([], None, r) == r
  {
    if r.Ok? {
      assert [] + r.value.labels == r.value.labels;
    }
  }

  /** One pointer of the walk. */
  lemma PointerStep(msg: seq<byte>, offset: nat, jumps: nat, labels: Labels, after: Option<nat>)
    requires offset + 1 < |msg| && msg[offset] >= 0xC0
    ensures var target := PointerTarget(msg[offset], msg[offset + 1]);
            Resumed(labels, after, NameAt(msg, offset, jumps, |labels|)) ==
            if jumps == 0 || target >= |msg| || target >= offset then Err(Malformed)
            else Resumed(labels, if after.Some? then after else Some(offset + 2), NameAt(msg, target, jumps - 1, |labels|))
  {
    hide PointerTarget;
  }

  /** One label of the walk. */
  lemma LabelStep(msg: seq<byte>, offset: nat, jumps: nat, labels: Labels, after: Option<nat>)
    requires offset < |msg| && 0 < msg[offset] < 0x40 && offset + 1 + msg[offset] <= |msg|
    ensures var next := offset + 1 + msg[offset];
            Resumed(labels, after, NameAt(msg, offset, jumps, |labels|)) ==
            if |labels| + 1 > MAX_LABELS then Err(Malformed)
            else Resumed(labels + [msg[offset + 1..next]], after, NameAt(msg, next, jumps, |labels| + 1))
  {
    var next := offset + 1 + msg[offset];
    var read, rest := msg[offset + 1..next], NameAt(msg, next, jumps, |labels| + 1);
    if rest.Ok? {
      assert labels + ([read] + rest.value.labels) == (labels + [read]) + rest.value.labels;
    }
  }

  /** `read_name`. */
  method ReadName(msg: seq<byte>, start: nat) returns (r: NameResult)
    ensures r == NameAt(msg, start, MAX_JUMPS, 0)
  {
    hide PointerTarget;
    ResumedNothing(NameAt(msg, start, MAX_JUMPS, 0));
    var labels: Labels := [];
    var offset: nat := start;
    var afterPointer: Option<nat> := None;
    var jumps: nat := 0;
    while true
      invariant jumps <= MAX_JUMPS && |labels| <= MAX_LABELS
      invariant NameAt(msg, start, MAX_JUMPS, 0) ==
                Resumed(labels, afterPointer, NameAt(msg, offset, MAX_JUMPS - jumps, |labels|))
      decreases MAX_JUMPS - jumps, |msg| - offset
    {
      if offset >= |msg| {
        return Err(Truncated);
      }
      var len := msg[offset];
      if len >= 0xC0 {
        if offset + 1 >= |msg| {
          return Err(Malformed);
        }
        PointerStep(msg, offset, MAX_JUMPS - jumps, labels, afterPointer);
        var target := PointerTarget(len, msg[offset + 1]);
        if afterPointer.None? {
          afterPointer := Some(offset + 2);
        }
        jumps := jumps + 1;
        if jumps > MAX_JUMPS || target >= |msg| || target >= offset {
          return Err(Malformed);
        }
        offset := target;
      } else if len >= 0x40 {
        return Err(Malformed);
      } else if len == 0 {
        assert labels + [] == labels;
        offset := offset + 1;
        return Ok(Name(labels, if afterPointer.Some? then afterPointer.value else offset));
      } else {
        if offset + 1 + len > |msg| {
          return Err(Truncated);
        }
        LabelStep(msg, offset, MAX_JUMPS - jumps, labels, afterPointer);
        labels := labels + [msg[offset + 1..offset + 1 + len]];
        offset := offset + 1 + len;
        if |labels| > MAX_LABELS {
          return Err(Malformed);
        }
      }
    }
  }

  /** On success the walk moved forward, stayed inside the message, and kept within the limits. */
  lemma {:induction false} NameBounds(msg: seq<byte>, offset: nat, jumps: nat, count: nat)
    requires NameAt(msg, offset, jumps, count).Ok?
    ensures var name := NameAt(msg, offset, jumps, count).value;
            && offset < name.next <= |msg|
            && (count <= MAX_LABELS ==> count + |name.labels| <= MAX_LABELS)
            && forall i :: 0 <= i < |name.labels| ==> 1 <= |name.labels[i]| <= 63
    decreases jumps, |msg| - offset
  {
    var len := msg[offset];
    if len >= 0xC0 {
      NameBounds(msg, PointerTarget(len, msg[offset + 1]), jumps - 1, count);
    } else if len > 0 {
      NameBounds(msg, offset + 1 + len, jumps, count + 1);
    }
  }

  // ---------------------------------------------------------------------------------------------------------------
  // What a name means, without limits or errors
  // ---------------------------------------------------------------------------------------------------------------

  ghost predicate LabelAt(msg: seq<byte>, offset: nat, bytes: seq<byte>) {
    && offset < |msg| && 1 <= msg[offset] <= 63 && offset + 1 + msg[offset] <= |msg|
    && bytes == msg[offset + 1..offset + 1 + msg[offset]]
  }

  /** The two bytes of a pointer: two set bits, then fourteen bits of offset. */
  function PointerBytes(target: nat): (bytes: seq<byte>)
    requires target < 0x4000
  {
    [0xC0 + target / 256, target % 256]
  }

  ghost predicate PointerAt(msg: seq<byte>, offset: nat, target: nat) {
    target < 0x4000 && target < offset && offset + 2 <= |msg| && msg[offset..offset + 2] == PointerBytes(target)
  }

  /** The target the program computes is the one the two bytes were made from. */
  lemma PointerRead(msg: seq<byte>, offset: nat, target: nat)
    ensures target < offset && offset + 2 <= |msg| && msg[offset] >= 0xC0 && target == PointerTarget(msg[offset], msg[offset + 1])
            <==> PointerAt(msg, offset, target)
  {
    if offset + 2 <= |msg| {
      var two := msg[offset..offset + 2];
      assert two[0] == msg[offset] && two[1] == msg[offset + 1];
    }
  }

  /** The bytes at `offset` spell `labels`, following exactly `jumps` backward pointers. */
  ghost predicate Spells(msg: seq<byte>, offset: nat, labels: Labels, jumps: nat)
    decreases jumps, |labels|
  {
    || (offset < |msg| && msg[offset] == 0 && labels == [] && jumps == 0)
    || (labels != [] && LabelAt(msg, offset, labels[0]) && Spells(msg, offset + 1 + |labels[0]|, labels[1..], jumps))
    || (jumps > 0 && exists target: nat :: PointerAt(msg, offset, target) && Spells(msg, target, labels, jumps - 1))
  }

  lemma OverEnd(msg: seq<byte>, offset: nat, jumps: nat, count: nat)
    requires offset < |msg| && msg[offset] == 0
    ensures NameAt(msg, offset, jumps, count) == Ok(Name([], offset + 1))
  {
  }

  lemma OverLabel(msg: seq<byte>, offset: nat, bytes: seq<byte>, jumps: nat, count: nat)
    requires LabelAt(msg, offset, bytes) && count < MAX_LABELS
    ensures NameAt(msg, offset, jumps, count) == Prepend(bytes, NameAt(msg, offset + 1 + |bytes|, jumps, count + 1))
  {
  }

  lemma OverPointer(msg: seq<byte>, offset: nat, target: nat, jumps: nat, count: nat)
    requires PointerAt(msg, offset, target) && jumps > 0
    ensures NameAt(msg, offset, jumps, count) == Landing(NameAt(msg, target, jumps - 1, count), offset + 2)
  {
    PointerRead(msg, offset, target);
    hide PointerAt, PointerTarget;
  }

  /** A name that is spelled within the limits is read, and read as what it spells. */
  lemma {:induction false} SpelledIsRead(msg: seq<byte>, offset: nat, labels: Labels, used: nat, jumps: nat, count: nat)
    requires Spells(msg, offset, labels, used) && used <= jumps && count + |labels| <= MAX_LABELS
    ensures NameAt(msg, offset, jumps, count).Ok? && NameAt(msg, offset, jumps, count).value.labels == labels
    decreases used, |labels|
  {
    hide NameAt, LabelAt, PointerAt;
    if offset < |msg| && msg[offset] == 0 && labels == [] && used == 0 {
      OverEnd(msg, offset, jumps, count);
    } else if labels != [] && LabelAt(msg, offset, labels[0]) && Spells(msg, offset + 1 + |labels[0]|, labels[1..], used) {
      OverLabel(msg, offset, labels[0], jumps, count);
      SpelledIsRead(msg, offset + 1 + |labels[0]|, labels[1..], used, jumps, count + 1);
    } else {
      var target: nat :| PointerAt(msg, offset, target) && Spells(msg, target, labels, used - 1);
      OverPointer(msg, offset, target, jumps, count);
      SpelledIsRead(msg, target, labels, used - 1, jumps - 1, count);
    }
  }

  /** A name that is read is spelled. */
  lemma {:induction false} ReadIsSpelled(msg: seq<byte>, offset: nat, jumps: nat, count: nat) returns (used: nat)
    requires NameAt(msg, offset, jumps, count).Ok?
    ensures used <= jumps && Spells(msg, offset, NameAt(msg, offset, jumps, count).value.labels, used)
    decreases jumps, |msg| - offset
  {
    var len := msg[offset];
    if len >= 0xC0 {
      var target := PointerTarget(len, msg[offset + 1]);
      var fewer := ReadIsSpelled(msg, target, jumps - 1, count);
      PointerRead(msg, offset, target);
      used := fewer + 1;
    } else if len == 0 {
      used := 0;
    } else {
      used := ReadIsSpelled(msg, offset + 1 + len, jumps, count + 1);
      var labels := NameAt(msg, offset, jumps, count).value.labels;
      assert labels[1..] == NameAt(msg, offset + 1 + len, jumps, count + 1).value.labels;
    }
  }

  /**
   `read_name` succeeds exactly on the names spelled with at most 127 labels and at most 16 pointers, and returns
   the one sequence of labels they spell.
   */
  lemma {:induction false} NameMeaning(msg: seq<byte>, start: nat, labels: Labels)
    ensures NameAt(msg, start, MAX_JUMPS, 0).Ok? && NameAt(msg, start, MAX_JUMPS, 0).value.labels == labels
            <==> |labels| <= 127 && exists used: nat :: used <= 16 && Spells(msg, start, labels, used)
  {
    if NameAt(msg, start, MAX_JUMPS, 0).Ok? && NameAt(msg, start, MAX_JUMPS, 0).value.labels == labels {
      NameBounds(msg, start, MAX_JUMPS, 0);
      var used := ReadIsSpelled(msg, start, MAX_JUMPS, 0);
      assert used <= MAX_JUMPS && Spells(msg, start, labels, used);
    }
    if |labels| <= MAX_LABELS && exists used: nat :: used <= MAX_JUMPS && Spells(msg, start, labels, used) {
      var used: nat :| used <= MAX_JUMPS && Spells(msg, start, labels, used);
      SpelledIsRead(msg, start, labels, used, MAX_JUMPS, 0);
    }
  }

  // ---------------------------------------------------------------------------------------------------------------
  // Encoding names
  // ---------------------------------------------------------------------------------------------------------------

  ghost predicate Encodable(labels: Labels) {
    forall i :: 0 <= i < |labels| ==> 1 <= |labels[i]| <= 63
  }

  /** Each label behind its length, as `encode_name` writes them. */
  ghost function EncodeLabels(labels: Labels): seq<byte>
    requires Encodable(labels)
  {
    if labels == [] then [] else [|labels[0]|] + labels[0] + EncodeLabels(labels[1..])
  }

  ghost function EncodeName(labels: Labels): seq<byte>
    requires Encodable(labels)
  {
    EncodeLabels(labels) + [0]
  }

  /** `part` is in `msg` at `at`. */
  ghost predicate Contains(msg: seq<byte>, at: nat, part: seq<byte>) {
    at + |part| <= |msg| && msg[at..at + |part|] == part
  }

  lemma ContainsParts(msg: seq<byte>, at: nat, a: seq<byte>, b: seq<byte>)
    requires Contains(msg, at, a + b)
    ensures Contains(msg, at, a) && Contains(msg, at + |a|, b)
  {
    assert msg[at..at + |a|] == (a + b)[..|a|] == a;
    assert msg[at + |a|..at + |a| + |b|] == (a + b)[|a|..] == b;
  }

  ghost function PrependAll(labels: Labels, r: NameResult): NameResult {
    match r
    case Ok(name) => Ok(Name(labels + name.labels, name.next))
    case Err(_) => r
  }

  lemma Prepended(labels: Labels, r: NameResult)
    ensures labels == [] ==> PrependAll(labels, r) == r
    ensures labels != [] ==> PrependAll(labels, r) == Prepend(labels[0], PrependAll(labels[1..], r))
  {
    if r.Ok? {
      if labels == [] {
        assert [] + r.value.labels == r.value.labels;
      } else {
        assert [labels[0]] + (labels[1..] + r.value.labels) == labels + r.value.labels;
      }
    }
  }

  /** Reading over encoded labels is reading what follows them, with those labels in front. */
  lemma {:induction false} LabelsInFront(msg: seq<byte>, at: nat, labels: Labels, jumps: nat, count: nat)
    requires Encodable(labels) && Contains(msg, at, EncodeLabels(labels)) && count + |labels| <= MAX_LABELS
    ensures NameAt(msg, at, jumps, count) ==
            PrependAll(labels, NameAt(msg, at + |EncodeLabels(labels)|, jumps, count + |labels|))
    decreases |labels|
  {
    hide NameAt, Contains, PrependAll, Prepend;
    var r := NameAt(msg, at + |EncodeLabels(labels)|, jumps, count + |labels|);
    Prepended(labels, r);
    if labels != [] {
      var first, rest := labels[0], labels[1..];
      var head := [|first|] + first;
      assert EncodeLabels(labels) == head + EncodeLabels(rest);
      ContainsParts(msg, at, head, EncodeLabels(rest));
      FirstLabel(msg, at, first, jumps, count);
      LabelsInFront(msg, at + |head|, rest, jumps, count + 1);
    }
  }

  lemma {:induction false} FirstLabel(msg: seq<byte>, at: nat, first: seq<byte>, jumps: nat, count: nat)
    requires 1 <= |first| <= 63 && Contains(msg, at, [|first|] + first) && count < MAX_LABELS
    ensures NameAt(msg, at, jumps, count) == Prepend(first, NameAt(msg, at + 1 + |first|, jumps, count + 1))
  {
    var head := [|first|] + first;
    assert msg[at] == msg[at..at + |head|][0] == |first|;
    assert msg[at + 1..at + 1 + |first|] == msg[at..at + |head|][1..] == first;
  }

  /** Labels followed by a backward pointer read as those labels and the name pointed to, and end past the pointer. */
  lemma {:induction false} CompressedName(msg: seq<byte>, at: nat, labels: Labels, target: nat, jumps: nat, count: nat)
    requires Encodable(labels) && Contains(msg, at, EncodeLabels(labels)) && count + |labels| <= MAX_LABELS
    requires PointerAt(msg, at + |EncodeLabels(labels)|, target) && jumps > 0
    ensures NameAt(msg, at, jumps, count) ==
            PrependAll(labels, Landing(NameAt(msg, target, jumps - 1, count + |labels|), at + |EncodeLabels(labels)| + 2))
  {
    hide EncodeLabels, Contains, NameAt, PointerAt;
    LabelsInFront(msg, at, labels, jumps, count);
    OverPointer(msg, at + |EncodeLabels(labels)|, target, jumps, count + |labels|);
  }

  /** An encoded name is read back exactly when it has at most 127 labels, wherever it stands in a message. */
  lemma {:induction false} NameRoundTrip(msg: seq<byte>, at: nat, labels: Labels)
    requires Encodable(labels) && Contains(msg, at, EncodeName(labels))
    ensures NameAt(msg, at, MAX_JUMPS, 0) == Ok(Name(labels, at + |EncodeName(labels)|)) <==> |labels| <= MAX_LABELS
  {
    ContainsParts(msg, at, EncodeLabels(labels), [0]);
    var end := at + |EncodeLabels(labels)|;
    assert msg[end] == msg[end..end + 1][0] == 0;
    if |labels| <= MAX_LABELS {
      LabelsInFront(msg, at, labels, MAX_JUMPS, 0);
      assert labels + [] == labels;
    } else if NameAt(msg, at, MAX_JUMPS, 0).Ok? {
      NameBounds(msg, at, MAX_JUMPS, 0);
    }
  }
}
