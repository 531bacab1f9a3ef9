/** A message cut off inside its answer section: whatever answers are whole are kept, and nothing else. */
module DnsCuts {
  import opened Wrappers
  import opened Words
  import opened Dns
  import opened DnsMessages

  /** `msg` ends inside the bytes `part` that start at `at`. */
  ghost predicate EndsInside(msg: seq<byte>, at: nat, part: seq<byte>) {
    at <= |msg| < at + |part| && msg[at..] == part[..|msg| - at]
  }

  lemma {:induction false} NameCut(msg: seq<byte>, at: nat, labels: Labels, jumps: nat, count: nat)
    requires Encodable(labels) && EndsInside(msg, at, EncodeName(labels)) && count + |labels| <= MAX_LABELS
    ensures NameAt(msg, at, jumps, count).Err?
    decreases |labels|
  {
    if labels != [] && at < |msg| {
      var first, rest := labels[0], labels[1..];
      assert EncodeName(labels) == [|first|] + first + EncodeName(rest) by {
        assert [|first|] + first + EncodeLabels(rest) + [0] == [|first|] + first + (EncodeLabels(rest) + [0]);
      }
      assert msg[at] == msg[at..][0] == |first|;
      var next := at + 1 + |first|;
      if next <= |msg| {
        assert msg[next..] == msg[at..][1 + |first|..];
        NameCut(msg, next, rest, jumps, count + 1);
      }
    }
  }

  lemma SplitEnds(msg: seq<byte>, at: nat, a: seq<byte>, b: seq<byte>)
    requires EndsInside(msg, at, a + b)
    ensures |msg| < at + |a| ==> EndsInside(msg, at, a)
    ensures |msg| >= at + |a| ==> Contains(msg, at, a) && EndsInside(msg, at + |a|, b)
  {
    var n := |msg| - at;
    if n < |a| {
      assert (a + b)[..n] == a[..n];
    } else {
      assert msg[at..at + |a|] == msg[at..][..|a|] == a;
      assert msg[at + |a|..] == msg[at..][|a|..] == b[..n - |a|];
    }
  }

  /** Labels whose end, or the pointer behind which, is cut off. */
  lemma {:induction false} AnswerNameCut(msg: seq<byte>, at: nat, a: Answer)
    requires WritableAnswer(a) && EndsInside(msg, at, AnswerName(a))
    ensures NameAt(msg, at, MAX_JUMPS, 0).Err?
  {
    if a.rest.None? {
      assert AnswerName(a) == EncodeName(a.own);
      NameCut(msg, at, a.own, MAX_JUMPS, 0);
    } else {
      var end := PointerBytes(a.rest.value.target);
      SplitEnds(msg, at, EncodeLabels(a.own), end);
      if |msg| < at + |EncodeLabels(a.own)| {
        LabelsEnd(msg, at, a.own);
        NameCut(msg, at, a.own, MAX_JUMPS, 0);
      } else {
        var behind := at + |EncodeLabels(a.own)|;
        assert behind < |msg| ==> msg[behind] == msg[behind..][0] == end[0];
        LabelsInFront(msg, at, a.own, MAX_JUMPS, 0);
      }
    }
  }

  lemma LabelsEnd(msg: seq<byte>, at: nat, labels: Labels)
    requires Encodable(labels) && EndsInside(msg, at, EncodeLabels(labels))
    ensures EndsInside(msg, at, EncodeName(labels))
  {
    assert EncodeName(labels)[..|msg| - at] == EncodeLabels(labels)[..|msg| - at];
  }

  /** A record that does not fit any more is not read. */
  lemma {:induction false} AnswerCut(msg: seq<byte>, at: nat, a: Answer)
    requires WritableAnswer(a) && EndsInside(msg, at, EncodeAnswer(a)) && Pointed(msg[..at], a)
    ensures RecordAt(msg, at).Err?
  {
    hide NameAt, AnswerName, Pointed, Contains, EndsInside, Long, AnswerFixed;
    EndIsBefore(msg, at, EncodeAnswer(a));
    var name, fixed := AnswerName(a), AnswerFixed(a);
    SplitEnds(msg, at, name, fixed + a.rdata);
    if |msg| < at + |name| {
      AnswerNameCut(msg, at, a);
    } else {
      AnswerNameRead(msg, at, a);
      FixedCut(msg, at + |name|, a);
    }
  }

  lemma FixedCut(msg: seq<byte>, next: nat, a: Answer)
    requires WritableAnswer(a) && EndsInside(msg, next, AnswerFixed(a) + a.rdata)
    ensures next + 10 > |msg| || next + 10 + Word(msg, next + 8) > |msg|
  {
    SplitEnds(msg, next, AnswerFixed(a), a.rdata);
    if next + 10 <= |msg| {
      ContainsParts(msg, next, WordBytes(a.rtype) + WordBytes(a.cls) + LongBytes(a.ttl), WordBytes(|a.rdata|));
      WordRead(msg, next + 8, |a.rdata|);
    }
  }

  /** How many answers fit whole in `room` bytes. */
  ghost function Fitting(rs: seq<Answer>, room: nat): (n: nat)
    requires forall i :: 0 <= i < |rs| ==> WritableAnswer(rs[i])
    ensures n <= |rs|
  {
    if rs == [] || |EncodeAnswer(rs[0])| > room then 0
    else 1 + Fitting(rs[1..], room - |EncodeAnswer(rs[0])|)
  }

  /** `msg` holds the bytes `part` from `at` on, or as many of them as there is room for. */
  ghost predicate HoldsOrEnds(msg: seq<byte>, at: nat, part: seq<byte>) {
    at <= |msg| && (Contains(msg, at, part) || EndsInside(msg, at, part))
  }

  lemma SplitHolds(msg: seq<byte>, at: nat, a: seq<byte>, b: seq<byte>)
    requires HoldsOrEnds(msg, at, a + b)
    ensures |msg| < at + |a| ==> EndsInside(msg, at, a)
    ensures |msg| >= at + |a| ==> Contains(msg, at, a) && HoldsOrEnds(msg, at + |a|, b)
  {
    if Contains(msg, at, a + b) {
      ContainsParts(msg, at, a, b);
    } else {
      SplitEnds(msg, at, a, b);
    }
  }

  lemma {:induction false} AnswersCut(msg: seq<byte>, at: nat, rs: seq<Answer>)
    requires forall i :: 0 <= i < |rs| ==> WritableAnswer(rs[i])
    requires HoldsOrEnds(msg, at, EncodeAnswers(rs)) && AllPointed(msg[..at], rs)
    ensures AnswersAt(msg, at, |rs|) == ResolvedAll(rs[..Fitting(rs, |msg| - at)])
    decreases |rs|
  {
    hide RecordAt, EncodeAnswer, WritableAnswer, Pointed, Resolved, EndsInside;
    if rs != [] {
      var len := |EncodeAnswer(rs[0])|;
      SplitHolds(msg, at, EncodeAnswer(rs[0]), EncodeAnswers(rs[1..]));
      if |msg| < at + len {
        AnswerCut(msg, at, rs[0]);
      } else {
        AnswerRead(msg, at, rs[0]);
        WrittenSoFar(msg, at, EncodeAnswer(rs[0]));
        AnswersCut(msg, at + len, rs[1..]);
        var kept := rs[..Fitting(rs, |msg| - at)];
        assert kept[1..] == rs[1..][..Fitting(rs[1..], |msg| - at - len)];
        assert ResolvedAll(kept) == [Resolved(kept[0])] + ResolvedAll(kept[1..]);
      }
    }
  }

  lemma {:induction false} QuestionCut(msg: seq<byte>, at: nat, q: Question)
    requires WritableName(q.name) && EndsInside(msg, at, EncodeQuestion(q))
    ensures QuestionAt(msg, at).Err?
  {
    hide NameAt, EndsInside, Contains, Word;
    SplitEnds(msg, at, EncodeName(q.name), WordBytes(q.qtype) + WordBytes(q.qclass));
    if |msg| < at + |EncodeName(q.name)| {
      NameCut(msg, at, q.name, MAX_JUMPS, 0);
    } else {
      NameReadWith(msg, at, q.name, MAX_JUMPS);
      EndIsBefore(msg, at + |EncodeName(q.name)|, WordBytes(q.qtype) + WordBytes(q.qclass));
    }
  }

  lemma EndIsBefore(msg: seq<byte>, at: nat, part: seq<byte>)
    requires EndsInside(msg, at, part)
    ensures at <= |msg| < at + |part|
  {
  }

  lemma {:induction false} QuestionsCut(msg: seq<byte>, at: nat, qs: seq<Question>)
    requires forall i :: 0 <= i < |qs| ==> WritableName(qs[i].name)
    requires EndsInside(msg, at, EncodeQuestions(qs))
    ensures QuestionsAt(msg, at, |qs|).Err?
    decreases |qs|
  {
    hide Contains, QuestionAt, EncodeQuestion, WritableName, EndsInside;
    EndIsBefore(msg, at, EncodeQuestions(qs));
    if qs != [] {
      SplitEnds(msg, at, EncodeQuestion(qs[0]), EncodeQuestions(qs[1..]));
      if |msg| < at + |EncodeQuestion(qs[0])| {
        QuestionCut(msg, at, qs[0]);
      } else {
        QuestionRead(msg, at, qs[0]);
        QuestionsCut(msg, at + |EncodeQuestion(qs[0])|, qs[1..]);
      }
    }
  }

  /** Cut inside its header or its questions a message is not read at all. */
  lemma {:induction false} CutQuestions(d: Draft, n: nat)
    requires Writable(d) && n < HEADER + |EncodeQuestions(d.questions)|
    ensures n <= |Encode(d)| && Parse(Encode(d)[..n]).Err?
  {
    hide Word, QuestionsAt, AnswersAt, Contains, EncodeQuestions, EncodeAnswers, EncodeHeader, EndsInside;
    CutIsInside(d, n);
    if n >= HEADER {
      var msg := Encode(d)[..n];
      SplitEnds(msg, 0, EncodeHeader(d), EncodeQuestions(d.questions));
      HeaderRead(msg, d);
      QuestionsCut(msg, HEADER, d.questions);
    }
  }

  lemma CutIsInside(d: Draft, n: nat)
    requires Writable(d) && n < HEADER + |EncodeQuestions(d.questions)|
    ensures n <= |Encode(d)| && EndsInside(Encode(d)[..n], 0, EncodeHeader(d) + EncodeQuestions(d.questions))
  {
    hide EncodeHeader, EncodeQuestions, EncodeAnswers;
    var head, tail := EncodeHeader(d) + EncodeQuestions(d.questions), EncodeAnswers(d.answers);
    assert Encode(d) == head + tail;
  }

  /** Cut anywhere after its questions a message keeps exactly the answers that are still whole. */
  lemma {:induction false} CutMessage(d: Draft, n: nat)
    requires Writable(d)
    requires HEADER + |EncodeQuestions(d.questions)| <= n <= |Encode(d)|
    ensures var kept := Fitting(d.answers, n - HEADER - |EncodeQuestions(d.questions)|);
            Parse(Encode(d)[..n]) == Ok(Meant(d).(answers := ResolvedAll(d.answers[..kept])))
  {
    hide Word, QuestionsAt, AnswersAt, Contains, Encode, EncodeQuestions, EncodeAnswers,
      EncodeHeader, ResolvedAll, Fitting, HoldsOrEnds, AllPointed, WritableAnswer, WritableName;
    var msg, at := Encode(d)[..n], HEADER + |EncodeQuestions(d.questions)|;
    CutLayout(d, n);
    HeaderRead(msg, d);
    QuestionsRead(msg, HEADER, d.questions);
    AnswersCut(msg, at, d.answers);
  }

  lemma CutLayout(d: Draft, n: nat)
    requires Writable(d) && HEADER + |EncodeQuestions(d.questions)| <= n <= |Encode(d)|
    ensures var msg := Encode(d)[..n];
            && Contains(msg, 0, EncodeHeader(d))
            && Contains(msg, HEADER, EncodeQuestions(d.questions))
            && HoldsOrEnds(msg, HEADER + |EncodeQuestions(d.questions)|, EncodeAnswers(d.answers))
            && msg[..HEADER + |EncodeQuestions(d.questions)|] == EncodeHeader(d) + EncodeQuestions(d.questions)
  {
    hide EncodeHeader, EncodeQuestions, EncodeAnswers, AllPointed;
    var full, msg := Encode(d), Encode(d)[..n];
    var q, a := EncodeQuestions(d.questions), EncodeAnswers(d.answers);
    assert HoldsOrEnds(msg, 0, EncodeHeader(d) + (q + a)) by {
      if n == |full| {
        assert Contains(msg, 0, EncodeHeader(d) + (q + a));
      } else {
        assert EndsInside(msg, 0, EncodeHeader(d) + (q + a));
      }
    }
    SplitHolds(msg, 0, EncodeHeader(d), q + a);
    SplitHolds(msg, HEADER, q, a);
  }
}
