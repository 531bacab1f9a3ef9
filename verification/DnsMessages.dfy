/** The walk over a whole DNS message: header, questions, and as many answers as parse (section 4.1 of RFC 1035). */
module DnsMessages {
  import opened Wrappers
  import opened Words
  import opened Dns

  const HEADER: nat := 12
  const MAX_QUESTIONS: nat := 64
  const MAX_ANSWERS: nat := 512

  datatype Question = Question(name: Labels, qtype: u16, qclass: u16)

  /** An answer with its data as bytes; rendering them as text is not part of this model. */
  datatype Record = Record(name: Labels, rtype: u16, ttl: u32, rdata: seq<byte>)

  /** Something read, and the offset just past it. */
  datatype Walked<+T> = Walked(item: T, next: nat)

  datatype Message = Message(
    id: u16, isResponse: bool, opcode: nat, rcode: nat, recursionDesired: bool, truncated: bool,
    questions: seq<Question>, answers: seq<Record>, authorityCount: u16, additionalCount: u16)

  function Word(msg: seq<byte>, at: nat): u16
    requires at + 2 <= |msg|
  {
    Be16(msg[at], msg[at + 1])
  }

  function Long(msg: seq<byte>, at: nat): u32
    requires at + 4 <= |msg|
  {
    0x1_0000 * Word(msg, at) + Word(msg, at + 2)
  }

  // ---------------------------------------------------------------------------------------------------------------
  // The walk as functions
  // ---------------------------------------------------------------------------------------------------------------

  function QuestionAt(msg: seq<byte>, offset: nat): Result<Walked<Question>, DnsError> {
    match NameAt(msg, offset, MAX_JUMPS, 0)
    case Err(e) => Err(e)
    case Ok(name) =>
      if name.next + 4 > |msg| then Err(Truncated)
      else Ok(Walked(Question(name.labels, Word(msg, name.next), Word(msg, name.next + 2)), name.next + 4))
  }

  function QuestionsAt(msg: seq<byte>, offset: nat, n: nat): Result<Walked<seq<Question>>, DnsError>
    decreases n
  {
    if n == 0 then Ok(Walked([], offset))
    else match QuestionAt(msg, offset)
      case Err(e) => Err(e)
      case Ok(first) => QuestionBefore(first.item, QuestionsAt(msg, first.next, n - 1))
  }

  function QuestionBefore(q: Question, rest: Result<Walked<seq<Question>>, DnsError>): Result<Walked<seq<Question>>, DnsError> {
    match rest
    case Err(e) => rest
    case Ok(rest) => Ok(Walked([q] + rest.item, rest.next))
  }

  function RecordAt(msg: seq<byte>, offset: nat): Result<Walked<Record>, DnsError> {
    match NameAt(msg, offset, MAX_JUMPS, 0)
    case Err(e) => Err(e)
    case Ok(name) =>
      if name.next + 10 > |msg| then Err(Truncated)
      else
        var start, len := name.next + 10, Word(msg, name.next + 8);
        if start + len > |msg| then Err(Truncated)
        else
          var record := Record(name.labels, Word(msg, name.next), Long(msg, name.next + 4), msg[start..start + len]);
          Ok(Walked(record, start + len))
  }

  function AnswersAt(msg: seq<byte>, offset: nat, n: nat): seq<Record>
    decreases n
  {
    if n == 0 then []
    else match RecordAt(msg, offset)
      case Err(_) => []
      case Ok(first) => [first.item] + AnswersAt(msg, first.next, n - 1)
  }

  function Parse(msg: seq<byte>): Result<Message, DnsError> {
    if |msg| < HEADER then Err(Truncated)
    else
      var flags, qdcount, ancount := Word(msg, 2), Word(msg, 4), Word(msg, 6);
      var opcode := flags / 0x800 % 16;
      if opcode > 5 || qdcount > MAX_QUESTIONS || ancount > MAX_ANSWERS then Err(Malformed)
      else match QuestionsAt(msg, HEADER, qdcount)
        case Err(e) => Err(e)
        case Ok(q) =>
          Ok(Assemble(msg, q.item, AnswersAt(msg, q.next, ancount)))
  }

  /** The header fields, with the two sections. */
  function Assemble(msg: seq<byte>, questions: seq<Question>, answers: seq<Record>): Message
    requires |msg| >= HEADER
  {
    var flags := Word(msg, 2);
    Message(Word(msg, 0), flags / 0x8000 % 2 == 1, flags / 0x800 % 16, flags % 16, flags / 0x100 % 2 == 1, flags / 0x200 % 2 == 1,
            questions, answers, Word(msg, 8), Word(msg, 10))
  }

  // ---------------------------------------------------------------------------------------------------------------
  // The walk as the program does it
  // ---------------------------------------------------------------------------------------------------------------

  /** `read_record`. */
  method ReadRecord(msg: seq<byte>, offset: nat) returns (r: Result<Walked<Record>, DnsError>)
    ensures r == RecordAt(msg, offset)
  {
    hide NameAt;
    var named := ReadName(msg, offset);
    if named.Err? {
      return Err(named.error);
    }
    var afterName := named.value.next;
    if afterName + 10 > |msg| {
      return Err(Truncated);
    }
    var rdlength := Word(msg, afterName + 8);
    var rdataStart := afterName + 10;
    if rdataStart + rdlength > |msg| {
      return Err(Truncated);
    }
    var record := Record(named.value.labels, Word(msg, afterName), Long(msg, afterName + 4),
                         msg[rdataStart..rdataStart + rdlength]);
    return Ok(Walked(record, rdataStart + rdlength));
  }

  /** The question loop of `parse_strict`. */
  method ReadQuestions(msg: seq<byte>, start: nat, qdcount: nat) returns (r: Result<Walked<seq<Question>>, DnsError>)
    ensures r == QuestionsAt(msg, start, qdcount)
  {
    hide NameAt, Word;
    var offset: nat := start;
    var questions: seq<Question> := [];
    var i := 0;
    QuestionsResume([], QuestionsAt(msg, start, qdcount));
    while i < qdcount
      invariant 0 <= i <= qdcount
      invariant QuestionsAt(msg, start, qdcount) == QuestionsAfter(questions, QuestionsAt(msg, offset, qdcount - i))
    {
      var named := ReadName(msg, offset);
      if named.Err? {
        return Err(named.error);
      }
      var next := named.value.next;
      if next + 4 > |msg| {
        return Err(Truncated);
      }
      var question := Question(named.value.labels, Word(msg, next), Word(msg, next + 2));
      assert QuestionAt(msg, offset) == Ok(Walked(question, next + 4));
      QuestionsShift(questions, question, QuestionsAt(msg, next + 4, qdcount - i - 1));
      questions := questions + [question];
      offset := next + 4;
      i := i + 1;
    }
    assert questions + [] == questions;
    return Ok(Walked(questions, offset));
  }

  ghost function QuestionsAfter(read: seq<Question>, rest: Result<Walked<seq<Question>>, DnsError>): Result<Walked<seq<Question>>, DnsError> {
    match rest
    case Err(e) => rest
    case Ok(rest) => Ok(Walked(read + rest.item, rest.next))
  }

  lemma QuestionsResume(read: seq<Question>, rest: Result<Walked<seq<Question>>, DnsError>)
    requires read == []
    ensures QuestionsAfter(read, rest) == rest
  {
    if rest.Ok? {
      assert read + rest.value.item == rest.value.item;
    }
  }

  lemma QuestionsShift(read: seq<Question>, q: Question, rest: Result<Walked<seq<Question>>, DnsError>)
    ensures QuestionsAfter(read, QuestionBefore(q, rest)) == QuestionsAfter(read + [q], rest)
  {
    if rest.Ok? {
      assert read + ([q] + rest.value.item) == (read + [q]) + rest.value.item;
    }
  }

  /** The answer loop of `parse_strict`: stop at the first record that does not parse and keep what came before. */
  method ReadAnswers(msg: seq<byte>, start: nat, ancount: nat) returns (answers: seq<Record>)
    ensures answers == AnswersAt(msg, start, ancount)
  {
    hide RecordAt;
    answers := [];
    var offset: nat := start;
    var j := 0;
    while j < ancount
      invariant 0 <= j <= ancount
      invariant AnswersAt(msg, start, ancount) == answers + AnswersAt(msg, offset, ancount - j)
    {
      var record := ReadRecord(msg, offset);
      if record.Err? {
        break;
      }
      ghost var before := answers;
      answers := answers + [record.value.item];
      offset := record.value.next;
      j := j + 1;
      ghost var rest := AnswersAt(msg, offset, ancount - j);
      assert before + ([record.value.item] + rest) == answers + rest;
    }
  }

  /** `parse_strict`. */
  method ParseStrict(msg: seq<byte>) returns (r: Result<Message, DnsError>)
    ensures r == Parse(msg)
  {
    hide Word;
    if |msg| < HEADER {
      return Err(Truncated);
    }
    var flags, qdcount, ancount := Word(msg, 2), Word(msg, 4), Word(msg, 6);
    var opcode := flags / 0x800 % 16;
    if opcode > 5 {
      return Err(Malformed);
    }
    if qdcount > MAX_QUESTIONS || ancount > MAX_ANSWERS {
      return Err(Malformed);
    }
    var questions := ReadQuestions(msg, HEADER, qdcount);
    if questions.Err? {
      return Err(questions.error);
    }
    var answers := ReadAnswers(msg, questions.value.next, ancount);
    return Ok(Assemble(msg, questions.value.item, answers));
  }

  /** Every question and record moves the walk forward and leaves it inside the message. */
  lemma WalkAdvances(msg: seq<byte>, offset: nat)
    ensures var q := QuestionAt(msg, offset); q.Ok? ==> offset + 5 <= q.value.next <= |msg|
    ensures var r := RecordAt(msg, offset); r.Ok? ==> offset + 11 + |r.value.item.rdata| <= r.value.next <= |msg|
  {
    if NameAt(msg, offset, MAX_JUMPS, 0).Ok? {
      NameBounds(msg, offset, MAX_JUMPS, 0);
    }
  }

  // ---------------------------------------------------------------------------------------------------------------
  // Encoding messages
  // ---------------------------------------------------------------------------------------------------------------

  function WordBytes(v: u16): seq<byte> {
    [v / 0x100, v % 0x100]
  }

  function LongBytes(v: u32): seq<byte> {
    WordBytes(v / 0x1_0000) + WordBytes(v % 0x1_0000)
  }

  /** A pointer to be written, and what is spelled where it points. */
  datatype Pointer = Pointer(target: nat, labels: Labels)

  /** An answer to be written: labels of its own, and then either the end of the name or a pointer to the rest of it. */
  datatype Answer = Answer(own: Labels, rest: Option<Pointer>, rtype: u16, cls: u16, ttl: u32, rdata: seq<byte>)

  ghost function NameOf(a: Answer): Labels {
    a.own + if a.rest.Some? then a.rest.value.labels else []
  }

  ghost predicate WritableName(labels: Labels) {
    Encodable(labels) && |labels| <= MAX_LABELS
  }

  ghost predicate WritableAnswer(a: Answer) {
    Encodable(a.own) && |NameOf(a)| <= 127 && (a.rest.Some? ==> a.rest.value.target < 0x4000) && |a.rdata| < 0x1_0000
  }

  /** Where the answer's name points, the bytes written so far spell the rest of it, with a pointer to spare. */
  ghost predicate Pointed(written: seq<byte>, a: Answer) {
    a.rest.Some? ==> exists used: nat :: used <= 15 && Spells(written, a.rest.value.target, a.rest.value.labels, used)
  }

  ghost predicate AllPointed(written: seq<byte>, rs: seq<Answer>)
    requires forall i :: 0 <= i < |rs| ==> WritableAnswer(rs[i])
    decreases |rs|
  {
    rs != [] ==> Pointed(written, rs[0]) && AllPointed(written + EncodeAnswer(rs[0]), rs[1..])
  }

  ghost function EncodeQuestion(q: Question): seq<byte>
    requires WritableName(q.name)
  {
    EncodeName(q.name) + (WordBytes(q.qtype) + WordBytes(q.qclass))
  }

  ghost function EncodeQuestions(qs: seq<Question>): seq<byte>
    requires forall i :: 0 <= i < |qs| ==> WritableName(qs[i].name)
  {
    if qs == [] then [] else EncodeQuestion(qs[0]) + EncodeQuestions(qs[1..])
  }

  ghost function AnswerName(a: Answer): seq<byte>
    requires WritableAnswer(a)
  {
    EncodeLabels(a.own) + if a.rest.Some? then PointerBytes(a.rest.value.target) else [0]
  }

  ghost function AnswerFixed(a: Answer): seq<byte>
    requires WritableAnswer(a)
  {
    WordBytes(a.rtype) + WordBytes(a.cls) + LongBytes(a.ttl) + WordBytes(|a.rdata|)
  }

  ghost function EncodeAnswer(a: Answer): seq<byte>
    requires WritableAnswer(a)
  {
    AnswerName(a) + (AnswerFixed(a) + a.rdata)
  }

  ghost function EncodeAnswers(rs: seq<Answer>): seq<byte>
    requires forall i :: 0 <= i < |rs| ==> WritableAnswer(rs[i])
  {
    if rs == [] then [] else EncodeAnswer(rs[0]) + EncodeAnswers(rs[1..])
  }

  ghost function Resolved(a: Answer): Record {
    Record(NameOf(a), a.rtype, a.ttl, a.rdata)
  }

  ghost function ResolvedAll(rs: seq<Answer>): seq<Record> {
    seq(|rs|, i requires 0 <= i < |rs| => Resolved(rs[i]))
  }

  lemma WordRead(msg: seq<byte>, at: nat, v: u16)
    requires Contains(msg, at, WordBytes(v))
    ensures Word(msg, at) == v
  {
    assert msg[at] == msg[at..at + 2][0] && msg[at + 1] == msg[at..at + 2][1];
  }

  lemma LongRead(msg: seq<byte>, at: nat, v: u32)
    requires Contains(msg, at, LongBytes(v))
    ensures Long(msg, at) == v
  {
    ContainsParts(msg, at, WordBytes(v / 0x1_0000), WordBytes(v % 0x1_0000));
    WordRead(msg, at, v / 0x1_0000);
    WordRead(msg, at + 2, v % 0x1_0000);
  }

  lemma QuestionRead(msg: seq<byte>, at: nat, q: Question)
    requires WritableName(q.name) && Contains(msg, at, EncodeQuestion(q))
    ensures QuestionAt(msg, at) == Ok(Walked(q, at + |EncodeQuestion(q)|))
  {
    var name := EncodeName(q.name);
    ContainsParts(msg, at, name, WordBytes(q.qtype) + WordBytes(q.qclass));
    ContainsParts(msg, at + |name|, WordBytes(q.qtype), WordBytes(q.qclass));
    NameRoundTrip(msg, at, q.name);
    WordRead(msg, at + |name|, q.qtype);
    WordRead(msg, at + |name| + 2, q.qclass);
  }

  lemma {:induction false} QuestionsRead(msg: seq<byte>, at: nat, qs: seq<Question>)
    requires forall i :: 0 <= i < |qs| ==> WritableName(qs[i].name)
    requires Contains(msg, at, EncodeQuestions(qs))
    ensures QuestionsAt(msg, at, |qs|) == Ok(Walked(qs, at + |EncodeQuestions(qs)|))
    decreases |qs|
  {
    hide Contains, QuestionAt, EncodeQuestion, WritableName;
    if qs != [] {
      ContainsParts(msg, at, EncodeQuestion(qs[0]), EncodeQuestions(qs[1..]));
      QuestionRead(msg, at, qs[0]);
      QuestionsRead(msg, at + |EncodeQuestion(qs[0])|, qs[1..]);
      assert qs == [qs[0]] + qs[1..];
    }
  }

  /** More bytes behind a name change nothing of what is spelled. */
  lemma {:induction false} SpelledInLonger(msg: seq<byte>, longer: seq<byte>, offset: nat, labels: Labels, used: nat)
    requires Spells(msg, offset, labels, used) && msg <= longer
    ensures Spells(longer, offset, labels, used) && offset < |msg|
    decreases used, |labels|
  {
    if offset < |msg| && msg[offset] == 0 && labels == [] && used == 0 {
    } else if labels != [] && LabelAt(msg, offset, labels[0]) && Spells(msg, offset + 1 + |labels[0]|, labels[1..], used) {
      SpelledInLonger(msg, longer, offset + 1 + |labels[0]|, labels[1..], used);
      assert LabelAt(longer, offset, labels[0]);
    } else {
      var target: nat :| PointerAt(msg, offset, target) && Spells(msg, target, labels, used - 1);
      SpelledInLonger(msg, longer, target, labels, used - 1);
      assert PointerAt(longer, offset, target);
    }
  }

  lemma PointerContained(msg: seq<byte>, at: nat, behind: nat, target: nat, labels: Labels, used: nat)
    requires at <= behind && at <= |msg| && target < 0x4000
    requires Contains(msg, behind, PointerBytes(target)) && Spells(msg[..at], target, labels, used)
    ensures PointerAt(msg, behind, target) && Spells(msg, target, labels, used)
  {
    SpelledInLonger(msg[..at], msg, target, labels, used);
  }

  /** An answer's name, own labels and the ones pointed to together, is read whole. */
  lemma AnswerNameRead(msg: seq<byte>, at: nat, a: Answer)
    requires WritableAnswer(a) && Contains(msg, at, AnswerName(a)) && Pointed(msg[..at], a)
    ensures NameAt(msg, at, MAX_JUMPS, 0) == Ok(Name(NameOf(a), at + |AnswerName(a)|))
  {
    hide NameAt, EncodeLabels, Spells, Contains;
    if a.rest.Some? {
      var p := a.rest.value;
      ContainsParts(msg, at, EncodeLabels(a.own), PointerBytes(p.target));
      AnswerBegins(msg, at, a);
      var used: nat :| used <= 15 && Spells(msg[..at], p.target, p.labels, used);
      PointerContained(msg, at, at + |EncodeLabels(a.own)|, p.target, p.labels, used);
      SpelledIsRead(msg, p.target, p.labels, used, MAX_JUMPS - 1, |a.own|);
      CompressedName(msg, at, a.own, p.target, MAX_JUMPS, 0);
    } else {
      assert EncodeLabels(a.own) + [0] == EncodeName(a.own) && a.own + [] == a.own;
      NameRoundTrip(msg, at, a.own);
    }
  }

  lemma AnswerRead(msg: seq<byte>, at: nat, a: Answer)
    requires WritableAnswer(a) && Contains(msg, at, EncodeAnswer(a)) && Pointed(msg[..at], a)
    ensures RecordAt(msg, at) == Ok(Walked(Resolved(a), at + |EncodeAnswer(a)|))
  {
    hide NameAt, Contains, AnswerName, AnswerFixed, WritableAnswer, Pointed, Word, Long;
    ContainsParts(msg, at, AnswerName(a), AnswerFixed(a) + a.rdata);
    AnswerNameRead(msg, at, a);
    FixedRead(msg, at + |AnswerName(a)|, a);
  }

  lemma FixedRead(msg: seq<byte>, next: nat, a: Answer)
    requires WritableAnswer(a) && Contains(msg, next, AnswerFixed(a) + a.rdata)
    ensures |AnswerFixed(a)| == 10 && next + 10 + |a.rdata| <= |msg|
    ensures Word(msg, next) == a.rtype && Long(msg, next + 4) == a.ttl && Word(msg, next + 8) == |a.rdata|
    ensures msg[next + 10..next + 10 + |a.rdata|] == a.rdata
  {
    ContainsParts(msg, next, AnswerFixed(a), a.rdata);
    var t, c, l, n := WordBytes(a.rtype), WordBytes(a.cls), LongBytes(a.ttl), WordBytes(|a.rdata|);
    ContainsParts(msg, next, t + c + l, n);
    ContainsParts(msg, next, t + c, l);
    ContainsParts(msg, next, t, c);
    WordRead(msg, next, a.rtype);
    LongRead(msg, next + 4, a.ttl);
    WordRead(msg, next + 8, |a.rdata|);
  }

  lemma WrittenSoFar(msg: seq<byte>, at: nat, part: seq<byte>)
    requires Contains(msg, at, part)
    ensures msg[..at + |part|] == msg[..at] + part
  {
  }

  lemma {:induction false} AnswersRead(msg: seq<byte>, at: nat, rs: seq<Answer>)
    requires at <= |msg| && forall i :: 0 <= i < |rs| ==> WritableAnswer(rs[i])
    requires AllPointed(msg[..at], rs) && Contains(msg, at, EncodeAnswers(rs))
    ensures AnswersAt(msg, at, |rs|) == ResolvedAll(rs)
    decreases |rs|
  {
    hide RecordAt, EncodeAnswer, WritableAnswer, Pointed, Resolved;
    if rs != [] {
      ContainsParts(msg, at, EncodeAnswer(rs[0]), EncodeAnswers(rs[1..]));
      AnswerRead(msg, at, rs[0]);
      WrittenSoFar(msg, at, EncodeAnswer(rs[0]));
      AnswersRead(msg, at + |EncodeAnswer(rs[0])|, rs[1..]);
      assert ResolvedAll(rs) == [Resolved(rs[0])] + ResolvedAll(rs[1..]);
    }
  }

  /** A message to be written. */
  datatype Draft = Draft(id: u16, flags: u16, questions: seq<Question>, answers: seq<Answer>, authority: u16, additional: u16)

  ghost predicate Plain(d: Draft) {
    && d.flags / 0x800 % 16 <= 5
    && |d.questions| <= 64 && |d.answers| <= 512
    && (forall i :: 0 <= i < |d.questions| ==> WritableName(d.questions[i].name))
    && (forall i :: 0 <= i < |d.answers| ==> WritableAnswer(d.answers[i]))
  }

  /** Every pointer of the message points to something spelled in front of its answer. */
  ghost predicate Writable(d: Draft) {
    Plain(d) && AllPointed(EncodeHeader(d) + EncodeQuestions(d.questions), d.answers)
  }

  ghost function EncodeHeader(d: Draft): (bytes: seq<byte>)
    requires Plain(d)
    ensures |bytes| == HEADER
  {
    WordBytes(d.id) + WordBytes(d.flags) + WordBytes(|d.questions|) + WordBytes(|d.answers|)
    + WordBytes(d.authority) + WordBytes(d.additional)
  }

  ghost function Encode(d: Draft): seq<byte>
    requires Writable(d)
  {
    EncodeHeader(d) + (EncodeQuestions(d.questions) + EncodeAnswers(d.answers))
  }

  ghost function Meant(d: Draft): Message {
    Message(d.id, d.flags / 0x8000 % 2 == 1, d.flags / 0x800 % 16, d.flags % 16, d.flags / 0x100 % 2 == 1, d.flags / 0x200 % 2 == 1,
            d.questions, ResolvedAll(d.answers), d.authority, d.additional)
  }

  lemma HeaderRead(msg: seq<byte>, d: Draft)
    requires Plain(d) && Contains(msg, 0, EncodeHeader(d))
    ensures |msg| >= HEADER
    ensures Word(msg, 0) == d.id && Word(msg, 2) == d.flags && Word(msg, 4) == |d.questions| && Word(msg, 6) == |d.answers|
    ensures Word(msg, 8) == d.authority && Word(msg, 10) == d.additional
  {
    var h := EncodeHeader(d);
    assert msg[..HEADER] == h;
    assert h[0..2] == WordBytes(d.id) && h[2..4] == WordBytes(d.flags) && h[4..6] == WordBytes(|d.questions|)
           && h[6..8] == WordBytes(|d.answers|) && h[8..10] == WordBytes(d.authority) && h[10..12] == WordBytes(d.additional);
    assert forall i :: 0 <= i < HEADER ==> msg[i] == h[i];
  }

  /** An encoded name needs no jump. */
  lemma NameReadWith(msg: seq<byte>, at: nat, labels: Labels, jumps: nat)
    requires WritableName(labels) && Contains(msg, at, EncodeName(labels))
    ensures NameAt(msg, at, jumps, 0) == Ok(Name(labels, at + |EncodeName(labels)|)) && at < |msg|
  {
    ContainsParts(msg, at, EncodeLabels(labels), [0]);
    var end := at + |EncodeLabels(labels)|;
    assert msg[end] == msg[end..end + 1][0] == 0;
    LabelsInFront(msg, at, labels, jumps, 0);
    assert labels + [] == labels;
  }

  /**
   Writing a message and reading it gives it back, whatever bytes follow it. Each answer's name may be compressed with a
   pointer to any name spelled in front of it: a question's, an earlier answer's, a tail of one, or one that is itself
   compressed.
   */
  lemma MessageRoundTrip(d: Draft, trailing: seq<byte>)
    requires Writable(d)
    ensures Parse(Encode(d) + trailing) == Ok(Meant(d))
  {
    hide Word, QuestionsAt, AnswersAt, Contains, Encode, EncodeQuestions, EncodeAnswers, EncodeHeader, ResolvedAll, AllPointed;
    var msg := Encode(d) + trailing;
    Layout(d, trailing);
    HeaderRead(msg, d);
    AnswersRead(msg, HEADER + |EncodeQuestions(d.questions)|, d.answers);
    QuestionsRead(msg, HEADER, d.questions);
  }

  lemma Layout(d: Draft, trailing: seq<byte>)
    requires Writable(d)
    ensures var msg, at := Encode(d) + trailing, HEADER + |EncodeQuestions(d.questions)|;
            && Contains(msg, 0, EncodeHeader(d))
            && Contains(msg, HEADER, EncodeQuestions(d.questions))
            && Contains(msg, at, EncodeAnswers(d.answers))
            && at <= |msg| && msg[..at] == EncodeHeader(d) + EncodeQuestions(d.questions)
  {
    hide EncodeHeader, EncodeQuestions, EncodeAnswers, AllPointed;
    var msg := Encode(d) + trailing;
    var q, a := EncodeQuestions(d.questions), EncodeAnswers(d.answers);
    assert Contains(msg, 0, EncodeHeader(d) + (q + a)) by {
      assert msg[0..|Encode(d)|] == Encode(d);
    }
    hide Encode;
    ContainsParts(msg, 0, EncodeHeader(d), q + a);
    ContainsParts(msg, HEADER, q, a);
    WrittenSoFar(msg, 0, EncodeHeader(d));
    WrittenSoFar(msg, HEADER, q);
    assert msg[..0] + EncodeHeader(d) == EncodeHeader(d);
  }

  // ---------------------------------------------------------------------------------------------------------------
  // What may be pointed to, and what is refused
  // ---------------------------------------------------------------------------------------------------------------

  lemma LabelSpelled(msg: seq<byte>, at: nat, first: seq<byte>, labels: Labels, used: nat)
    requires 1 <= |first| <= 63 && Contains(msg, at, [|first|] + first) && labels != [] && labels[0] == first
    requires Spells(msg, at + 1 + |first|, labels[1..], used)
    ensures Spells(msg, at, labels, used)
  {
    hide PointerAt;
    var head := [|first|] + first;
    assert msg[at] == msg[at..at + |head|][0] && msg[at + 1..at + |head|] == msg[at..at + |head|][1..];
    assert LabelAt(msg, at, first);
  }

  /** Encoded labels and something spelled behind them are spelled together. */
  lemma {:induction false} LabelsSpelled(msg: seq<byte>, at: nat, own: Labels, rest: Labels, used: nat)
    requires Encodable(own) && Contains(msg, at, EncodeLabels(own)) && Spells(msg, at + |EncodeLabels(own)|, rest, used)
    ensures Spells(msg, at, own + rest, used)
    decreases |own|
  {
    hide Spells, Contains;
    if own == [] {
      assert own + rest == rest;
    } else {
      var first, others, head := own[0], own[1..], [|own[0]|] + own[0];
      assert EncodeLabels(own) == head + EncodeLabels(others);
      ContainsParts(msg, at, head, EncodeLabels(others));
      LabelsSpelled(msg, at + |head|, others, rest, used);
      assert (own + rest)[0] == first && (own + rest)[1..] == others + rest;
      LabelSpelled(msg, at, first, own + rest, used);
    }
  }

  /** The end of a written name: nothing more, or what its pointer leads to. */
  lemma EndSpelled(msg: seq<byte>, at: nat, behind: nat, a: Answer, used: nat)
    requires WritableAnswer(a) && at <= behind && at <= |msg|
    requires Contains(msg, behind, if a.rest.Some? then PointerBytes(a.rest.value.target) else [0])
    requires a.rest.Some? ==> used > 0 && Spells(msg[..at], a.rest.value.target, a.rest.value.labels, used - 1)
    requires a.rest.None? ==> used == 0
    ensures Spells(msg, behind, if a.rest.Some? then a.rest.value.labels else [], used)
  {
    if a.rest.Some? {
      PointerContained(msg, at, behind, a.rest.value.target, a.rest.value.labels, used - 1);
    } else {
      assert msg[behind] == msg[behind..behind + 1][0] == 0;
    }
  }

  /** Every name of a written answer, and every tail of one, may be pointed to from then on, with one pointer more. */
  lemma NamesMayBePointedTo(msg: seq<byte>, at: nat, a: Answer, used: nat, k: nat)
    requires WritableAnswer(a) && Contains(msg, at, AnswerName(a)) && k <= |a.own|
    requires a.rest.Some? ==> used > 0 && Spells(msg[..at], a.rest.value.target, a.rest.value.labels, used - 1)
    requires a.rest.None? ==> used == 0
    ensures |EncodeLabels(a.own[..k])| <= |AnswerName(a)|
    ensures Spells(msg, at + |EncodeLabels(a.own[..k])|, NameOf(a)[k..], used)
  {
    hide EncodeLabels, Contains, Spells, AnswerName, PointerBytes;
    var tail, end := a.own[k..], if a.rest.Some? then PointerBytes(a.rest.value.target) else [0];
    var skipped := EncodeLabels(a.own[..k]);
    NameAfterLabels(a, k);
    ContainsParts(msg, at, skipped, EncodeLabels(tail) + end);
    ContainsParts(msg, at + |skipped|, EncodeLabels(tail), end);
    AnswerBegins(msg, at, a);
    EndSpelled(msg, at, at + |skipped| + |EncodeLabels(tail)|, a, used);
    var rest := if a.rest.Some? then a.rest.value.labels else [];
    LabelsSpelled(msg, at + |skipped|, tail, rest, used);
  }

  lemma NameAfterLabels(a: Answer, k: nat)
    requires WritableAnswer(a) && k <= |a.own|
    ensures var end := if a.rest.Some? then PointerBytes(a.rest.value.target) else [0];
            AnswerName(a) == EncodeLabels(a.own[..k]) + (EncodeLabels(a.own[k..]) + end)
    ensures NameOf(a)[k..] == a.own[k..] + if a.rest.Some? then a.rest.value.labels else []
  {
    LabelsSplit(a.own, k);
    hide EncodeLabels;
  }

  lemma AnswerBegins(msg: seq<byte>, at: nat, a: Answer)
    requires WritableAnswer(a) && Contains(msg, at, AnswerName(a))
    ensures at <= |msg|
  {
  }

  lemma {:induction false} LabelsSplit(labels: Labels, k: nat)
    requires Encodable(labels) && k <= |labels|
    ensures EncodeLabels(labels) == EncodeLabels(labels[..k]) + EncodeLabels(labels[k..])
    decreases k
  {
    if k == 0 {
      assert labels[..0] == [] && labels[0..] == labels;
    } else {
      LabelsSplit(labels[1..], k - 1);
      assert labels[..k][1..] == labels[1..][..k - 1] && labels[1..][k - 1..] == labels[k..];
    }
  }

  /** A reserved operation, more than 64 questions or more than 512 answers announced: refused, as is a short header. */
  lemma HeaderRefused(msg: seq<byte>)
    ensures |msg| < 12 ==> Parse(msg) == Err(Truncated)
    ensures |msg| >= 12 && (Word(msg, 2) / 0x800 % 16 > 5 || Word(msg, 4) > 64 || Word(msg, 6) > 512) ==>
              Parse(msg) == Err(Malformed)
  {
    hide Word;
  }
}
