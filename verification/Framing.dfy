/** Which bytes make up a whole application message, and what every shorter or longer payload decodes to. */
module Framing {
  import opened Wrappers
  import opened Words
  import opened Apps
  import DnsMessages

  // ---------------------------------------------------------------------------------------------------------------
  // HTTP
  // ---------------------------------------------------------------------------------------------------------------

  /** How a first line may begin: a status line, or a method and a space. */
  function Starts(): seq<seq<byte>> {
    [Ascii("HTTP/"), Ascii("GET "), Ascii("POST "), Ascii("HEAD "), Ascii("PUT "),
     Ascii("DELETE "), Ascii("OPTIONS "), Ascii("PATCH "), Ascii("TRACE "), Ascii("CONNECT ")]
  }

  function EmptyLines(n: nat): seq<byte> {
    if n == 0 then [] else [13, 10] + EmptyLines(n - 1)
  }

  /** Any number of empty lines, then a start. */
  ghost predicate Started(head: seq<byte>) {
    exists lines: nat, k, rest :: 0 <= k < |Starts()| && head == EmptyLines(lines) + (Starts()[k] + rest)
  }

  lemma {:induction false} Skipped(head: seq<byte>) returns (lines: nat)
    ensures head == EmptyLines(lines) + SkipEmptyLines(head) && !StartsWith(SkipEmptyLines(head), CRLF)
    decreases |head|
  {
    if StartsWith(head, CRLF) {
      var fewer := Skipped(head[2..]);
      lines := fewer + 1;
      assert head == CRLF + head[2..];
    } else {
      lines := 0;
    }
  }

  lemma {:induction false} SkipsAll(lines: nat, line: seq<byte>)
    requires !StartsWith(line, CRLF)
    ensures SkipEmptyLines(EmptyLines(lines) + line) == line
  {
    if lines == 0 {
      assert [] + line == line;
    } else {
      SkipsAll(lines - 1, line);
      var head := EmptyLines(lines) + line;
      assert head == CRLF + (EmptyLines(lines - 1) + line);
      assert head[..2] == CRLF && head[2..] == EmptyLines(lines - 1) + line;
    }
  }

  lemma KnownIsListed(head: seq<byte>)
    ensures KnownStart(head) <==> exists k :: 0 <= k < |Starts()| && StartsWith(SkipEmptyLines(head), Starts()[k])
  {
    hide SkipEmptyLines, StartsWith;
    var starts := Starts();
    assert starts[0] == Ascii("HTTP/") && starts[1] == Ascii("GET ") && starts[2] == Ascii("POST ") && starts[3] == Ascii("HEAD ");
    assert starts[4] == Ascii("PUT ") && starts[5] == Ascii("DELETE ") && starts[6] == Ascii("OPTIONS ");
    assert starts[7] == Ascii("PATCH ") && starts[8] == Ascii("TRACE ") && starts[9] == Ascii("CONNECT ");
  }

  /** The program's test of the first line is that the head is started. */
  lemma StartsAreKnown(head: seq<byte>)
    ensures KnownStart(head) <==> Started(head)
  {
    hide KnownStart, SkipEmptyLines, EmptyLines, Ascii;
    KnownIsListed(head);
    if k :| 0 <= k < |Starts()| && StartsWith(SkipEmptyLines(head), Starts()[k]) {
      var line := SkipEmptyLines(head);
      var lines := Skipped(head);
      assert line == Starts()[k] + line[|Starts()[k]|..];
    }
    if Started(head) {
      var lines: nat, k, rest :| 0 <= k < |Starts()| && head == EmptyLines(lines) + (Starts()[k] + rest);
      assert Starts()[k][0] != 13;
      StartsOtherwise(Starts()[k] + rest, CRLF);
      SkipsAll(lines, Starts()[k] + rest);
    }
  }

  predicate Blank(text: seq<byte>, at: nat) {
    at + 4 <= |text| && text[at] == 13 && text[at + 1] == 10 && text[at + 2] == 13 && text[at + 3] == 10
  }

  /** The first blank line ends at `end`. */
  predicate BlankEnds(text: seq<byte>, end: nat) {
    && 4 <= end && Blank(text, end - 4)
    && forall at: nat :: at < end - 4 ==> !Blank(text, at)
  }

  /** A request or response head that is whole at `end`: all within 16 KiB, a known start, and well formed. */
  ghost predicate WholeHttp(text: seq<byte>, end: nat, wellFormed: seq<byte> -> bool) {
    end <= 16384 && BlankEnds(text, end) && Started(text[..end - 2]) && wellFormed(text[..end - 2])
  }

  lemma BlankIsBlank(text: seq<byte>, at: nat)
    ensures BlankLineAt(text, at) <==> Blank(text, at)
  {
    if at + 4 <= |text| {
      var four := text[at..at + 4];
      assert four[0] == text[at] && four[1] == text[at + 1] && four[2] == text[at + 2] && four[3] == text[at + 3];
    }
  }

  /** The blank line of a prefix is that of the text, if it is in the prefix. */
  lemma BlankInPrefix(text: seq<byte>, n: nat, end: nat)
    requires n <= |text|
    ensures BlankEnds(text[..n], end) <==> BlankEnds(text, end) && end <= n
  {
    if BlankEnds(text[..n], end) {
      forall at: nat | at < end - 4 ensures !Blank(text, at) {
        assert !Blank(text[..n], at);
      }
    } else if BlankEnds(text, end) && end <= n {
      forall at: nat | at < end - 4 ensures !Blank(text[..n], at) {
        assert !Blank(text, at);
      }
    }
  }

  lemma HeaderBlockIs(payload: seq<byte>)
    ensures forall end :: BlankEnds(payload, end) && end <= 16384 ==> HeaderBlock(payload) == HttpMessage(payload[..end - 2], true)
    ensures HeaderBlock(payload).complete ==> exists end :: BlankEnds(payload, end) && end <= 16384
  {
    var hay := payload[..Min(|payload|, HEADER_LIMIT)];
    forall at: nat ensures BlankLineAt(hay, at) <==> Blank(hay, at) {
      BlankIsBlank(hay, at);
    }
    hide BlankLineAt, Blank;
    forall end | BlankEnds(payload, end) && end <= 16384 ensures HeaderBlock(payload) == HttpMessage(payload[..end - 2], true) {
      BlankInPrefix(payload, |hay|, end);
      assert FirstBlankLine(hay, 0) == Some(end - 4);
    }
    if HeaderBlock(payload).complete {
      var end := FirstBlankLine(hay, 0).value + 4;
      assert BlankEnds(hay, end);
      BlankInPrefix(payload, |hay|, end);
    }
  }

  /** A payload decodes to a whole HTTP message exactly when its head is whole somewhere, and then to that head. */
  lemma HttpWholeExactly(payload: seq<byte>, wellFormed: seq<byte> -> bool)
    ensures HttpParse(payload, wellFormed).Some? && HttpParse(payload, wellFormed).value.complete
            <==> exists end :: WholeHttp(payload, end, wellFormed)
    ensures forall end :: WholeHttp(payload, end, wellFormed) ==>
              HttpParse(payload, wellFormed) == Some(HttpMessage(payload[..end - 2], true))
  {
    hide BlankEnds, HeaderBlock, KnownStart, Started;
    HeaderBlockIs(payload);
    StartsAreKnown(HeaderBlock(payload).head);
    if HttpParse(payload, wellFormed).Some? && HttpParse(payload, wellFormed).value.complete {
      var end :| BlankEnds(payload, end) && end <= 16384;
      assert WholeHttp(payload, end, wellFormed);
    }
  }

  /** The bytes a head without its blank line is read from: no more than 16 KiB. */
  function Front(payload: seq<byte>): seq<byte> {
    if |payload| <= 16384 then payload else payload[..16384]
  }

  /** A payload decodes to part of an HTTP message exactly when its front is started, well formed, and has no blank line. */
  lemma HttpPartExactly(payload: seq<byte>, wellFormed: seq<byte> -> bool)
    ensures HttpParse(payload, wellFormed) == Some(HttpMessage(Front(payload), false))
            <==> (forall at: nat :: !Blank(Front(payload), at)) && Started(Front(payload)) && wellFormed(Front(payload))
    ensures HttpParse(payload, wellFormed).Some? && !HttpParse(payload, wellFormed).value.complete ==>
              HttpParse(payload, wellFormed).value.head == Front(payload)
  {
    hide KnownStart, Started, BlankLineAt, Blank;
    assert Front(payload) == payload[..Min(|payload|, HEADER_LIMIT)];
    forall at: nat ensures BlankLineAt(Front(payload), at) <==> Blank(Front(payload), at) {
      BlankIsBlank(Front(payload), at);
    }
    forall at: nat ensures Blank(Front(payload), at) ==> at + 4 <= |Front(payload)| {
      BlankIsInside(Front(payload), at);
    }
    StartsAreKnown(Front(payload));
  }

  lemma BlankIsInside(text: seq<byte>, at: nat)
    ensures Blank(text, at) ==> at + 4 <= |text|
  {
  }

  // ---------------------------------------------------------------------------------------------------------------
  // TLS
  // ---------------------------------------------------------------------------------------------------------------

  function Word(n: nat): seq<byte>
    requires n < 0x1_0000
  {
    [n / 256, n % 256]
  }

  /** What a client lists and a server picks, between the session id and the extensions. */
  datatype Choice = Offered(ciphers: seq<byte>, compression: seq<byte>) | Picked(cipher: u16, compressor: byte)

  /** A hello as it is sent. `opening` is the length, the version and the random bytes; `extensions` is all that follows. */
  datatype Hello = Hello(opening: seq<byte>, session: seq<byte>, choice: Choice, extensions: seq<byte>)

  predicate Listable(c: Choice) {
    c.Offered? ==> |c.ciphers| < 0x1_0000 && |c.compression| < 256
  }

  predicate Sendable(h: Hello) {
    && |h.opening| == 37 && |h.session| < 256 && Listable(h.choice)
    && |Fixed(h)| + |h.extensions| < 0x1_0000
  }

  function Listed(c: Choice): seq<byte>
    requires Listable(c)
  {
    match c
    case Offered(ciphers, compression) => Word(|ciphers|) + ciphers + [|compression|] + compression
    case Picked(cipher, compressor) => Word(cipher) + [compressor]
  }

  /** Everything in front of the extensions. */
  function Fixed(h: Hello): seq<byte>
    requires |h.session| < 256 && Listable(h.choice)
  {
    [if h.choice.Offered? then 1 else 2] + h.opening + [|h.session|] + h.session + Listed(h.choice)
  }

  /** The record that carries a hello. */
  function Record(version: u16, h: Hello): (bytes: seq<byte>)
    requires Sendable(h)
  {
    [22] + Word(version) + Word(|Fixed(h) + h.extensions|) + (Fixed(h) + h.extensions)
  }

  lemma FixedAt(h: Hello)
    requires Sendable(h)
    ensures var f, s := Fixed(h), 39 + |h.session|;
            && |f| == s + |Listed(h.choice)| && f[0] == (if h.choice.Offered? then 1 else 2)
            && f[38] == |h.session| && f[s..] == Listed(h.choice)
  {
  }

  /** The first `n` bytes of a hello have the shape the program asks for exactly when all of the fixed part is there. */
  lemma ShapeOfPrefix(h: Hello, n: nat)
    requires Sendable(h) && n <= |Fixed(h) + h.extensions|
    ensures HelloShape((Fixed(h) + h.extensions)[..n]) <==> n >= |Fixed(h)|
  {
    var msg, s := Fixed(h) + h.extensions, 39 + |h.session|;
    FixedAt(h);
    forall i | 0 <= i < |Listed(h.choice)| ensures msg[s + i] == Listed(h.choice)[i] {
      assert Fixed(h)[s..][i] == Fixed(h)[s + i];
    }
    match h.choice
    case Offered(ciphers, compression) =>
      var list := Listed(h.choice);
      assert list[0] == |ciphers| / 256 && list[1] == |ciphers| % 256 && list[2 + |ciphers|] == |compression|;
      assert msg[s] == list[0] && msg[s + 1] == list[1];
      assert msg[s + 2 + |ciphers|] == |compression|;
    case Picked(cipher, compressor) =>
  }

  lemma RecordAt(version: u16, h: Hello, tail: seq<byte>)
    requires Sendable(h)
    ensures var text, msg := Record(version, h) + tail, Fixed(h) + h.extensions;
            text[..5] == [22] + Word(version) + Word(|msg|) && text[5..] == msg + tail
  {
    hide Fixed;
    var msg := Fixed(h) + h.extensions;
    var head := [22] + Word(version) + Word(|msg|);
    assert Record(version, h) + tail == head + (msg + tail);
  }

  /**
   Every cut of a record that carries a hello: nothing is decoded before the fixed part is there, then the part of the
   hello that is, and it is complete exactly when all of the record is there, whatever follows.
   */
  lemma HelloCuts(version: u16, h: Hello, tail: seq<byte>, n: nat)
    requires Sendable(h) && n <= |Record(version, h) + tail|
    ensures TlsParse((Record(version, h) + tail)[..n]) ==
            if n < 5 + |Fixed(h)| then None
            else Some(TlsHello(version, (Fixed(h) + h.extensions)[..Min(n - 5, |Fixed(h) + h.extensions|)], n >= |Record(version, h)|))
  {
    hide HelloShape, Fixed, Record;
    var msg, text := Fixed(h) + h.extensions, Record(version, h) + tail;
    RecordAt(version, h, tail);
    if n >= 5 {
      var head := text[..5];
      assert head[0] == 22 && head[1] == version / 256 && head[2] == version % 256;
      assert head[3] == |msg| / 256 && head[4] == |msg| % 256;
      var cut := text[..n];
      assert cut[0] == head[0] && cut[1] == head[1] && cut[2] == head[2] && cut[3] == head[3] && cut[4] == head[4];
      var have := Min(n - 5, |msg|);
      assert cut[5..5 + have] == text[5..][..have] == msg[..have];
      ShapeOfPrefix(h, have);
    }
  }

  lemma Joined(s: seq<byte>, a: nat, b: nat, c: nat)
    requires a <= b <= c <= |s|
    ensures s[a..b] + s[b..c] == s[a..c]
  {
  }

  /** The list part of a hello, read back. */
  lemma ReadChoice(rec: seq<byte>) returns (choice: Choice, end: nat)
    requires HelloShape(rec)
    ensures Listable(choice) && 39 + (rec[38] as int) <= end <= |rec| && Listed(choice) == rec[39 + (rec[38] as int)..end]
    ensures choice.Offered? <==> rec[0] == 1
  {
    var s := 39 + (rec[38] as int);
    if rec[0] == CLIENT_HELLO {
      var c := s + 2 + Be16(rec[s], rec[s + 1]);
      end := c + 1 + rec[c];
      choice := Offered(rec[s + 2..c], rec[c + 1..end]);
      assert Word(|rec[s + 2..c]|) == rec[s..s + 2];
      Joined(rec, s, s + 2, c);
      assert [rec[c]] == rec[c..c + 1];
      Joined(rec, s, c, c + 1);
      Joined(rec, s, c + 1, end);
    } else {
      end := s + 3;
      choice := Picked(Be16(rec[s], rec[s + 1]), rec[s + 2]);
    }
  }

  lemma ReadHello(rec: seq<byte>, missing: seq<byte>) returns (h: Hello)
    requires HelloShape(rec) && |rec + missing| < 0x1_0000
    ensures Sendable(h) && Fixed(h) + h.extensions == rec + missing && |Fixed(h)| <= |rec|
  {
    var choice, end := ReadChoice(rec);
    hide Listed;
    var s := 39 + (rec[38] as int);
    h := Hello(rec[1..38], rec[39..s], choice, rec[end..] + missing);
    assert Fixed(h) == rec[..end] by {
      assert [if choice.Offered? then 1 else 2] == rec[0..1] && [|h.session|] == rec[38..39];
      Joined(rec, 0, 1, 38);
      Joined(rec, 0, 38, 39);
      Joined(rec, 0, 39, s);
      Joined(rec, 0, s, end);
    }
    assert rec == rec[..end] + rec[end..];
  }

  lemma RecordOfParts(p: seq<byte>, h: Hello, missing: seq<byte>, behind: seq<byte>)
    requires |p| >= 5 && p[0] == 22 && Sendable(h) && |Fixed(h) + h.extensions| == Be16(p[3], p[4])
    requires p[5..] + missing == Fixed(h) + h.extensions + behind
    ensures Record(Be16(p[1], p[2]), h) + behind == p + missing
  {
    hide Fixed;
    RecordAt(Be16(p[1], p[2]), h, behind);
    assert p[..5] == [22] + Word(Be16(p[1], p[2])) + Word(Be16(p[3], p[4]));
    var text := Record(Be16(p[1], p[2]), h) + behind;
    assert text == text[..5] + text[5..];
    assert p + missing == p[..5] + (p[5..] + missing);
  }

  lemma OneEmpty(rec: seq<byte>, tail: seq<byte>, missing: seq<byte>)
    requires tail == [] || missing == []
    ensures rec + tail + missing == rec + missing + tail
  {
    if tail == [] {
      assert rec + tail == rec && rec + missing + tail == rec + missing;
    } else {
      assert rec + missing == rec && rec + tail + missing == rec + tail;
    }
  }

  /** A payload that decodes as a hello is the front of some record that carries one, with something behind it. */
  lemma OnlyHellos(p: seq<byte>) returns (h: Hello, tail: seq<byte>)
    requires TlsParse(p).Some?
    ensures Sendable(h)
    ensures var text := Record(TlsParse(p).value.recordVersion, h) + tail;
            5 + |Fixed(h)| <= |p| <= |text| && p == text[..|p|]
  {
    var declared, remaining := Be16(p[3], p[4]), |p| - 5;
    var end := 5 + Min(declared, remaining);
    var rec := p[5..end];
    var missing: seq<byte> := seq(declared - |rec|, _ => 0);
    h := ReadHello(rec, missing);
    hide Fixed, HelloShape, Record;
    tail := p[end..];
    Joined(p, 5, end, |p|);
    OneEmpty(rec, tail, missing);
    RecordOfParts(p, h, missing, tail);
  }

  // ---------------------------------------------------------------------------------------------------------------
  // Which decoder answers
  // ---------------------------------------------------------------------------------------------------------------

  /** Over TCP, a message behind its own length. */
  ghost predicate Framed(payload: seq<byte>, tcp: bool) {
    tcp && exists rest: seq<byte> :: 0 < |rest| < 0x1_0000 && payload == Word(|rest|) + rest
  }

  lemma FramedMeans(payload: seq<byte>, tcp: bool)
    ensures Framed(payload, tcp) <==> tcp && |payload| > 2 && Be16(payload[0], payload[1]) == |payload| - 2
    ensures Framed(payload, tcp) ==> payload == Word(|payload| - 2) + payload[2..]
  {
    if tcp && |payload| > 2 && Be16(payload[0], payload[1]) == |payload| - 2 {
      assert payload == Word(|payload[2..]|) + payload[2..];
    }
  }

  /** DNS is decoded on ports 53, 5353 and 5355 of either end: a framed message first, then the payload as it is. */
  lemma DnsExactly(ports: Ports, payload: seq<byte>, tcp: bool, wellFormed: seq<byte> -> bool)
    ensures Framed(payload, tcp) ==> |payload| > 2
    ensures var app, framed := AppFromPayload(ports, payload, tcp, wellFormed),
                               Framed(payload, tcp) && DnsMessages.Parse(payload[2..]).Ok?;
            && (app.Dns? <==> payload != [] && (ports.src in {53, 5353, 5355} || ports.dst in {53, 5353, 5355})
                              && (framed || DnsMessages.Parse(payload).Ok?))
            && (app.Dns? ==> app.message == if framed then DnsMessages.Parse(payload[2..]).value else DnsMessages.Parse(payload).value)
  {
    FramedMeans(payload, tcp);
    hide DnsMessages.Parse, TlsParse, HttpParse, Framed;
  }

  /** Whatever is not DNS: nothing over UDP; over TCP a hello first, and an HTTP message otherwise. */
  lemma OthersInOrder(ports: Ports, payload: seq<byte>, tcp: bool, wellFormed: seq<byte> -> bool)
    requires !AppFromPayload(ports, payload, tcp, wellFormed).Dns?
    ensures var app := AppFromPayload(ports, payload, tcp, wellFormed);
            if tcp && TlsParse(payload).Some? then app == Tls(TlsParse(payload).value)
            else if tcp && HttpParse(payload, wellFormed).Some? then app == Http(HttpParse(payload, wellFormed).value)
            else app == NoApp
  {
    hide DnsFrom, HelloShape;
    if payload == [] {
      assert !HttpParse([], wellFormed).Some? by {
        NoStartIsNotHttp([], wellFormed);
      }
    }
  }

  /** A record with a hello at the front. */
  ghost predicate BeginsHello(payload: seq<byte>) {
    exists version, h, tail :: Sendable(h) && payload == Record(version, h) + tail
  }

  /**
   Off the DNS ports a TCP payload decodes to a whole message exactly when it begins with a record that carries a hello,
   or with a well-formed HTTP head of at most 16 KiB and its blank line.
   */
  lemma WholeExactly(ports: Ports, payload: seq<byte>, wellFormed: seq<byte> -> bool)
    requires !DnsPorts(ports)
    ensures IsComplete(AppFromPayload(ports, payload, true, wellFormed))
            <==> BeginsHello(payload) || exists end :: WholeHttp(payload, end, wellFormed)
  {
    hide WholeHttp, Sendable, Record, HttpParse, TlsParse;
    OthersInOrder(ports, payload, true, wellFormed);
    HttpWholeExactly(payload, wellFormed);
    if TlsParse(payload).Some? {
      TlsWholeExactly(payload);
      HelloIsNotHttp(payload, wellFormed);
    } else if BeginsHello(payload) {
      var version, h, tail :| Sendable(h) && payload == Record(version, h) + tail;
      RecordIsHello(version, h, tail);
    }
  }

  lemma HelloIsNotHttp(payload: seq<byte>, wellFormed: seq<byte> -> bool)
    requires TlsParse(payload).Some?
    ensures HttpParse(payload, wellFormed).None?
  {
    HandshakeIsNotHttp(payload, wellFormed);
  }

  lemma RecordIsHello(version: u16, h: Hello, tail: seq<byte>)
    requires Sendable(h)
    ensures TlsParse(Record(version, h) + tail) == Some(TlsHello(version, Fixed(h) + h.extensions, true))
  {
    hide TlsParse;
    var text := Record(version, h) + tail;
    HelloCuts(version, h, tail, |text|);
    assert text[..|text|] == text && (Fixed(h) + h.extensions)[..|Fixed(h) + h.extensions|] == Fixed(h) + h.extensions;
  }

  lemma TlsWholeExactly(payload: seq<byte>)
    requires TlsParse(payload).Some?
    ensures TlsParse(payload).value.complete <==> BeginsHello(payload)
  {
    hide TlsParse, Record;
    var h, tail := OnlyHellos(payload);
    var version := TlsParse(payload).value.recordVersion;
    HelloCuts(version, h, tail, |payload|);
    if |payload| >= |Record(version, h)| {
      assert payload == Record(version, h) + tail[..|payload| - |Record(version, h)|];
    } else if BeginsHello(payload) {
      var version', h', tail' :| Sendable(h') && payload == Record(version', h') + tail';
      RecordIsHello(version', h', tail');
    }
  }

  // ---------------------------------------------------------------------------------------------------------------
  // From where on a text is whole
  // ---------------------------------------------------------------------------------------------------------------

  /** A prefix of a text with an HTTP head at the front is a whole message from the end of the blank line on. */
  lemma HttpPrefixes(ports: Ports, text: seq<byte>, end: nat, wellFormed: seq<byte> -> bool, n: nat)
    requires !DnsPorts(ports) && WholeHttp(text, end, wellFormed) && n <= |text|
    ensures IsComplete(AppFromPayload(ports, text[..n], true, wellFormed)) <==> n >= end
    ensures n >= end ==> AppFromPayload(ports, text[..n], true, wellFormed) == Http(HttpMessage(text[..end - 2], true))
  {
    var p := text[..n];
    OthersInOrder(ports, p, true, wellFormed);
    HttpWholeExactly(p, wellFormed);
    HttpWholeExactly(text, wellFormed);
    BlankInPrefix(text, n, end);
    hide HttpParse, Started, BlankEnds, TlsParse;
    assert |text| > 0 && text[0] != CONTENT_TYPE_HANDSHAKE by {
      if |text| > 0 && text[0] == CONTENT_TYPE_HANDSHAKE {
        HandshakeIsNotHttp(text, wellFormed);
      }
      BlankNeedsBytes(text, end);
    }
    NotHandshake(p);
    if n >= end {
      assert p[..end - 2] == text[..end - 2];
      assert WholeHttp(p, end, wellFormed);
    } else if end' :| WholeHttp(p, end', wellFormed) {
      BlankInPrefix(text, n, end');
      OneBlank(text, end, end');
    }
  }

  lemma NotHandshake(p: seq<byte>)
    requires p != [] ==> p[0] != CONTENT_TYPE_HANDSHAKE
    ensures TlsParse(p).None?
  {
  }

  lemma BlankNeedsBytes(text: seq<byte>, end: nat)
    requires BlankEnds(text, end)
    ensures 4 <= end <= |text|
  {
  }

  lemma OneBlank(text: seq<byte>, a: nat, b: nat)
    requires BlankEnds(text, a) && BlankEnds(text, b)
    ensures a == b
  {
  }

  /** A prefix of a text with a hello's record at the front is a whole message from the end of the record on. */
  lemma HelloPrefixes(ports: Ports, version: u16, h: Hello, tail: seq<byte>, wellFormed: seq<byte> -> bool, n: nat)
    requires !DnsPorts(ports) && Sendable(h) && n <= |Record(version, h) + tail|
    ensures var app := AppFromPayload(ports, (Record(version, h) + tail)[..n], true, wellFormed);
            && (IsComplete(app) <==> n >= |Record(version, h)|)
            && (n >= |Record(version, h)| ==> app == Tls(TlsHello(version, Fixed(h) + h.extensions, true)))
  {
    var text := Record(version, h) + tail;
    assert text[0] == 22;
    hide Record, Fixed, TlsParse, HttpParse;
    HelloCuts(version, h, tail, n);
    OthersInOrder(ports, text[..n], true, wellFormed);
    if n > 0 {
      HandshakeIsNotHttp(text[..n], wellFormed);
    } else {
      NoStartIsNotHttp(text[..0], wellFormed);
    }
    RecordLength(version, h);
  }

  lemma RecordLength(version: u16, h: Hello)
    requires Sendable(h)
    ensures |Record(version, h)| == 5 + |Fixed(h) + h.extensions|
    ensures (Fixed(h) + h.extensions)[..|Fixed(h) + h.extensions|] == Fixed(h) + h.extensions
  {
  }
}
