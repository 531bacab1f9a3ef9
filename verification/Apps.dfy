/**
 The application decoders as far as framing goes: which bytes of a payload make up a message, and whether the message
 is all there. A message is modelled by the bytes its fields are read from.
 */
module Apps {
  import opened Wrappers
  import opened Words
  import Dns
  import DnsMessages

  const HEADER_LIMIT: nat := 16 * 1024
  const CONTENT_TYPE_HANDSHAKE: byte := 22
  const CLIENT_HELLO: byte := 1
  const SERVER_HELLO: byte := 2

  const CRLF: seq<byte> := [13, 10]
  const BLANK_LINE: seq<byte> := [13, 10, 13, 10]

  // ---------------------------------------------------------------------------------------------------------------
  // HTTP
  // ---------------------------------------------------------------------------------------------------------------

  /** The header block, up to the first blank line or the end of what is there, and whether the blank line was seen. */
  datatype HttpMessage = HttpMessage(head: seq<byte>, complete: bool)

  predicate BlankLineAt(hay: seq<byte>, at: nat) {
    at + 4 <= |hay| && hay[at..at + 4] == BLANK_LINE
  }

  /** `windows(4).position(..)`. */
  function FirstBlankLine(hay: seq<byte>, from: nat): (r: Option<nat>)
    ensures r.Some? ==> from <= r.value && BlankLineAt(hay, r.value) && forall at :: from <= at < r.value ==> !BlankLineAt(hay, at)
    ensures r.None? ==> forall at :: from <= at ==> !BlankLineAt(hay, at)
    decreases |hay| - from
  {
    if from + 4 > |hay| then None
    else if BlankLineAt(hay, from) then Some(from)
    else FirstBlankLine(hay, from + 1)
  }

  /** `find_header_end` applied to a payload: the header block it delimits. */
  function HeaderBlock(payload: seq<byte>): HttpMessage {
    var hay := payload[..Min(|payload|, HEADER_LIMIT)];
    match FirstBlankLine(hay, 0)
    case Some(at) => HttpMessage(payload[..at + 2], true)
    case None => HttpMessage(hay, false)
  }

  function Ascii(text: string): (bytes: seq<byte>)
    requires forall i :: 0 <= i < |text| ==> 0 <= text[i] as int < 0x80
    ensures |bytes| == |text| && forall i :: 0 <= i < |text| ==> bytes[i] == text[i] as int
  {
    seq(|text|, i requires 0 <= i < |text| => text[i] as int)
  }

  predicate StartsWith(line: seq<byte>, prefix: seq<byte>) {
    |prefix| <= |line| && line[..|prefix|] == prefix
  }

  /** The first non-empty piece between line ends, with whatever follows it. */
  function SkipEmptyLines(text: seq<byte>): seq<byte> {
    if StartsWith(text, CRLF) then SkipEmptyLines(text[2..]) else text
  }

  /** A status line, or a request line with a known method. */
  predicate KnownStart(head: seq<byte>) {
    var line := SkipEmptyLines(head);
    || StartsWith(line, Ascii("HTTP/"))
    || StartsWith(line, Ascii("GET ")) || StartsWith(line, Ascii("POST ")) || StartsWith(line, Ascii("HEAD "))
    || StartsWith(line, Ascii("PUT ")) || StartsWith(line, Ascii("DELETE ")) || StartsWith(line, Ascii("OPTIONS "))
    || StartsWith(line, Ascii("PATCH ")) || StartsWith(line, Ascii("TRACE ")) || StartsWith(line, Ascii("CONNECT "))
  }

  /** `http::parse`. `wellFormed` stands for what it asks of the header block beyond the start of the first line. */
  function HttpParse(payload: seq<byte>, wellFormed: seq<byte> -> bool): Option<HttpMessage> {
    var block := HeaderBlock(payload);
    if KnownStart(block.head) && wellFormed(block.head) then Some(block) else None
  }

  // ---------------------------------------------------------------------------------------------------------------
  // TLS
  // ---------------------------------------------------------------------------------------------------------------

  /** A hello: the record's version, as much of the record as is there, and whether that is all of it. */
  datatype TlsHello = TlsHello(recordVersion: u16, record: seq<byte>, complete: bool)

  /** The record starts with a hello whose fixed part, session id, ciphers and compression are all present. */
  predicate HelloShape(rec: seq<byte>) {
    && |rec| >= 39 && (rec[0] == CLIENT_HELLO || rec[0] == SERVER_HELLO)
    && var afterSession := 39 + (rec[38] as int);
       if rec[0] == CLIENT_HELLO then
         && afterSession + 2 <= |rec|
         && var afterCiphers := afterSession + 2 + Be16(rec[afterSession], rec[afterSession + 1]);
            afterCiphers + 1 <= |rec| && afterCiphers + 1 + rec[afterCiphers] <= |rec|
       else afterSession + 3 <= |rec|
  }

  /** `tls::parse`. */
  function TlsParse(payload: seq<byte>): Option<TlsHello> {
    if |payload| < 5 || payload[0] != CONTENT_TYPE_HANDSHAKE then None
    else
      var declared, remaining := Be16(payload[3], payload[4]), |payload| - 5;
      var rec := payload[5..5 + Min(declared, remaining)];
      if HelloShape(rec) then Some(TlsHello(Be16(payload[1], payload[2]), rec, declared <= remaining)) else None
  }

  // ---------------------------------------------------------------------------------------------------------------
  // Dispatch
  // ---------------------------------------------------------------------------------------------------------------

  datatype AppLayer = Dns(message: DnsMessages.Message) | Http(http: HttpMessage) | Tls(hello: TlsHello) | NoApp

  datatype Ports = Ports(src: u16, dst: u16)

  predicate DnsPort(p: u16) {
    p == 53 || p == 5353 || p == 5355
  }

  predicate DnsPorts(ports: Ports) {
    DnsPort(ports.src) || DnsPort(ports.dst)
  }

  /** DNS over TCP may carry a two-byte length in front; it is stripped only when it accounts for all the rest. */
  function DnsFrom(payload: seq<byte>, tcp: bool): Option<DnsMessages.Message> {
    var prefixed :=
      if tcp && |payload| > 2 && Be16(payload[0], payload[1]) == |payload| - 2 then DnsMessages.Parse(payload[2..])
      else Err(Dns.Truncated);
    if prefixed.Ok? then Some(prefixed.value)
    else
      var bare := DnsMessages.Parse(payload);
      if bare.Ok? then Some(bare.value) else None
  }

  /** `app_from_payload`. */
  function AppFromPayload(ports: Ports, payload: seq<byte>, tcp: bool, wellFormed: seq<byte> -> bool): AppLayer {
    if payload == [] then NoApp
    else
      var dns := if DnsPorts(ports) then DnsFrom(payload, tcp) else None;
      if dns.Some? then Dns(dns.value)
      else if !tcp then NoApp
      else
        var tls := TlsParse(payload);
        if tls.Some? then Tls(tls.value)
        else
          var http := HttpParse(payload, wellFormed);
          if http.Some? then Http(http.value) else NoApp
  }

  /** `is_complete`. */
  predicate IsComplete(app: AppLayer) {
    match app
    case NoApp => false
    case Http(h) => h.complete
    case Tls(t) => t.complete
    case Dns(_) => true
  }

  // ---------------------------------------------------------------------------------------------------------------
  // A complete message does not change when more bytes follow
  // ---------------------------------------------------------------------------------------------------------------

  lemma HeaderBlockStable(p: seq<byte>, q: seq<byte>)
    requires HeaderBlock(p).complete
    ensures HeaderBlock(p + q) == HeaderBlock(p)
  {
    var hay, hay' := p[..Min(|p|, HEADER_LIMIT)], (p + q)[..Min(|p + q|, HEADER_LIMIT)];
    var at := FirstBlankLine(hay, 0).value;
    assert hay <= hay';
    forall i | 0 <= i <= at ensures BlankLineAt(hay', i) <==> BlankLineAt(hay, i) {
      BlankLineKept(hay, hay', i);
    }
    var found := FirstBlankLine(hay', 0);
    assert found == Some(at) by {
      assert BlankLineAt(hay', at);
    }
    assert (p + q)[..at + 2] == p[..at + 2];
  }

  lemma BlankLineKept(hay: seq<byte>, longer: seq<byte>, at: nat)
    requires hay <= longer && at + 4 <= |hay|
    ensures BlankLineAt(longer, at) <==> BlankLineAt(hay, at)
  {
    assert longer[at..at + 4] == hay[at..at + 4];
  }

  lemma StartsOtherwise(line: seq<byte>, prefix: seq<byte>)
    requires prefix != [] && (line != [] ==> line[0] != prefix[0])
    ensures !StartsWith(line, prefix)
  {
    if |prefix| <= |line| {
      assert line[..|prefix|][0] == line[0];
    }
  }

  /** A byte that no line end and no start line begins with. */
  predicate BeginsNoStart(x: byte) {
    && x != 13 && x != 'H' as int && x != 'G' as int && x != 'P' as int && x != 'D' as int
    && x != 'O' as int && x != 'T' as int && x != 'C' as int
  }

  lemma NoStartIsNotHttp(payload: seq<byte>, wellFormed: seq<byte> -> bool)
    requires payload != [] ==> BeginsNoStart(payload[0])
    ensures HttpParse(payload, wellFormed).None?
  {
    hide FirstBlankLine, StartsWith;
    var head := HeaderBlock(payload).head;
    assert head != [] ==> head[0] == payload[0];
    StartsOtherwise(head, CRLF);
    assert SkipEmptyLines(head) == head;
    StartsOtherwise(head, Ascii("HTTP/"));
    StartsOtherwise(head, Ascii("GET "));
    StartsOtherwise(head, Ascii("POST "));
    StartsOtherwise(head, Ascii("HEAD "));
    StartsOtherwise(head, Ascii("PUT "));
    StartsOtherwise(head, Ascii("DELETE "));
    StartsOtherwise(head, Ascii("OPTIONS "));
    StartsOtherwise(head, Ascii("PATCH "));
    StartsOtherwise(head, Ascii("TRACE "));
    StartsOtherwise(head, Ascii("CONNECT "));
  }

  /** No HTTP start line begins with the byte that begins a TLS handshake record. */
  lemma HandshakeIsNotHttp(payload: seq<byte>, wellFormed: seq<byte> -> bool)
    requires payload != [] && payload[0] == CONTENT_TYPE_HANDSHAKE
    ensures HttpParse(payload, wellFormed).None?
  {
    NoStartIsNotHttp(payload, wellFormed);
  }

  lemma TlsStable(p: seq<byte>, q: seq<byte>)
    requires TlsParse(p).Some? && TlsParse(p).value.complete
    ensures TlsParse(p + q) == TlsParse(p)
  {
    var declared := Be16(p[3], p[4]);
    assert (p + q)[5..5 + declared] == p[5..5 + declared];
  }

  /** Off the DNS ports, the decode of a complete message is the decode of any longer payload that begins with it. */
  lemma CompleteIsStable(ports: Ports, p: seq<byte>, q: seq<byte>, wellFormed: seq<byte> -> bool)
    requires !DnsPorts(ports) && IsComplete(AppFromPayload(ports, p, true, wellFormed))
    ensures AppFromPayload(ports, p + q, true, wellFormed) == AppFromPayload(ports, p, true, wellFormed)
  {
    if TlsParse(p).Some? {
      TlsStable(p, q);
    } else {
      if p[0] == CONTENT_TYPE_HANDSHAKE {
        HandshakeIsNotHttp(p, wellFormed);
      }
      HeaderBlockStable(p, q);
    }
  }

  ghost predicate StableAt(ports: Ports, p: seq<byte>, q: seq<byte>, wellFormed: seq<byte> -> bool) {
    IsComplete(AppFromPayload(ports, p, true, wellFormed)) ==>
      AppFromPayload(ports, p + q, true, wellFormed) == AppFromPayload(ports, p, true, wellFormed)
  }

  /** Twelve zero bytes behind a length prefix decode one way; one byte later the prefix is read as the identifier. */
  lemma DnsPrefixUnstable(ports: Ports, wellFormed: seq<byte> -> bool)
    requires DnsPorts(ports)
    ensures !StableAt(ports, [0, 12] + seq(12, _ => 0), [0], wellFormed)
  {
    var zeros: seq<byte> := seq(12, _ => 0);
    var p: seq<byte> := [0, 12] + zeros;
    EmptyMessage(zeros);
    EmptyMessage(p + [0]);
    assert p[2..] == zeros;
    hide DnsMessages.Parse;
    assert DnsFrom(p, true) == Some(DnsMessages.Parse(zeros).value);
    assert DnsFrom(p + [0], true) == Some(DnsMessages.Parse(p + [0]).value);
  }

  /** A header that announces no question and no answer is a message by itself. */
  lemma EmptyMessage(msg: seq<byte>)
    requires |msg| >= 12 && forall i :: 2 <= i < 8 ==> msg[i] == 0
    ensures DnsMessages.Parse(msg).Ok? && DnsMessages.Parse(msg).value.id == Be16(msg[0], msg[1])
  {
    assert DnsMessages.Word(msg, 2) == 0 && DnsMessages.Word(msg, 4) == 0 && DnsMessages.Word(msg, 6) == 0;
    assert DnsMessages.QuestionsAt(msg, 12, 0) == Ok(DnsMessages.Walked([], 12));
  }

  /** Completeness is stable for every payload and continuation exactly when neither port is a DNS port. */
  lemma StableExactlyOffDns(ports: Ports, wellFormed: seq<byte> -> bool)
    ensures (forall p, q :: StableAt(ports, p, q, wellFormed)) <==> !DnsPorts(ports)
  {
    if DnsPorts(ports) {
      DnsPrefixUnstable(ports, wellFormed);
    } else {
      forall p, q ensures StableAt(ports, p, q, wellFormed) {
        if IsComplete(AppFromPayload(ports, p, true, wellFormed)) {
          CompleteIsStable(ports, p, q, wellFormed);
        }
      }
    }
  }
}
