/** The lookups against the simple thing they speed up: a scan of everything listed. */
module IndicatorMatching {
  import opened Wrappers
  import opened Division
  import opened Net
  import opened Prefixes
  import opened Indicators
  import opened IndicatorKinds

  // ---------------------------------------------------------------------------------------------------------------
  // Addresses
  // ---------------------------------------------------------------------------------------------------------------

  /** Same family, and the same number above the host bits. */
  ghost predicate InNetwork(c: Cidr, ip: IpAddr)
    requires InWidth(c)
  {
    var unit := Pow(2, Width(c.base) - c.prefix);
    c.base.V4? == ip.V4? && unit >= 1 && Number(c.base) / unit == Number(ip) / unit
  }

  /** Comparing octets under the mask is belonging to the network, for either family and every prefix. */
  lemma ContainsMeaning(c: Cidr, ip: IpAddr)
    requires InWidth(c)
    ensures Contains(c, ip) <==> InNetwork(c, ip)
  {
    hide PrefixEq, OctetsOf, Pow;
    if c.base.V4? == ip.V4? {
      OctetsOfSpell(c.base);
      OctetsOfSpell(ip);
      PrefixMeaning(OctetsOf(c.base), OctetsOf(ip), c.prefix);
    }
  }

  /** The range found is the first listed that holds the address. */
  ghost predicate FirstHolding(cidrs: seq<(Cidr, Provenance)>, ip: IpAddr, i: nat)
    requires AllInWidth(cidrs)
  {
    i < |cidrs| && InNetwork(cidrs[i].0, ip) && forall j :: 0 <= j < i ==> !InNetwork(cidrs[j].0, ip)
  }

  ghost predicate Holding(cidrs: seq<(Cidr, Provenance)>, ip: IpAddr)
    requires AllInWidth(cidrs)
  {
    exists i :: 0 <= i < |cidrs| && InNetwork(cidrs[i].0, ip)
  }

  lemma {:induction false} FirstRangeMeaning(cidrs: seq<(Cidr, Provenance)>, ip: IpAddr) returns (at: nat)
    requires AllInWidth(cidrs)
    ensures FirstRange(cidrs, ip).Some? <==> Holding(cidrs, ip)
    ensures Holding(cidrs, ip) ==>
              FirstHolding(cidrs, ip, at) && FirstRange(cidrs, ip) == Some(IocMatch(Text(cidrs[at].0.text), cidrs[at].1.source, cidrs[at].1.tag))
    decreases |cidrs|
  {
    hide InNetwork, Contains, InWidth;
    at := 0;
    if cidrs != [] {
      ContainsMeaning(cidrs[0].0, ip);
      if !InNetwork(cidrs[0].0, ip) {
        var later := FirstRangeMeaning(cidrs[1..], ip);
        at := later + 1;
        assert Holding(cidrs, ip) <==> Holding(cidrs[1..], ip) by {
          if Holding(cidrs, ip) {
            var i :| 0 <= i < |cidrs| && InNetwork(cidrs[i].0, ip);
            assert cidrs[1..][i - 1] == cidrs[i];
          }
        }
        if Holding(cidrs, ip) {
          forall j | 0 <= j < at ensures !InNetwork(cidrs[j].0, ip) {
            if j > 0 {
              assert cidrs[1..][j - 1] == cidrs[j];
            }
          }
        }
      }
    }
  }

  /** An address matches when it is listed or lies in a listed range; the exact address wins, else the first range. */
  lemma MatchIpMeaning(h: Holdings, ip: IpAddr) returns (at: nat)
    requires AllInWidth(h.cidrs)
    ensures MatchIp(h, ip).Some? <==> ip in h.ips || Holding(h.cidrs, ip)
    ensures ip in h.ips ==> MatchIp(h, ip) == Some(IocMatch(Address(ip), h.ips[ip].source, h.ips[ip].tag))
    ensures ip !in h.ips && Holding(h.cidrs, ip) ==>
              FirstHolding(h.cidrs, ip, at) && MatchIp(h, ip) == Some(IocMatch(Text(h.cidrs[at].0.text), h.cidrs[at].1.source, h.cidrs[at].1.tag))
  {
    at := FirstRangeMeaning(h.cidrs, ip);
  }

  // ---------------------------------------------------------------------------------------------------------------
  // Names
  // ---------------------------------------------------------------------------------------------------------------

  predicate Suffix(d: string, name: string)
    requires |d| <= |name|
  {
    name[|name| - |d|..] == d
  }

  /** A domain covers itself and every name that ends in a dot and the domain. */
  predicate Covers(d: string, name: string) {
    |d| <= |name| && Suffix(d, name) && (|d| == |name| || name[|name| - |d| - 1] == '.')
  }

  lemma WholeSuffix(d: string, name: string)
    ensures d == name <==> |d| == |name| && Suffix(d, name)
  {
    assert name[0..] == name;
  }

  lemma SuffixOfRest(d: string, name: string, k: nat)
    requires k <= |name| && |d| <= |name| - k
    ensures Suffix(d, name[k..]) <==> Suffix(d, name)
  {
    assert name[k..][|name| - k - |d|..] == name[|name| - |d|..];
  }

  /** A domain shorter than a name covers it exactly when it covers what follows any dot before the domain. */
  lemma CoversBehind(d: string, name: string, dot: nat)
    requires dot < |name| && name[dot] == '.' && |d| <= |name| - (dot + 1)
    ensures Covers(d, name) <==> Covers(d, name[dot + 1..])
  {
    hide Suffix;
    SuffixOfRest(d, name, dot + 1);
    var rest := name[dot + 1..];
    if |d| < |rest| {
      assert rest[|rest| - |d| - 1] == name[|name| - |d| - 1];
    }
  }

  /** A domain that covers a name and is not the name leaves room for the first dot before it. */
  lemma CoversLeavesDot(d: string, name: string)
    requires Covers(d, name) && d != name
    ensures FirstDot(name) < |name| && |d| <= |name| - (FirstDot(name) + 1)
  {
    hide Suffix;
    WholeSuffix(d, name);
    NoDotBefore(name, |name| - |d| - 1);
  }

  lemma NoDotBefore(name: string, at: int)
    requires at < |name|
    ensures 0 <= at && name[at] == '.' ==> FirstDot(name) <= at
  {
    if 0 <= at < FirstDot(name) {
      assert name[..FirstDot(name)][at] != '.';
    }
  }

  /** Past its first dot, a name is covered by the same domains other than itself. */
  lemma CoversStep(d: string, name: string)
    ensures var dot := FirstDot(name);
            Covers(d, name) <==> d == name || (dot < |name| && Covers(d, name[dot + 1..]))
  {
    var dot := FirstDot(name);
    WholeSuffix(d, name);
    if Covers(d, name) && d != name {
      CoversLeavesDot(d, name);
      CoversBehind(d, name, dot);
    } else if dot < |name| && Covers(d, name[dot + 1..]) {
      CoversBehind(d, name, dot);
    }
  }

  lemma CoversItself(d: string, name: string)
    ensures Covers(name, name) && (Covers(d, name) ==> |d| <= |name|)
  {
    WholeSuffix(name, name);
  }

  /** The walk finds a listed domain that covers the name exactly when there is one, and then the longest. */
  lemma {:induction false} WalkMeaning(domains: map<string, Provenance>, hay: string)
    ensures Walk(domains, hay).None? <==> forall d :: d in domains ==> !Covers(d, hay)
    ensures Walk(domains, hay).Some? ==>
              Covers(Walk(domains, hay).value, hay) && forall d :: d in domains && Covers(d, hay) ==> |d| <= |Walk(domains, hay).value|
    decreases |hay|
  {
    hide Covers, FirstDot;
    if hay in domains {
      forall d ensures Covers(hay, hay) && (Covers(d, hay) ==> |d| <= |hay|) {
        CoversItself(d, hay);
      }
    } else {
      var dot := FirstDot(hay);
      forall d ensures Covers(d, hay) <==> d == hay || (dot < |hay| && Covers(d, hay[dot + 1..])) {
        CoversStep(d, hay);
      }
      if dot < |hay| {
        WalkMeaning(domains, hay[dot + 1..]);
      }
    }
  }

  /** Equally long domains that cover one name are the same. */
  lemma LongestIsUnique(d: string, e: string, name: string)
    requires Covers(d, name) && Covers(e, name) && |d| == |e|
    ensures d == e
  {
  }

  lemma {:induction false} TrimmedEnd(s: string)
    ensures TrimDots(s) != [] ==> TrimDots(s)[|TrimDots(s)| - 1] != '.'
    decreases |s|
  {
    if s != [] && s[|s| - 1] == '.' {
      TrimmedEnd(s[..|s| - 1]);
    }
  }

  /** A name matches exactly when a listed domain covers its normal form, and the longest such domain is reported. */
  lemma MatchDomainMeaning(h: Holdings, name: string)
    ensures MatchDomain(h, name).Some? <==> Canonical(name) != [] && exists d :: d in h.domains && Covers(d, Canonical(name))
    ensures MatchDomain(h, name).Some? ==>
              var m := MatchDomain(h, name).value;
              && m.indicator.Text? && m.indicator.text in h.domains
              && (m.source, m.tag) == (h.domains[m.indicator.text].source, h.domains[m.indicator.text].tag)
              && Covers(m.indicator.text, Canonical(name))
              && forall d :: d in h.domains && Covers(d, Canonical(name)) ==> |d| <= |m.indicator.text|
  {
    hide Covers, Canonical;
    var hay := Canonical(name);
    WalkMeaning(h.domains, hay);
    if hay != [] && exists d :: d in h.domains && Covers(d, hay) {
      var d :| d in h.domains && Covers(d, hay);
      assert Walk(h.domains, hay).Some?;
    }
  }

  lemma CanonicalIdempotent(name: string)
    ensures Canonical(Canonical(name)) == Canonical(name)
  {
    var c := Canonical(name);
    TrimmedEnd(name);
    assert c != [] ==> c[|c| - 1] != '.';
    assert TrimDots(c) == c;
    assert Lower(c) == c;
  }

  // ---------------------------------------------------------------------------------------------------------------
  // Loading a list
  // ---------------------------------------------------------------------------------------------------------------

  datatype Line = Line(token: Token, from: Provenance)

  /** What a set holds after a list of lines is inserted in order. */
  function Load(lines: seq<Line>): Holdings {
    if lines == [] then NOTHING
    else
      var last := lines[|lines| - 1];
      Insert(Load(lines[..|lines| - 1]), last.token, last.from).0
  }

  /** A loader: each line is inserted under its own source. The set then holds what the lines load. */
  method LoadAll(lines: seq<Line>) returns (loaded: IocSet)
    ensures fresh(loaded) && loaded.Valid() && loaded.View() == Load(lines)
  {
    loaded := new IocSet();
    var i := 0;
    assert lines[..0] == [];
    while i < |lines|
      invariant i <= |lines| && fresh(loaded) && loaded.Valid() && loaded.View() == Load(lines[..i])
    {
      var line := lines[i];
      loaded.SetSource(line.from.source);
      var kind := loaded.InsertTagged(line.token, line.from.tag);
      assert lines[..i + 1][..i] == lines[..i];
      i := i + 1;
    }
    assert lines[..i] == lines;
  }

  /** The line lists an address, on its own or in a range. */
  ghost predicate ListsIp(l: Line, ip: IpAddr) {
    IpToken(l.token, ip) || exists c :: RangeToken(l.token, c) && InWidth(c) && InNetwork(c, ip)
  }

  ghost predicate ListsDomain(l: Line, d: string) {
    DomainToken(l.token, d)
  }

  ghost predicate ListsJa3(l: Line, hash: string) {
    HashToken(l.token, hash)
  }

  /** The line found room: the lines before it had not filled the set. */
  ghost predicate Fitted(lines: seq<Line>, i: nat) {
    i < |lines| && Len(Load(lines[..i])) < 4_000_000
  }

  ghost predicate SomeListsIp(lines: seq<Line>, ip: IpAddr) {
    exists i: nat :: Fitted(lines, i) && ListsIp(lines[i], ip)
  }

  lemma {:induction false} FittedBefore(lines: seq<Line>, i: nat)
    requires i < |lines| - 1
    ensures Fitted(lines, i) <==> Fitted(lines[..|lines| - 1], i)
  {
    assert lines[..|lines| - 1][..i] == lines[..i];
  }

  lemma AddSize(h: Holdings, c: Class, p: Provenance)
    ensures Len(Add(h, c, p)) <= Len(h) + 1
  {
    match c
    case IsIp(ip) => MapSize(h.ips, ip, p);
    case IsJa3Hash(hash) => MapSize(h.ja3, hash, p);
    case IsDomain(domain) => MapSize(h.domains, domain, p);
    case _ =>
  }

  lemma MapSize<K, V>(m: map<K, V>, k: K, v: V)
    ensures |m[k := v]| <= |m| + 1
  {
    assert m[k := v].Keys == m.Keys + {k};
    assert |m[k := v]| == |m[k := v].Keys| && |m| == |m.Keys|;
  }

  lemma NothingHeld()
    ensures Len(NOTHING) == 0
  {
  }

  /** Whatever is inserted, a set never holds more than the limit, and its ranges stay within their addresses. */
  lemma {:induction false} LoadBounded(lines: seq<Line>)
    ensures Len(Load(lines)) <= 4_000_000 && Len(Load(lines)) <= |lines|
    ensures AllInWidth(Load(lines).cidrs)
    decreases |lines|
  {
    hide Classify, Len;
    if lines != [] {
      var before, last := lines[..|lines| - 1], lines[|lines| - 1];
      LoadBounded(before);
      AddSize(Load(before), Classify(last.token), last.from);
    } else {
      NothingHeld();
    }
  }

  lemma {:induction false} SomeListsIpStep(lines: seq<Line>, ip: IpAddr)
    requires lines != []
    ensures var n := |lines| - 1;
            SomeListsIp(lines, ip) <==> SomeListsIp(lines[..n], ip) || (Fitted(lines, n) && ListsIp(lines[n], ip))
  {
    hide ListsIp, Fitted;
    var n := |lines| - 1;
    forall i: nat ensures (Fitted(lines, i) ==> i <= n) && (Fitted(lines[..n], i) ==> i < n) {
      AllFittedIndices(lines, lines[..n], i);
    }
    forall i: nat ensures i < n ==> (Fitted(lines, i) <==> Fitted(lines[..n], i)) && lines[..n][i] == lines[i] {
      if i < n {
        FittedBefore(lines, i);
      }
    }
  }

  lemma HoldingSnoc(cidrs: seq<(Cidr, Provenance)>, c: Cidr, p: Provenance, ip: IpAddr)
    requires AllInWidth(cidrs) && InWidth(c)
    ensures AllInWidth(cidrs + [(c, p)])
    ensures Holding(cidrs + [(c, p)], ip) <==> Holding(cidrs, ip) || InNetwork(c, ip)
  {
    hide InNetwork, InWidth;
    var more := cidrs + [(c, p)];
    assert AllInWidth(more);
    if Holding(cidrs, ip) {
      var i :| 0 <= i < |cidrs| && InNetwork(cidrs[i].0, ip);
      assert more[i] == cidrs[i];
    }
    if InNetwork(c, ip) {
      assert more[|cidrs|] == (c, p);
    }
  }

  /** Adding one recognised line adds exactly the addresses it lists. */
  lemma AddListsIp(h: Holdings, l: Line, ip: IpAddr)
    requires AllInWidth(h.cidrs)
    ensures var after := Add(h, Classify(l.token), l.from);
            && AllInWidth(after.cidrs)
            && (ip in after.ips || Holding(after.cidrs, ip) <==> (ip in h.ips || Holding(h.cidrs, ip)) || ListsIp(l, ip))
  {
    hide InNetwork, Holding, Classify, RangeToken, IpToken;
    IpMeans(l.token, ip);
    forall c ensures Classify(l.token) == IsRange(c) <==> RangeToken(l.token, c) {
      RangeMeans(l.token, c);
    }
    match Classify(l.token)
    case IsRange(cidr) =>
      HoldingSnoc(h.cidrs, cidr, l.from, ip);
    case _ =>
  }

  lemma NothingHolds(ip: IpAddr)
    ensures !Holding([], ip) && !SomeListsIp([], ip)
  {
  }

  /** A set loaded from any list matches an address exactly when a scan of the lines that fitted finds one that lists it. */
  lemma {:induction false} LoadedIps(lines: seq<Line>, ip: IpAddr)
    ensures AllInWidth(Load(lines).cidrs)
    ensures MatchIp(Load(lines), ip).Some? <==> SomeListsIp(lines, ip)
    decreases |lines|
  {
    hide Holding, Classify, ListsIp, MatchIp, Len, SomeListsIp, Fitted, Add;
    LoadBounded(lines);
    var at := MatchIpMeaning(Load(lines), ip);
    if lines == [] {
      NothingHolds(ip);
    } else {
      var before := lines[..|lines| - 1];
      LoadBounded(before);
      LoadedIps(before, ip);
      var at' := MatchIpMeaning(Load(before), ip);
      SomeListsIpStep(lines, ip);
      LoadLast(lines);
      AddListsIp(Load(before), lines[|lines| - 1], ip);
    }
  }

  ghost predicate SomeListsDomain(lines: seq<Line>, d: string) {
    exists i: nat :: Fitted(lines, i) && ListsDomain(lines[i], d)
  }

  /** Line `i` is the last that fitted and lists the domain. */
  ghost predicate LastListsDomain(lines: seq<Line>, d: string, i: nat) {
    Fitted(lines, i) && ListsDomain(lines[i], d) && forall j: nat :: i < j && Fitted(lines, j) ==> !ListsDomain(lines[j], d)
  }

  /** A domain is held exactly when a line that fitted lists it, with the provenance of the last such line. */
  lemma {:induction false} LoadedDomains(lines: seq<Line>, d: string) returns (last: nat)
    ensures d in Load(lines).domains <==> SomeListsDomain(lines, d)
    ensures d in Load(lines).domains ==> LastListsDomain(lines, d, last) && Load(lines).domains[d] == lines[last].from
    decreases |lines|
  {
    hide Classify, Len, Fitted, DomainToken;
    last := 0;
    if lines == [] {
      NoneFitted();
    } else {
      var n := |lines| - 1;
      var before := lines[..n];
      var earlier := LoadedDomains(before, d);
      DomainTokenMeans(lines[n].token, d);
      forall i: nat ensures i < n ==> (Fitted(lines, i) <==> Fitted(before, i)) && before[i] == lines[i] {
        if i < n {
          FittedBefore(lines, i);
        }
      }
      forall i: nat ensures (Fitted(lines, i) ==> i <= n) && (Fitted(before, i) ==> i < n) {
        AllFittedIndices(lines, before, i);
      }
      LoadLast(lines);
      last := if Fitted(lines, n) && ListsDomain(lines[n], d) then n else earlier;
    }
  }

  lemma {:induction false} AllFittedIndices(lines: seq<Line>, before: seq<Line>, i: nat)
    ensures Fitted(lines, i) ==> i < |lines|
    ensures Fitted(before, i) ==> i < |before|
  {
  }

  lemma NoneFitted()
    ensures forall i: nat :: !Fitted([], i)
  {
  }

  /** The last line is added exactly when it fitted. */
  lemma {:induction false} LoadLast(lines: seq<Line>)
    requires lines != []
    ensures var n := |lines| - 1;
            Load(lines) == if Fitted(lines, n) then Add(Load(lines[..n]), Classify(lines[n].token), lines[n].from) else Load(lines[..n])
  {
    hide Classify, Add;
  }

  ghost predicate SomeListsCover(lines: seq<Line>, name: string) {
    exists i: nat, d :: Fitted(lines, i) && ListsDomain(lines[i], d) && Covers(d, name)
  }

  /** A set loaded from any list matches a name exactly when a line that fitted lists a domain that covers its normal form. */
  lemma LoadedNames(lines: seq<Line>, name: string, hay: string)
    requires NormalForm(hay, name)
    ensures MatchDomain(Load(lines), name).Some? <==> hay != [] && SomeListsCover(lines, hay)
  {
    hide Covers, Canonical, ListsDomain, MatchDomain, Fitted, NormalForm;
    var h := Load(lines);
    CanonicalIsNormal(hay, name);
    MatchDomainMeaning(h, name);
    forall d ensures d in h.domains <==> SomeListsDomain(lines, d) {
      var last := LoadedDomains(lines, d);
    }
    forall i: nat ensures Fitted(lines, i) ==> i < |lines| {
      AllFittedIndices(lines, lines, i);
    }
    if SomeListsCover(lines, hay) {
      var i: nat, d :| Fitted(lines, i) && ListsDomain(lines[i], d) && Covers(d, hay);
      assert SomeListsDomain(lines, d);
      assert d in h.domains;
    }
    if d :| d in h.domains && Covers(d, hay) {
      var i: nat :| Fitted(lines, i) && ListsDomain(lines[i], d);
      assert SomeListsCover(lines, hay);
    }
  }

  ghost predicate SomeListsJa3(lines: seq<Line>, hash: string) {
    exists i: nat :: Fitted(lines, i) && ListsJa3(lines[i], hash)
  }

  ghost predicate LastListsJa3(lines: seq<Line>, hash: string, i: nat) {
    Fitted(lines, i) && ListsJa3(lines[i], hash) && forall j: nat :: i < j && Fitted(lines, j) ==> !ListsJa3(lines[j], hash)
  }

  lemma {:induction false} LoadedHashes(lines: seq<Line>, hash: string) returns (last: nat)
    ensures hash in Load(lines).ja3 <==> SomeListsJa3(lines, hash)
    ensures hash in Load(lines).ja3 ==> LastListsJa3(lines, hash, last) && Load(lines).ja3[hash] == lines[last].from
    decreases |lines|
  {
    hide Classify, Len, Fitted, HashToken;
    last := 0;
    if lines == [] {
      NoneFitted();
    } else {
      var n := |lines| - 1;
      var before := lines[..n];
      var earlier := LoadedHashes(before, hash);
      HashTokenMeans(lines[n].token, hash);
      forall i: nat ensures i < n ==> (Fitted(lines, i) <==> Fitted(before, i)) && before[i] == lines[i] {
        if i < n {
          FittedBefore(lines, i);
        }
      }
      forall i: nat ensures (Fitted(lines, i) ==> i <= n) && (Fitted(before, i) ==> i < n) {
        AllFittedIndices(lines, before, i);
      }
      LoadLast(lines);
      last := if Fitted(lines, n) && ListsJa3(lines[n], hash) then n else earlier;
    }
  }

  /**
   A fingerprint matches exactly when a line that fitted lists it in either case, and the match names the source of the
   last such line.
   */
  lemma {:induction false} LoadedJa3(lines: seq<Line>, asked: string, hash: string) returns (last: nat)
    requires InSmall(hash, asked)
    ensures MatchJa3(Load(lines), asked).Some? <==> SomeListsJa3(lines, hash)
    ensures MatchJa3(Load(lines), asked).Some? ==>
              && LastListsJa3(lines, hash, last)
              && MatchJa3(Load(lines), asked) == Some(IocMatch(Text(hash), lines[last].from.source, lines[last].from.tag))
  {
    hide Load, Lower, InSmall;
    LowerIsSmall(hash, asked);
    last := LoadedHashes(lines, hash);
  }

  /** A line can only list 32 hexadecimal digits, held in small letters, so nothing else ever matches. */
  lemma ListedHashShape(l: Line, hash: string)
    requires ListsJa3(l, hash)
    ensures |hash| == 32 && forall i :: 0 <= i < 32 ==> 48 <= hash[i] as int <= 57 || 97 <= hash[i] as int <= 102
  {
    forall i | 0 <= i < 32 ensures 48 <= hash[i] as int <= 57 || 97 <= hash[i] as int <= 102 {
      assert SmallOf(hash[i], l.token.text[i]) && HexCode(l.token.text[i] as int);
    }
  }

  lemma ListedAtOnce(domains: map<string, Provenance>, d: string)
    requires d in domains
    ensures Walk(domains, d) == Some(d)
  {
  }

  lemma DotInFront(front: string, d: string)
    ensures Covers(d, front + "." + d)
  {
    var hay := front + "." + d;
    assert hay[|hay| - |d|..] == d;
  }

  /** An inserted domain is found however it is spelled, under its own provenance, and so is every name below it. */
  lemma InsertedDomainIsFound(h: Holdings, t: Token, p: Provenance, d: string, name: string, hay: string)
    requires Len(h) < 4_000_000 && DomainToken(t, d) && NormalForm(hay, name)
    ensures Insert(h, t, p).1 == Ok(Domain)
    ensures hay == d ==> MatchDomain(Insert(h, t, p).0, name) == Some(IocMatch(Text(d), p.source, p.tag))
    ensures forall front :: hay == front + "." + d ==> MatchDomain(Insert(h, t, p).0, name).Some?
  {
    InsertMeaning(h, t, p);
    assert d != [];
    hide Walk, Canonical, Len, Insert, DomainToken, NormalForm, Covers;
    var after := Insert(h, t, p).0;
    assert d in after.domains && after.domains[d] == p;
    CanonicalIsNormal(hay, name);
    if hay == d {
      ListedAtOnce(after.domains, d);
    }
    MatchDomainMeaning(after, name);
    forall front | hay == front + "." + d ensures MatchDomain(after, name).Some? {
      DotInFront(front, d);
      assert hay != [];
    }
  }

  /** And an inserted fingerprint, in either case. */
  lemma InsertedJa3IsFound(h: Holdings, t: Token, p: Provenance, hash: string, asked: string)
    requires Len(h) < 4_000_000 && HashToken(t, hash) && InSmall(hash, asked)
    ensures Insert(h, t, p).1 == Ok(Ja3)
    ensures MatchJa3(Insert(h, t, p).0, asked) == Some(IocMatch(Text(hash), p.source, p.tag))
  {
    hide Len, Lower, HashToken, InSmall, Insert;
    InsertMeaning(h, t, p);
    LowerIsSmall(hash, asked);
  }

  /** Spellings with one normal form are matched alike. */
  lemma SpellingsMatchAlike(h: Holdings, a: string, b: string, m: nat, n: nat)
    requires EndsAt(a, m) && EndsAt(b, n) && SameButCase(a[..m], b[..n])
    ensures MatchDomain(h, a) == MatchDomain(h, b)
  {
    hide Walk, Canonical, SameButCase;
    OneNormalForm(a, b);
  }

  // ---------------------------------------------------------------------------------------------------------------
  // Merging
  // ---------------------------------------------------------------------------------------------------------------

  /** Of two matches for one name, the longer; on equal length the incoming one. */
  function MoreSpecific(a: Option<IocMatch>, b: Option<IocMatch>): Option<IocMatch> {
    if a.None? then b
    else if b.None? then a
    else if a.value.indicator.Text? && b.value.indicator.Text? && |a.value.indicator.text| > |b.value.indicator.text| then a
    else b
  }

  /** A merged set reports for a name the more specific of what its parts report. */
  lemma MergedNames(h: Holdings, other: Holdings, name: string)
    ensures MatchDomain(Merge(h, other), name) == MoreSpecific(MatchDomain(h, name), MatchDomain(other, name))
  {
    hide Covers, Canonical, MatchDomain;
    var hay, both := Canonical(name), Merge(h, other);
    MatchDomainMeaning(h, name);
    MatchDomainMeaning(other, name);
    MatchDomainMeaning(both, name);
    var a, b, m := MatchDomain(h, name), MatchDomain(other, name), MatchDomain(both, name);
    if a.Some? {
      assert a.value.indicator.text in both.domains;
    }
    if b.Some? {
      assert b.value.indicator.text in both.domains;
    }
    if m.Some? {
      var d := m.value.indicator.text;
      assert d in h.domains || d in other.domains;
      if a.Some? && |a.value.indicator.text| == |d| {
        LongestIsUnique(a.value.indicator.text, d, hay);
      }
      if b.Some? && |b.value.indicator.text| == |d| {
        LongestIsUnique(b.value.indicator.text, d, hay);
      }
    }
  }

  lemma {:induction false} FirstRangeConcat(a: seq<(Cidr, Provenance)>, b: seq<(Cidr, Provenance)>, ip: IpAddr)
    requires AllInWidth(a) && AllInWidth(b)
    ensures AllInWidth(a + b)
    ensures FirstRange(a + b, ip) == if FirstRange(a, ip).Some? then FirstRange(a, ip) else FirstRange(b, ip)
    decreases |a|
  {
    hide Contains, InWidth;
    if a == [] {
      assert a + b == b;
    } else {
      assert (a + b)[1..] == a[1..] + b;
      FirstRangeConcat(a[1..], b, ip);
    }
  }

  /** A merged set reports for an address the incoming exact entry, else what the old set reports, else the incoming range. */
  lemma MergedIps(h: Holdings, other: Holdings, ip: IpAddr)
    requires AllInWidth(h.cidrs) && AllInWidth(other.cidrs)
    ensures AllInWidth(Merge(h, other).cidrs)
    ensures MatchIp(Merge(h, other), ip)
            == if ip in other.ips || MatchIp(h, ip).None? then MatchIp(other, ip) else MatchIp(h, ip)
  {
    FirstRangeConcat(h.cidrs, other.cidrs, ip);
  }
}
