/** What a token is, told by its characters, and which spellings of a name are one name. */
module IndicatorKinds {
  import opened Wrappers
  import opened Net
  import opened Indicators

  // ---------------------------------------------------------------------------------------------------------------
  // Spellings
  // ---------------------------------------------------------------------------------------------------------------

  /** An ASCII capital, 65 to 90, has its small letter 32 further on. */
  predicate SmallOf(small: char, c: char) {
    small as int == c as int + if 65 <= c as int <= 90 then 32 else 0
  }

  /** The same text in small letters. */
  ghost predicate InSmall(small: string, text: string) {
    |small| == |text| && forall i :: 0 <= i < |text| ==> SmallOf(small[i], text[i])
  }

  /** Two texts differ in the case of their letters at most. */
  ghost predicate SameButCase(a: string, b: string) {
    exists small :: InSmall(small, a) && InSmall(small, b)
  }

  /** The first `n` characters, when only dots follow them and they end in none. */
  ghost predicate EndsAt(text: string, n: nat) {
    n <= |text| && (forall i :: n <= i < |text| ==> text[i] == '.') && (n > 0 ==> text[n - 1] != '.')
  }

  /** `d` is how a set holds the name `text`: without the dots at its end, in small letters. */
  ghost predicate NormalForm(d: string, text: string) {
    exists n: nat :: EndsAt(text, n) && InSmall(d, text[..n])
  }

  lemma LowerIsSmall(small: string, text: string)
    ensures InSmall(small, text) <==> small == Lower(text)
  {
  }

  lemma {:induction false} TrimEndsAt(text: string)
    ensures |TrimDots(text)| <= |text| && TrimDots(text) == text[..|TrimDots(text)|] && EndsAt(text, |TrimDots(text)|)
    decreases |text|
  {
    if text != [] && text[|text| - 1] == '.' {
      var shorter := text[..|text| - 1];
      TrimEndsAt(shorter);
      var n := |TrimDots(shorter)|;
      assert shorter[..n] == text[..n];
      forall i | n <= i < |text| ensures text[i] == '.' {
        assert i < |shorter| ==> shorter[i] == '.';
      }
    }
  }

  lemma OneEnd(text: string, m: nat, n: nat)
    requires EndsAt(text, m) && EndsAt(text, n)
    ensures m == n
  {
  }

  /** The program's normal form is the name's. */
  lemma CanonicalIsNormal(d: string, text: string)
    ensures d == Canonical(text) <==> NormalForm(d, text)
  {
    hide TrimDots, InSmall, Lower;
    TrimEndsAt(text);
    LowerIsSmall(d, TrimDots(text));
    if n: nat :| EndsAt(text, n) && InSmall(d, text[..n]) {
      OneEnd(text, n, |TrimDots(text)|);
    }
  }

  /** Two names have one normal form exactly when, without the dots at their ends, they differ in case at most. */
  lemma OneNormalForm(a: string, b: string)
    ensures Canonical(a) == Canonical(b) <==> exists m: nat, n: nat :: EndsAt(a, m) && EndsAt(b, n) && SameButCase(a[..m], b[..n])
  {
    hide Canonical, InSmall;
    CanonicalIsNormal(Canonical(a), a);
    CanonicalIsNormal(Canonical(b), b);
    if m: nat, n: nat :| EndsAt(a, m) && EndsAt(b, n) && SameButCase(a[..m], b[..n]) {
      var small :| InSmall(small, a[..m]) && InSmall(small, b[..n]);
      CanonicalIsNormal(small, a);
      CanonicalIsNormal(small, b);
    }
  }

  // ---------------------------------------------------------------------------------------------------------------
  // Kinds
  // ---------------------------------------------------------------------------------------------------------------

  /** A token with a slash, whose parts are an address and a prefix within the address's 32 or 128 bits. */
  ghost predicate RangeToken(t: Token, c: Cidr) {
    && '/' in t.text && t.network == Some(c.base) && t.bits == Some(c.prefix) && c.text == t.text
    && c.prefix <= (if c.base.V4? then 32 else 128)
  }

  ghost predicate IpToken(t: Token, ip: IpAddr) {
    '/' !in t.text && t.address == Some(ip)
  }

  /** A digit, or a letter from A to F or a to f. */
  predicate HexCode(n: int) {
    48 <= n <= 57 || 65 <= n <= 70 || 97 <= n <= 102
  }

  ghost predicate HashText(text: string) {
    |text| == 32 && forall i :: 0 <= i < 32 ==> HexCode(text[i] as int)
  }

  /** Thirty-two hexadecimal digits, held in small letters. */
  ghost predicate HashToken(t: Token, hash: string) {
    '/' !in t.text && t.address.None? && HashText(t.text) && InSmall(hash, t.text)
  }

  /** A small letter, a digit, a hyphen or a dot. */
  predicate HostCode(n: int) {
    97 <= n <= 122 || 48 <= n <= 57 || n == 45 || n == 46
  }

  /** Anything else whose normal form has a dot and consists of letters, digits, hyphens and dots. */
  ghost predicate DomainToken(t: Token, d: string) {
    && '/' !in t.text && t.address.None? && !HashText(t.text)
    && NormalForm(d, t.text) && '.' in d && forall i :: 0 <= i < |d| ==> HostCode(d[i] as int)
  }

  lemma HashMeans(text: string)
    ensures IsJa3(text) <==> HashText(text)
  {
  }

  lemma SmallHasNoCapital(d: string, text: string)
    requires NormalForm(d, text)
    ensures forall i :: 0 <= i < |d| ==> !('A' <= d[i] <= 'Z')
  {
    var n: nat :| EndsAt(text, n) && InSmall(d, text[..n]);
    forall i | 0 <= i < |d| ensures !('A' <= d[i] <= 'Z') {
      assert SmallOf(d[i], text[..n][i]);
    }
  }

  lemma DomainMeans(text: string, d: string)
    ensures NormaliseDomain(text) == Some(d) <==>
            NormalForm(d, text) && '.' in d && forall i :: 0 <= i < |d| ==> HostCode(d[i] as int)
  {
    hide Canonical, NormalForm;
    CanonicalIsNormal(d, text);
    if NormalForm(d, text) {
      SmallHasNoCapital(d, text);
    }
  }

  lemma RangeMeans(t: Token, c: Cidr)
    ensures Classify(t) == IsRange(c) <==> RangeToken(t, c)
  {
    hide IsJa3, NormaliseDomain;
  }

  lemma IpMeans(t: Token, ip: IpAddr)
    ensures Classify(t) == IsIp(ip) <==> IpToken(t, ip)
  {
    hide IsJa3, NormaliseDomain, ParseCidr;
  }

  lemma HashTokenMeans(t: Token, hash: string)
    ensures Classify(t) == IsJa3Hash(hash) <==> HashToken(t, hash)
  {
    hide IsJa3, NormaliseDomain, ParseCidr, HashText, InSmall;
    HashMeans(t.text);
    LowerIsSmall(hash, t.text);
  }

  lemma DomainTokenMeans(t: Token, d: string)
    ensures Classify(t) == IsDomain(d) <==> DomainToken(t, d)
  {
    hide IsJa3, NormaliseDomain, ParseCidr, HashText, NormalForm;
    HashMeans(t.text);
    DomainMeans(t.text, d);
  }

  /** None of the four. */
  ghost predicate NoToken(t: Token) {
    && (forall c :: !RangeToken(t, c)) && (forall ip :: !IpToken(t, ip))
    && (forall hash :: !HashToken(t, hash)) && (forall d :: !DomainToken(t, d))
  }

  lemma NothingMeans(t: Token)
    ensures Classify(t) == IsNothing <==> NoToken(t)
  {
    hide Classify, RangeToken, IpToken, HashToken, DomainToken;
    forall c ensures Classify(t) == IsRange(c) <==> RangeToken(t, c) {
      RangeMeans(t, c);
    }
    forall ip ensures Classify(t) == IsIp(ip) <==> IpToken(t, ip) {
      IpMeans(t, ip);
    }
    forall hash ensures Classify(t) == IsJa3Hash(hash) <==> HashToken(t, hash) {
      HashTokenMeans(t, hash);
    }
    forall d ensures Classify(t) == IsDomain(d) <==> DomainToken(t, d) {
      DomainTokenMeans(t, d);
    }
  }

  /**
   What inserting does, told by the token's characters and what the library's parsers made of it: with room left, exactly
   one of five things, each adding what the token says under its provenance or, for a token of no kind, nothing; and
   nothing at all when four million indicators are held.
   */
  lemma InsertMeaning(h: Holdings, t: Token, p: Provenance)
    ensures var (h', r) := Insert(h, t, p);
            if Len(h) >= 4_000_000 then (h', r) == (h, Err(Full))
            else
              && (forall c :: RangeToken(t, c) ==> r == Ok(Range) && h' == h.(cidrs := h.cidrs + [(c, p)]))
              && (forall ip :: IpToken(t, ip) ==> r == Ok(Ip) && h' == h.(ips := h.ips[ip := p]))
              && (forall hash :: HashToken(t, hash) ==> r == Ok(Ja3) && h' == h.(ja3 := h.ja3[hash := p]))
              && (forall d :: DomainToken(t, d) ==> r == Ok(Domain) && h' == h.(domains := h.domains[d := p]))
              && (r == Err(Unrecognised) <==> NoToken(t)) && (NoToken(t) ==> h' == h)
  {
    hide Classify, RangeToken, IpToken, HashToken, DomainToken, NoToken, Len;
    forall c ensures Classify(t) == IsRange(c) <==> RangeToken(t, c) {
      RangeMeans(t, c);
    }
    forall ip ensures Classify(t) == IsIp(ip) <==> IpToken(t, ip) {
      IpMeans(t, ip);
    }
    forall hash ensures Classify(t) == IsJa3Hash(hash) <==> HashToken(t, hash) {
      HashTokenMeans(t, hash);
    }
    forall d ensures Classify(t) == IsDomain(d) <==> DomainToken(t, d) {
      DomainTokenMeans(t, d);
    }
    NothingMeans(t);
  }
}
