/** Address prefixes as octets and as numbers. */
module OctetBits {

  /** The octet of a number, bit by bit. */
  function ToOctet(v: nat): bv8 {
    if v == 0 then 0 else (ToOctet(v / 2) << 1) | (if v % 2 == 1 then 1 else 0)
  }

  lemma HalfShift(x: bv8)
    ensures (x >> 1) as int == x as int / 2
  {
  }

  lemma LowBit(x: bv8)
    ensures x as int % 2 == if x & 1 == 1 then 1 else 0
  {
  }

  lemma HighBit(x: bv8)
    ensures x as int < 128 <==> x < 0x80
  {
  }

  lemma Appended(x: bv8, b: bv8)
    requires x < 0x80 && b <= 1
    ensures ((x << 1) | b) >> 1 == x && ((x << 1) | b) & 1 == b
  {
  }

  lemma {:induction false} OctetBack(v: nat)
    requires v < 256
    ensures ToOctet(v) as int == v
    decreases v
  {
    if v > 0 {
      OctetBack(v / 2);
      var x, b: bv8 := ToOctet(v / 2), if v % 2 == 1 then 1 else 0;
      HighBit(x);
      Appended(x, b);
      HalfShift((x << 1) | b);
      LowBit((x << 1) | b);
    }
  }
}

/** Address prefixes: comparing octets under a mask is comparing the numbers they spell (section 3.1 of RFC 4632). */
module Prefixes {
  import opened Division
  import opened Net
  import opened OctetBits

  /** The octets of a number, most significant first. */
  function Octets(v: nat, n: nat): (s: seq<bv8>)
    ensures |s| == n
  {
    if n == 0 then [] else Octets(v / 256, n - 1) + [ToOctet(v % 256)]
  }

  /** The number some octets spell. */
  function Value(s: seq<bv8>): nat {
    if s == [] then 0 else Value(s[..|s| - 1]) * 256 + s[|s| - 1] as int
  }

  function Mask(rem: nat): bv8
    requires 1 <= rem <= 7
  {
    0xff << (8 - rem)
  }

  predicate MaskedSame(x: bv8, y: bv8, rem: nat)
    requires 1 <= rem <= 7
  {
    x & Mask(rem) == y & Mask(rem)
  }

  /** `prefix_eq`: whole octets first, then the high bits of the next. */
  predicate PrefixEq(a: seq<bv8>, b: seq<bv8>, prefix: nat)
    requires |a| == |b| && prefix <= 8 * |a|
  {
    var full, rem := prefix / 8, prefix % 8;
    if a[..full] != b[..full] then false
    else if rem == 0 then true
    else MaskedSame(a[full], b[full], rem)
  }

  // ---------------------------------------------------------------------------------------------------------------
  // Octets and numbers
  // ---------------------------------------------------------------------------------------------------------------

  /** Octets spell the number they were made of, when it fits. */
  lemma {:induction false} OctetsSpell(v: nat, n: nat)
    requires v < Pow(256, n)
    ensures Value(Octets(v, n)) == v
    decreases n
  {
    if n > 0 {
      assert v / 256 < Pow(256, n - 1);
      OctetsSpell(v / 256, n - 1);
      OctetBack(v % 256);
      var s := Octets(v, n);
      assert s[..n - 1] == Octets(v / 256, n - 1);
    }
  }

  /** Equally many octets spell the same number only when they are the same. */
  lemma {:induction false} ValueInjective(a: seq<bv8>, b: seq<bv8>)
    requires |a| == |b|
    ensures Value(a) == Value(b) <==> a == b
    decreases |a|
  {
    if a != [] {
      var n := |a| - 1;
      ValueInjective(a[..n], b[..n]);
      assert a == a[..n] + [a[n]] && b == b[..n] + [b[n]];
      assert Value(a) == Value(b) ==> Value(a[..n]) == Value(b[..n]) && a[n] == b[n];
    }
  }

  /** Dividing by a power of 256 drops octets from the end. */
  lemma {:induction false} DroppedOctets(a: seq<bv8>, k: nat)
    requires k <= |a|
    ensures Pow(256, |a| - k) >= 1 && Value(a) / Pow(256, |a| - k) == Value(a[..k])
    decreases |a| - k
  {
    PowGrows(256, 0, |a| - k);
    if k == |a| {
      assert a[..k] == a;
    } else {
      var n := |a| - 1;
      DroppedOctets(a[..n], k);
      assert a[..n][..k] == a[..k];
      DivisionTwice(Value(a), 256, Pow(256, n - k));
      assert Value(a) / 256 == Value(a[..n]);
    }
  }

  lemma PowOfOctets(n: nat)
    ensures Pow(2, 8 * n) == Pow(256, n)
    decreases n
  {
    if n > 0 {
      PowOfOctets(n - 1);
      PowSum(2, 8, 8 * (n - 1));
      assert Pow(2, 8) == 256;
    }
  }

  // ---------------------------------------------------------------------------------------------------------------
  // The mask
  // ---------------------------------------------------------------------------------------------------------------

  lemma MaskIsShift(x: bv8, y: bv8, rem: nat)
    requires 1 <= rem <= 7
    ensures x & Mask(rem) == y & Mask(rem) <==> x >> (8 - rem) == y >> (8 - rem)
  {
    if rem == 1 {} else if rem == 2 {} else if rem == 3 {} else if rem == 4 {} else if rem == 5 {} else if rem == 6 {} else {}
  }

  lemma MaskedMeansShifted(x: bv8, y: bv8, rem: nat)
    requires 1 <= rem <= 7
    ensures MaskedSame(x, y, rem) <==> x >> (8 - rem) == y >> (8 - rem)
  {
    hide Mask;
    MaskIsShift(x, y, rem);
  }

  lemma ShiftStep(x: bv8, k: nat)
    requires 1 <= k <= 7
    ensures x >> k == (x >> (k - 1)) >> 1
  {
    if k == 1 {} else if k == 2 {} else if k == 3 {} else if k == 4 {} else if k == 5 {} else if k == 6 {} else {}
  }

  lemma HalfOfQuotient(n: nat, k: nat)
    requires k >= 1
    ensures Pow(2, k - 1) >= 1 && Pow(2, k) >= 1 && n / Pow(2, k - 1) / 2 == n / Pow(2, k)
  {
    PowGrows(2, 0, k - 1);
    DivisionTwice(n, Pow(2, k - 1), 2);
  }

  lemma {:induction false} ShiftIsDivision(x: bv8, k: nat)
    requires k <= 7
    ensures Pow(2, k) >= 1 && (x >> k) as int == x as int / Pow(2, k)
    decreases k
  {
    if k > 0 {
      ShiftIsDivision(x, k - 1);
      ShiftStep(x, k);
      HalfShift(x >> (k - 1));
      HalfOfQuotient(x as int, k);
    } else {
      assert x >> 0 == x;
    }
  }

  // ---------------------------------------------------------------------------------------------------------------
  // Prefixes
  // ---------------------------------------------------------------------------------------------------------------

  lemma HighPart(head: nat, x: nat, unit: nat, scale: nat)
    requires unit >= 1 && scale * unit == 256 && x < 256
    ensures (head * 256 + x) / unit == head * scale + x / unit && x / unit < scale
  {
    DivisionLaw(x, unit);
    var high, low := x / unit, x % unit;
    assert head * 256 == head * scale * unit;
    assert (head * scale + high) * unit == head * scale * unit + high * unit;
    QuotientOf(head * 256 + x, unit, head * scale + high, low);
    if scale <= high {
      ProductGrows(scale, high, unit);
    }
  }

  lemma UnitAndScale(rem: nat)
    requires 1 <= rem <= 7
    ensures Pow(2, 8 - rem) >= 1 && Pow(2, rem) * Pow(2, 8 - rem) == 256
  {
    PowGrows(2, 0, 8 - rem);
    PowSum(2, rem, 8 - rem);
    assert Pow(2, 8) == 256;
  }

  /** The high bits of a number one octet longer: the old number, and the high bits of the octet. */
  lemma HighBits(head: nat, x: bv8, rem: nat)
    requires 1 <= rem <= 7
    ensures Pow(2, 8 - rem) >= 1
    ensures (head * 256 + x as int) / Pow(2, 8 - rem) == head * Pow(2, rem) + (x >> (8 - rem)) as int
    ensures (x >> (8 - rem)) as int < Pow(2, rem)
  {
    hide Pow;
    UnitAndScale(rem);
    ShiftIsDivision(x, 8 - rem);
    HighPart(head, x as int, Pow(2, 8 - rem), Pow(2, rem));
  }

  /** Two masked octets after equal numbers of octets agree with the numbers cut in the middle of the octet. */
  lemma PartialOctet(a: nat, b: nat, x: bv8, y: bv8, rem: nat)
    requires 1 <= rem <= 7
    ensures Pow(2, 8 - rem) >= 1
    ensures (a * 256 + x as int) / Pow(2, 8 - rem) == (b * 256 + y as int) / Pow(2, 8 - rem)
            <==> a == b && MaskedSame(x, y, rem)
  {
    hide MaskedSame, Pow;
    HighBits(a, x, rem);
    HighBits(b, y, rem);
    MaskedMeansShifted(x, y, rem);
    var p, q := x >> (8 - rem), y >> (8 - rem);
    SameNumber(p, q);
    SamePair(Pow(2, rem), a, p as int, b, q as int);
  }

  lemma SamePair(scale: nat, a: nat, p: nat, b: nat, q: nat)
    requires p < scale && q < scale
    ensures a * scale + p == b * scale + q <==> a == b && p == q
  {
    if a * scale + p == b * scale + q {
      OneQuotient(scale, a, p, b, q);
    }
  }

  lemma SameNumber(p: bv8, q: bv8)
    ensures p as int == q as int <==> p == q
  {
  }

  /** How far a prefix of `prefix` bits of `n` octets is from the end, in bits. */
  function Below(n: nat, prefix: nat): nat
    requires prefix <= 8 * n
  {
    8 * n - prefix
  }

  lemma WholeOctets(a: seq<bv8>, b: seq<bv8>, full: nat)
    requires |a| == |b| && full <= |a|
    ensures Pow(2, 8 * (|a| - full)) >= 1
    ensures Value(a) / Pow(2, 8 * (|a| - full)) == Value(b) / Pow(2, 8 * (|a| - full)) <==> a[..full] == b[..full]
  {
    hide Value, Pow;
    PowOfOctets(|a| - full);
    DroppedOctets(a, full);
    DroppedOctets(b, full);
    ValueInjective(a[..full], b[..full]);
  }

  lemma SplitOctet(a: seq<bv8>, b: seq<bv8>, full: nat, rem: nat)
    requires |a| == |b| && full < |a| && 1 <= rem <= 7
    ensures Pow(2, 8 * |a| - (8 * full + rem)) >= 1
    ensures Value(a) / Pow(2, 8 * |a| - (8 * full + rem)) == Value(b) / Pow(2, 8 * |a| - (8 * full + rem))
            <==> a[..full] == b[..full] && MaskedSame(a[full], b[full], rem)
  {
    hide Value, Pow, MaskedSame;
    CutInOctet(a, full, rem);
    CutInOctet(b, full, rem);
    ValueInjective(a[..full], b[..full]);
    PartialOctet(Value(a[..full]), Value(b[..full]), a[full], b[full], rem);
  }

  /**
   Octets share a prefix exactly when the numbers they spell agree after division by two to the bits below the prefix.
   */
  lemma PrefixMeaning(a: seq<bv8>, b: seq<bv8>, prefix: nat)
    requires |a| == |b| && prefix <= 8 * |a|
    ensures Pow(2, Below(|a|, prefix)) >= 1
    ensures PrefixEq(a, b, prefix)
            <==> Value(a) / Pow(2, Below(|a|, prefix)) == Value(b) / Pow(2, Below(|a|, prefix))
  {
    hide MaskedSame, Value, Pow;
    var full, rem := prefix / 8, prefix % 8;
    if rem == 0 {
      assert Below(|a|, prefix) == 8 * (|a| - full);
      WholeOctets(a, b, full);
    } else {
      assert Below(|a|, prefix) == 8 * |a| - (8 * full + rem);
      SplitOctet(a, b, full, rem);
    }
  }

  lemma CutInOctet(a: seq<bv8>, full: nat, rem: nat)
    requires full < |a| && 1 <= rem <= 7
    ensures Pow(2, 8 * |a| - (8 * full + rem)) >= 1 && Pow(2, 8 - rem) >= 1
    ensures Value(a) / Pow(2, 8 * |a| - (8 * full + rem)) == (Value(a[..full]) * 256 + a[full] as int) / Pow(2, 8 - rem)
  {
    var whole := 8 * (|a| - full - 1);
    PowGrows(2, 0, 8 - rem);
    PowOfOctets(|a| - full - 1);
    PowSum(2, whole, 8 - rem);
    DroppedOctets(a, full + 1);
    DivisionTwice(Value(a), Pow(2, whole), Pow(2, 8 - rem));
    var head := a[..full + 1];
    assert head[..full] == a[..full] && head[full] == a[full];
  }

  // ---------------------------------------------------------------------------------------------------------------
  // Ranges of addresses
  // ---------------------------------------------------------------------------------------------------------------

  /** The octets of an address. */
  function OctetsOf(ip: IpAddr): (s: seq<bv8>)
    ensures |s| == Width(ip) / 8
  {
    match ip
    case V4(v) => Octets(v, 4)
    case V6(v) => Octets(v, 16)
  }

  /** The bits of an address. */
  function Width(ip: IpAddr): nat {
    if ip.V4? then 32 else 128
  }

  function Number(ip: IpAddr): nat {
    match ip
    case V4(v) => v
    case V6(v) => v
  }

  lemma OctetsOfSpell(ip: IpAddr)
    ensures Value(OctetsOf(ip)) == Number(ip)
  {
    assert Pow(256, 4) == 0x1_0000_0000 && Pow(256, 8) == 0x1_0000_0000_0000_0000 && Pow(256, 12) == 0x1_0000_0000_0000_0000_0000_0000;
    assert Pow(256, 16) == 0x1_0000_0000_0000_0000_0000_0000_0000_0000;
    OctetsSpell(Number(ip), Width(ip) / 8);
  }
}
