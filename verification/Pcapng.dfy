/** What a pcapng section says of its interfaces and packets (draft-ietf-opsawg-pcapng, sections 4.2 and 4.3). */
module Pcapng {
  import opened Wrappers
  import opened Words
  import opened Clock
  import opened Capture
  import opened Division

  const DEFAULT_RESOLUTION: u64 := 1_000_000
  const IF_TSRESOL: u16 := 9
  const END_OF_OPTIONS: u16 := 0

  // ---------------------------------------------------------------------------------------------------------------
  // Timestamp resolutions
  // ---------------------------------------------------------------------------------------------------------------

  /** `saturating_pow` on 64 bits. */
  function SaturatingPow(base: nat, exp: nat): u64 {
    if Pow(base, exp) < TWO64 then Pow(base, exp) else TWO64 - 1
  }

  /** `checked_pow` on 64 bits. */
  function CheckedPow(base: nat, exp: nat): Option<u64> {
    if Pow(base, exp) < TWO64 then Some(Pow(base, exp)) else None
  }

  /** The resolution an `if_tsresol` byte gives: a power of two when its high bit is set, else of ten. */
  function ResolutionOf(raw: byte): u64 {
    var exp := raw % 0x80;
    if raw >= 0x80 then SaturatingPow(2, Min(exp, 63))
    else
      var power := CheckedPow(10, Min(exp, 18));
      if power.Some? then power.value else DEFAULT_RESOLUTION
  }

  lemma LargestPowers()
    ensures Pow(2, 63) == TWO63 && Pow(10, 18) == 1_000_000_000_000_000_000
  {
    assert Pow(2, 12) == 0x1000 && Pow(2, 24) == 0x100_0000 && Pow(2, 36) == 0x10_0000_0000;
    assert Pow(2, 48) == 0x1_0000_0000_0000 && Pow(2, 60) == 0x1000_0000_0000_0000;
    assert Pow(10, 6) == 1_000_000 && Pow(10, 12) == 1_000_000_000_000;
  }

  /** The base, the exponent, and the largest exponent that counts. */
  function BaseNamed(raw: byte): nat {
    if raw >= 128 then 2 else 10
  }

  function ExponentNamed(raw: byte): nat {
    if raw >= 128 then raw - 128 else raw
  }

  function LargestExponent(raw: byte): nat {
    if raw >= 128 then 63 else 18
  }

  lemma ResolutionNamed(raw: byte)
    ensures ResolutionOf(raw) == Pow(BaseNamed(raw), Min(ExponentNamed(raw), LargestExponent(raw)))
    ensures 1 <= ResolutionOf(raw) <= TWO63
  {
    LargestPowers();
    var used := Min(ExponentNamed(raw), LargestExponent(raw));
    PowGrows(BaseNamed(raw), used, LargestExponent(raw));
    hide Pow;
    assert raw % 0x80 == ExponentNamed(raw);
  }

  /**
   A resolution is the power its byte names, of two when the high bit is set and else of ten, but never more than 2^63 or
   10^18; it is never zero.
   */
  lemma ResolutionMeaning(raw: byte)
    ensures 1 <= ResolutionOf(raw) <= TWO63
    ensures ResolutionOf(raw) == Pow(BaseNamed(raw), Min(ExponentNamed(raw), LargestExponent(raw)))
    ensures ResolutionOf(raw) == Pow(BaseNamed(raw), ExponentNamed(raw)) <==> ExponentNamed(raw) <= LargestExponent(raw)
  {
    hide ResolutionOf, Pow;
    ResolutionNamed(raw);
    PowGrows(BaseNamed(raw), Min(ExponentNamed(raw), LargestExponent(raw)), ExponentNamed(raw));
  }

  // ---------------------------------------------------------------------------------------------------------------
  // Interface options
  // ---------------------------------------------------------------------------------------------------------------

  function Read16(bigEndian: bool, b: seq<byte>, at: nat): u16
    requires at + 2 <= |b|
  {
    if bigEndian then Be16(b[at], b[at + 1]) else Be16(b[at + 1], b[at])
  }

  function Stored16(bigEndian: bool, v: u16): (b: seq<byte>)
    ensures |b| == 2
  {
    if bigEndian then [v / 0x100, v % 0x100] else [v % 0x100, v / 0x100]
  }

  datatype Interface = Interface(link: LinkType, resolution: u64)

  /** The bytes of an option's value with its padding. */
  function Padded(len: nat): (n: nat)
    ensures len <= n < len + 4 && n % 4 == 0
  {
    (len + 3) / 4 * 4
  }

  /** The option walk of `parse_idb`, from one offset on. */
  function WalkOptions(bigEndian: bool, body: seq<byte>, off: nat, resolution: u64): u64
    decreases |body| - off
  {
    if off + 4 > |body| then resolution
    else
      var code, len := Read16(bigEndian, body, off), Read16(bigEndian, body, off + 2);
      if off + 4 + len > |body| then resolution
      else
        var seen := if code == IF_TSRESOL && len == 1 then ResolutionOf(body[off + 4]) else resolution;
        if code == END_OF_OPTIONS then seen else WalkOptions(bigEndian, body, off + 4 + Padded(len), seen)
  }

  /** `parse_idb`. */
  function ParseIdb(bigEndian: bool, body: seq<byte>): Result<Interface, CaptureError> {
    if |body| < 8 then Err(Malformed(ShortInterface))
    else
      var resolution := WalkOptions(bigEndian, body, 8, DEFAULT_RESOLUTION);
      Ok(Interface(LinkFromU32(Read16(bigEndian, body, 0)), if resolution == 0 then DEFAULT_RESOLUTION else resolution))
  }

  lemma {:induction false} WalkedResolution(bigEndian: bool, body: seq<byte>, off: nat, resolution: u64)
    requires 1 <= resolution <= TWO63
    ensures 1 <= WalkOptions(bigEndian, body, off, resolution) <= TWO63
    decreases |body| - off
  {
    hide ResolutionOf, Padded, Read16;
    if off + 4 <= |body| {
      var code, len := Read16(bigEndian, body, off), Read16(bigEndian, body, off + 2);
      if off + 4 + len <= |body| {
        var seen := resolution;
        if code == IF_TSRESOL && len == 1 {
          ResolutionMeaning(body[off + 4]);
          seen := ResolutionOf(body[off + 4]);
        }
        WalkedResolution(bigEndian, body, off + 4 + Padded(len), seen);
      }
    }
  }

  /** Whatever the bytes, an interface's resolution is a divisor a timestamp can be divided by. */
  lemma ResolutionInRange(bigEndian: bool, body: seq<byte>)
    ensures var r := ParseIdb(bigEndian, body);
            && (r.Ok? <==> |body| >= 8)
            && (r.Ok? ==> 1 <= r.value.resolution <= TWO63)
  {
    hide WalkOptions;
    if |body| >= 8 {
      WalkedResolution(bigEndian, body, 8, DEFAULT_RESOLUTION);
    }
  }

  /** An option as it was written: any code but the end marker, a value, and filling up to a multiple of four. */
  datatype Choice = Choice(code: u16, value: seq<byte>, filling: seq<byte>)

  ghost predicate Encodable(o: Choice) {
    o.code != 0 && |o.value| < 0x1_0000 && |o.value| + |o.filling| == Padded(|o.value|)
  }

  ghost predicate AllEncodable(os: seq<Choice>) {
    forall i :: 0 <= i < |os| ==> Encodable(os[i])
  }

  function ChoiceBytes(bigEndian: bool, o: Choice): seq<byte>
    requires |o.value| < 0x1_0000
  {
    Stored16(bigEndian, o.code) + Stored16(bigEndian, |o.value|) + o.value + o.filling
  }

  function ChoicesBytes(bigEndian: bool, os: seq<Choice>): seq<byte>
    requires AllEncodable(os)
  {
    if os == [] then [] else ChoiceBytes(bigEndian, os[0]) + ChoicesBytes(bigEndian, os[1..])
  }

  /** Where the walk stops: too little left, an end marker, or an option that does not fit. */
  predicate Ends(bigEndian: bool, tail: seq<byte>) {
    |tail| < 4 || Read16(bigEndian, tail, 0) == 0 || 4 + Read16(bigEndian, tail, 2) > |tail|
  }

  predicate NamesResolution(o: Choice) {
    o.code == 9 && |o.value| == 1
  }

  /** The last well-formed `if_tsresol` decides. */
  function Declared(os: seq<Choice>, otherwise: u64): u64 {
    if os == [] then otherwise
    else
      var last := os[|os| - 1];
      if NamesResolution(last) then ResolutionOf(last.value[0]) else Declared(os[..|os| - 1], otherwise)
  }

  lemma {:induction false} DeclaredCons(o: Choice, os: seq<Choice>, otherwise: u64)
    ensures Declared([o] + os, otherwise) == Declared(os, Declared([o], otherwise))
    decreases |os|
  {
    hide ResolutionOf;
    if os == [] {
      assert [o] + os == [o];
    } else {
      assert ([o] + os)[..|os|] == [o] + os[..|os| - 1];
      DeclaredCons(o, os[..|os| - 1], otherwise);
    }
  }

  lemma Stored16IsRead(bigEndian: bool, v: u16, b: seq<byte>, at: nat)
    requires at + 2 <= |b| && b[at..at + 2] == Stored16(bigEndian, v)
    ensures Read16(bigEndian, b, at) == v
  {
    assert b[at] == b[at..at + 2][0] && b[at + 1] == b[at..at + 2][1];
  }

  lemma ChoiceRead(bigEndian: bool, o: Choice, body: seq<byte>, off: nat, rest: seq<byte>)
    requires Encodable(o) && off <= |body| && body[off..] == ChoiceBytes(bigEndian, o) + rest
    ensures off + 4 + Padded(|o.value|) <= |body| && body[off + 4 + Padded(|o.value|)..] == rest
    ensures Read16(bigEndian, body, off) == o.code && Read16(bigEndian, body, off + 2) == |o.value|
    ensures o.value != [] ==> body[off + 4] == o.value[0]
  {
    hide Read16, Stored16, Padded;
    var b := body[off..];
    assert |b| == 4 + Padded(|o.value|) + |rest|;
    assert b[0..2] == Stored16(bigEndian, o.code) && b[2..4] == Stored16(bigEndian, |o.value|);
    assert body[off..off + 2] == b[0..2] && body[off + 2..off + 4] == b[2..4];
    Stored16IsRead(bigEndian, o.code, body, off);
    Stored16IsRead(bigEndian, |o.value|, body, off + 2);
    assert b[4 + Padded(|o.value|)..] == rest;
    if o.value != [] {
      assert body[off + 4] == b[4];
    }
  }

  lemma EncodableParts(o: Choice)
    requires Encodable(o)
    ensures o.code != 0 && |o.value| < 0x1_0000
  {
  }

  /** The walk finds exactly what the options declare, wherever they stand and whatever follows their end. */
  lemma {:induction false} OptionsMeaning(bigEndian: bool, os: seq<Choice>, tail: seq<byte>, body: seq<byte>, off: nat, resolution: u64)
    requires AllEncodable(os) && Ends(bigEndian, tail)
    requires off <= |body| && body[off..] == ChoicesBytes(bigEndian, os) + tail
    ensures WalkOptions(bigEndian, body, off, resolution) == Declared(os, resolution)
    decreases |os|
  {
    hide ResolutionOf, Encodable, Padded, ChoiceBytes, Read16;
    if os == [] {
      WalkEnds(bigEndian, tail, body, off, resolution);
    } else {
      var rest := ChoicesBytes(bigEndian, os[1..]) + tail;
      EncodableParts(os[0]);
      assert body[off..] == ChoiceBytes(bigEndian, os[0]) + rest;
      ChoiceRead(bigEndian, os[0], body, off, rest);
      var seen := Declared([os[0]], resolution);
      OptionsMeaning(bigEndian, os[1..], tail, body, off + 4 + Padded(|os[0].value|), seen);
      DeclaredCons(os[0], os[1..], resolution);
      assert [os[0]] + os[1..] == os;
    }
  }

  lemma WalkEnds(bigEndian: bool, tail: seq<byte>, body: seq<byte>, off: nat, resolution: u64)
    requires Ends(bigEndian, tail) && off <= |body| && body[off..] == tail
    ensures WalkOptions(bigEndian, body, off, resolution) == resolution
  {
    if off + 4 <= |body| {
      assert body[off] == tail[0] && body[off + 1] == tail[1] && body[off + 2] == tail[2] && body[off + 3] == tail[3];
    }
  }

  // ---------------------------------------------------------------------------------------------------------------
  // Packet timestamps
  // ---------------------------------------------------------------------------------------------------------------

  /** `as i64`. */
  function Signed64(n: u64): int {
    if n < TWO63 then n else n - TWO64
  }

  /** The timestamp `parse_epb` makes of a count of ticks. */
  function TimeOfTicks(ticks: u64, resolution: u64): Timestamp
    requires resolution >= 1
  {
    At(Signed64(ticks / resolution), Wrap32(ticks % resolution * BILLION / resolution))
  }

  /** Scaling the whole part and the remainder apart loses nothing. */
  lemma ScaledApart(q: nat, f: nat, r: nat)
    requires r >= 1 && f < r
    ensures (q * r + f) * BILLION / r == q * BILLION + f * BILLION / r
    ensures f * BILLION / r < BILLION
  {
    var scaled := f * BILLION;
    DivisionLaw(scaled, r);
    var part, left := scaled / r, scaled % r;
    assert q * r * BILLION == q * BILLION * r;
    assert (q * BILLION + part) * r == q * BILLION * r + part * r;
    QuotientOf((q * r + f) * BILLION, r, q * BILLION + part, left);
    if BILLION <= part {
      ProductGrows(BILLION, part, r);
    }
  }

  /** The time in nanoseconds. */
  function Nanos(t: Timestamp): int {
    t.secs * BILLION + t.nanos
  }

  /**
   A timestamp is the exact time in nanoseconds, rounded down, unless its seconds pass the signed range, which only a
   resolution of one tick a second allows.
   */
  lemma TicksExact(ticks: u64, resolution: u64)
    requires resolution >= 1
    ensures TimeOfTicks(ticks, resolution).nanos < BILLION
    ensures Nanos(TimeOfTicks(ticks, resolution)) == ticks * BILLION / resolution <==> resolution >= 2 || ticks < TWO63
  {
    hide At, Signed64;
    DivisionLaw(ticks, resolution);
    ScaledApart(ticks / resolution, ticks % resolution, resolution);
    SecondsExact(ticks, resolution);
  }

  lemma SecondsExact(ticks: u64, resolution: u64)
    requires resolution >= 1
    ensures 0 <= ticks / resolution < TWO64
    ensures Signed64(ticks / resolution) == ticks / resolution <==> resolution >= 2 || ticks < TWO63
  {
    DivisionLaw(ticks, resolution);
    if resolution >= 2 {
      ProductGrows(2, resolution, ticks / resolution);
    }
  }

  /** Time does not run backwards within an interface. */
  lemma TicksMonotone(earlier: u64, later: u64, resolution: u64)
    requires resolution >= 1 && earlier <= later && (resolution >= 2 || later < TWO63)
    ensures Nanos(TimeOfTicks(earlier, resolution)) <= Nanos(TimeOfTicks(later, resolution))
  {
    hide TimeOfTicks, Nanos;
    TicksExact(earlier, resolution);
    TicksExact(later, resolution);
    QuotientMonotone(earlier * BILLION, later * BILLION, resolution);
  }

  /** It never does, whatever the ticks, exactly when the resolution is more than one tick a second. */
  lemma MonotoneExactly(resolution: u64)
    requires resolution >= 1
    ensures (forall earlier: u64, later: u64 :: earlier <= later ==> InOrder(earlier, later, resolution)) <==> resolution >= 2
  {
    hide TimeOfTicks, Nanos;
    if resolution >= 2 {
      forall earlier: u64, later: u64 ensures earlier <= later ==> InOrder(earlier, later, resolution) {
        if earlier <= later {
          TicksMonotone(earlier, later, resolution);
        }
      }
    } else {
      OneTickASecondWraps();
      assert !InOrder(0, TWO63, 1);
    }
  }

  ghost predicate InOrder(earlier: u64, later: u64, resolution: u64)
    requires resolution >= 1
  {
    Nanos(TimeOfTicks(earlier, resolution)) <= Nanos(TimeOfTicks(later, resolution))
  }

  /** At one tick a second the time 2^63 ticks after zero is before it. */
  lemma OneTickASecondWraps()
    ensures Nanos(TimeOfTicks(TWO63, 1)) < Nanos(TimeOfTicks(0, 1)) == 0
  {
  }

  // ---------------------------------------------------------------------------------------------------------------
  // Enhanced packet blocks
  // ---------------------------------------------------------------------------------------------------------------

  function ResolutionFor(interfaces: seq<Interface>, id: u32): u64 {
    if id < |interfaces| then interfaces[id].resolution else DEFAULT_RESOLUTION
  }

  ghost predicate Usable(interfaces: seq<Interface>) {
    forall i :: 0 <= i < |interfaces| ==> 1 <= interfaces[i].resolution <= TWO63
  }

  /** `parse_epb`: the index after it, and the packet. */
  function ParseEpb(bigEndian: bool, interfaces: seq<Interface>, index: nat, body: seq<byte>): (nat, Result<RawPacket, CaptureError>)
    requires Usable(interfaces)
  {
    if |body| < 20 then (index, Err(Malformed(ShortPacket)))
    else
      var ticks := Read32(bigEndian, body, 4) * TWO32 + Read32(bigEndian, body, 8);
      var capLen, wireLen := Read32(bigEndian, body, 12), Read32(bigEndian, body, 16);
      if capLen > MAX_PACKET_BYTES then (index + 1, Err(ImplausibleLength(index + 1, capLen)))
      else if 20 + capLen > |body| then (index + 1, Err(Malformed(Overlong(index + 1, capLen, |body| - 20))))
      else
        var at := TimeOfTicks(ticks, ResolutionFor(interfaces, Read32(bigEndian, body, 0)));
        (index + 1, Ok(NewPacket(index + 1, at, Max(wireLen, capLen), body[20..20 + capLen])))
  }
}
