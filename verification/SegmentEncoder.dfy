/** Segments to data codewords: the smallest version that holds them, the
    highest level they still fit in, terminator and padding. */
module SegmentEncoder {
  import opened Arithmetic
  import opened BitStreams
  import opened GaloisField
  import opened Segments

  // Data codewords of a version (1 to 40) at a level (0 low to 3 high).
  type Capacity = (nat, nat) -> nat

  function SegmentBits(seg: Segment, version: nat): Bits
    requires 1 <= version <= 40
  {
    BitsOf(seg.mode.Indicator(), 4) + BitsOf(seg.numChars, seg.mode.CountBits(version)) + seg.data
  }

  function Stream(segs: seq<Segment>, version: nat): Bits
    requires 1 <= version <= 40
  {
    if segs == [] then [] else SegmentBits(segs[0], version) + Stream(segs[1..], version)
  }

  lemma {:induction false} StreamAppend(segs: seq<Segment>, seg: Segment, version: nat)
    requires 1 <= version <= 40
    ensures Stream(segs + [seg], version) == Stream(segs, version) + SegmentBits(seg, version)
  {
    hide SegmentBits;
    if segs == [] {
      assert (segs + [seg])[1..] == [];
    } else {
      assert (segs + [seg])[1..] == segs[1..] + [seg];
      StreamAppend(segs[1..], seg, version);
    }
  }

  predicate CountsFit(segs: seq<Segment>, version: nat)
    requires 1 <= version <= 40
  {
    forall i :: 0 <= i < |segs| ==> CountFits(segs[i], version)
  }

  predicate CountFits(seg: Segment, version: nat)
    requires 1 <= version <= 40
  {
    seg.numChars < Pow2(seg.mode.CountBits(version))
  }

  predicate Fits(segs: seq<Segment>, version: nat, bits: nat)
    requires 1 <= version <= 40
  {
    CountsFit(segs, version) && |Stream(segs, version)| <= INT_MAX && |Stream(segs, version)| <= bits
  }

  lemma StreamPrefix(segs: seq<Segment>, version: nat, i: nat)
    requires 1 <= version <= 40 && i < |segs|
    ensures Stream(segs[..i + 1], version) == Stream(segs[..i], version) + SegmentBits(segs[i], version)
  {
    assert segs[..i + 1] == segs[..i] + [segs[i]];
    StreamAppend(segs[..i], segs[i], version);
  }

  lemma {:induction false} StreamGrows(segs: seq<Segment>, version: nat, i: nat)
    requires 1 <= version <= 40 && i <= |segs|
    ensures |Stream(segs[..i], version)| <= |Stream(segs, version)|
    decreases |segs| - i
  {
    if i < |segs| {
      StreamGrows(segs, version, i + 1);
      StreamPrefix(segs, version, i);
    } else {
      assert segs[..i] == segs;
    }
  }

  /** The length of the bit string, or -1 when a count or the sum overflows. */
  method GetTotalBits(segs: seq<Segment>, version: nat) returns (result: int)
    requires 1 <= version <= 40
    ensures result == if Fits(segs, version, INT_MAX) then |Stream(segs, version)| else -1
  {
    hide Stream, Pow2;
    result := 0;
    assert segs[..0] == [] && |Stream([], version)| == 0 by { NoSegments(version); }
    for i := 0 to |segs|
      invariant 0 <= result <= INT_MAX && result == |Stream(segs[..i], version)|
      invariant forall k :: 0 <= k < i ==> CountFits(segs[k], version)
    {
      StreamPrefix(segs, version, i);
      StreamGrows(segs, version, i + 1);
      var ccbits := segs[i].mode.CountBits(version);
      if segs[i].numChars >= Pow2(ccbits) {
        assert !CountFits(segs[i], version);
        return -1;
      }
      if 4 + ccbits > INT_MAX - result {
        return -1;
      }
      result := result + 4 + ccbits;
      if |segs[i].data| > INT_MAX - result {
        return -1;
      }
      result := result + |segs[i].data|;
    }
    assert segs[..|segs|] == segs;
  }

  lemma NoSegments(version: nat)
    requires 1 <= version <= 40
    ensures Stream([], version) == []
  {
  }

  // -------------------------------------------------------------------
  // Terminator and padding
  // -------------------------------------------------------------------

  function Zeros(n: nat): (z: Bits)
    ensures |z| == n && forall i :: 0 <= i < n ==> !z[i]
  {
    seq(n, _ => false)
  }

  lemma {:induction false} ZeroBitsOf(n: nat)
    ensures BitsOf(0, n) == Zeros(n)
  {
    if n > 0 { ZeroBitsOf(n - 1); }
  }

  function PadBytes(n: nat): (bits: Bits)
    ensures |bits| == 8 * n
  {
    if n == 0 then [] else PadBytes(n - 1) + BitsOf(if n % 2 == 1 then 0xEC else 0x11, 8)
  }

  function Terminator(used: nat, capacity: nat): nat
    requires used <= capacity
  {
    if capacity - used < 4 then capacity - used else 4
  }

  function Aligned(n: nat): (m: nat)
    ensures n <= m < n + 8 && m % 8 == 0
  {
    n + (8 - n % 8) % 8
  }

  /** Terminator, zeros up to a byte, and pad bytes up to the capacity. */
  function Tail(used: nat, capacity: nat): (bits: Bits)
    requires used <= capacity && capacity % 8 == 0
    ensures |bits| == capacity - used
    ensures forall i :: 0 <= i < Terminator(used, capacity) ==> !bits[i]
  {
    var n := used + Terminator(used, capacity);
    Zeros(Terminator(used, capacity)) + Zeros(Aligned(n) - n) + PadBytes((capacity - Aligned(n)) / 8)
  }

  method AddTail(bits: Bits, dataCapacityBits: nat) returns (bb: Bits)
    requires |bits| <= dataCapacityBits && dataCapacityBits % 8 == 0
    ensures bb == bits + Tail(|bits|, dataCapacityBits)
  {
    hide BitsOf, Pow2, PadBytes, Zeros;
    PowersPositive();
    var room := dataCapacityBits - |bits|;
    var n := if room < 4 then room else 4;
    ZeroBitsOf(n);
    bb := AppendBits(bits, 0, n);
    var fill := (8 - |bb| % 8) % 8;
    ZeroBitsOf(fill);
    bb := AppendBits(bb, 0, fill);
    bb := AddPadBytes(bb, dataCapacityBits);
  }

  // Alternating pad bytes until the capacity is reached.
  method AddPadBytes(start: Bits, dataCapacityBits: nat) returns (bb: Bits)
    requires |start| <= dataCapacityBits && |start| % 8 == 0 && dataCapacityBits % 8 == 0
    ensures bb == start + PadBytes((dataCapacityBits - |start|) / 8)
  {
    hide BitsOf, Pow2;
    PowersPositive();
    bb := start;
    ghost var k := 0;
    var padByte := 0xEC;
    while |bb| < dataCapacityBits
      invariant bb == start + PadBytes(k) && |bb| <= dataCapacityBits
      invariant padByte == if k % 2 == 0 then 0xEC else 0x11
    {
      bb := AppendBits(bb, padByte, 8);
      padByte := if padByte == 0xEC then 0x11 else 0xEC;
      k := k + 1;
    }
  }

  lemma PowersPositive()
    ensures forall n: nat :: Pow2(n) > 0
    ensures Pow2(8) == 256
  {
  }

  // -------------------------------------------------------------------
  // Version and level
  // -------------------------------------------------------------------

  datatype Encoded = Encoded(version: nat, level: nat, codewords: seq<Gf>)
                   | InvalidArgument
                   | DataTooLong

  predicate VersionFits(segs: seq<Segment>, capacity: Capacity, version: nat, level: nat) {
    1 <= version <= 40 && Fits(segs, version, 8 * capacity(version, level))
  }

  // The smallest version in the range that holds the data at this level.
  method FindVersion(segs: seq<Segment>, level: nat, minVersion: nat, maxVersion: nat, capacity: Capacity)
    returns (version: nat, dataUsedBits: int)
    requires 1 <= minVersion <= maxVersion <= 40
    ensures version == maxVersion + 1 || minVersion <= version <= maxVersion
    ensures forall v :: minVersion <= v < version ==> !VersionFits(segs, capacity, v, level)
    ensures version <= maxVersion ==>
      VersionFits(segs, capacity, version, level) && dataUsedBits == |Stream(segs, version)|
  {
    hide Stream, CountsFit;
    version := minVersion;
    while true
      invariant minVersion <= version <= maxVersion
      invariant forall v :: minVersion <= v < version ==> !VersionFits(segs, capacity, v, level)
      decreases maxVersion - version
    {
      var dataCapacityBits := 8 * capacity(version, level);
      dataUsedBits := GetTotalBits(segs, version);
      if dataUsedBits != -1 && dataUsedBits <= dataCapacityBits {
        break;
      }
      assert !VersionFits(segs, capacity, version, level);
      if version >= maxVersion {
        version := maxVersion + 1;
        break;
      }
      version := version + 1;
    }
  }

  /** The codewords hold the stream of the segments, terminated and padded to
      exactly the capacity of the smallest version that fits; boosting gives the
      highest level that still fits in it, never a lower one than asked for. */
  method EncodeSegments(segs: seq<Segment>, level: nat, minVersion: int, maxVersion: int, mask: int, boost: bool, capacity: Capacity)
    returns (r: Encoded)
    requires level < 4
    ensures r.InvalidArgument? <==> !(1 <= minVersion <= maxVersion <= 40) || mask < -1 || mask > 7
    ensures r.DataTooLong? ==> forall v :: minVersion <= v <= maxVersion ==> !VersionFits(segs, capacity, v, level)
    ensures r.Encoded? ==> EncodedIn(segs, level, minVersion, maxVersion, boost, capacity, r)
  {
    hide Stream, Tail, CodeBits, CountsFit;
    if !(1 <= minVersion <= maxVersion <= 40) || mask < -1 || mask > 7 {
      return InvalidArgument;
    }
    var version, dataUsedBits := FindVersion(segs, level, minVersion, maxVersion, capacity);
    if version == maxVersion + 1 {
      return DataTooLong;
    }
    var ecl: nat := level;
    for newEcl := 1 to 4
      invariant VersionFits(segs, capacity, version, ecl) && ecl < 4
      invariant !boost ==> ecl == level
      invariant newEcl > level ==> ecl >= level
      invariant newEcl <= level ==> ecl <= level
      invariant boost ==> forall e :: 1 <= e < newEcl && e > ecl ==> !VersionFits(segs, capacity, version, e)
    {
      if boost && dataUsedBits <= 8 * capacity(version, newEcl) {
        ecl := newEcl;
      }
    }
    var bb := Concatenate(segs, version);
    bb := AddTail(bb, 8 * capacity(version, ecl));
    var codewords := PackBits(bb);
    r := Encoded(version, ecl, codewords);
    assert |CodeBits(codewords)| == 8 * |codewords|;
  }

  ghost predicate EncodedIn(segs: seq<Segment>, level: nat, minVersion: int, maxVersion: int, boost: bool, capacity: Capacity, r: Encoded)
    requires r.Encoded?
  {
    && minVersion <= r.version <= maxVersion
    && (forall v :: minVersion <= v < r.version ==> v < 0 || !VersionFits(segs, capacity, v, level))
    && VersionFits(segs, capacity, r.version, level)
    && VersionFits(segs, capacity, r.version, r.level)
    && level <= r.level < 4
    && (if boost then forall e :: r.level < e < 4 ==> !VersionFits(segs, capacity, r.version, e) else r.level == level)
    && Holds(segs, r.version, r.codewords)
    && |r.codewords| == capacity(r.version, r.level)
  }

  // The codewords carry the segments, and nothing else before the terminator.
  ghost predicate Holds(segs: seq<Segment>, version: nat, codewords: seq<Gf>) {
    && 1 <= version <= 40 && CountsFit(segs, version)
    && Fills(Stream(segs, version), codewords)
  }

  ghost predicate Fills(bits: Bits, codewords: seq<Gf>) {
    |bits| <= 8 * |codewords| && CodeBits(codewords) == bits + Tail(|bits|, 8 * |codewords|)
  }

  method Concatenate(segs: seq<Segment>, version: nat) returns (bb: Bits)
    requires 1 <= version <= 40 && CountsFit(segs, version)
    ensures bb == Stream(segs, version)
  {
    hide Stream, BitsOf, Pow2;
    bb := [];
    NoSegments(version);
    assert segs[..0] == [];
    for i := 0 to |segs|
      invariant bb == Stream(segs[..i], version)
    {
      var seg := segs[i];
      StreamPrefix(segs, version, i);
      IndicatorFits(seg.mode, version);
      assert CountFits(seg, version);
      bb := AppendBits(bb, seg.mode.Indicator(), 4);
      bb := AppendBits(bb, seg.numChars, seg.mode.CountBits(version));
      bb := bb + seg.data;
    }
    assert segs[..|segs|] == segs;
  }

  lemma IndicatorFits(mode: Mode, version: nat)
    requires 1 <= version <= 40
    ensures mode.Indicator() < Pow2(4) && mode.CountBits(version) <= 31
  {
    Powers();
  }
}
