/** Data codewords back to text. */
module PayloadDecoder {
  import opened Arithmetic
  import opened Bytes
  import opened BitStreams
  import opened GaloisField
  import opened Segments
  import opened SegmentEncoder

  const MAX_PAYLOAD: nat := 8896

  datatype Field = Read(text: seq<byte>, rest: Bits) | Overflow | Underflow {
    function After(text0: seq<byte>): Field {
      if Read? then Read(text0 + text, rest) else this
    }
  }

  // -------------------------------------------------------------------
  // What a bit string says
  // -------------------------------------------------------------------

  function Taken(bits: Bits, n: nat): (t: Bits)
    ensures |t| <= n
  {
    if n <= |bits| then bits[..n] else bits
  }

  function Left(bits: Bits, n: nat): (t: Bits)
    ensures |t| <= |bits|
  {
    if n <= |bits| then bits[n..] else []
  }

  function CharOf(mode: Mode, d: nat): byte
    requires d < mode.Base()
  {
    match mode
    case Numeric => d + 48
    case Alphanumeric => Char(d)
    case Byte => d
  }

  function ToChars(mode: Mode, v: nat, n: nat): (t: seq<byte>)
    ensures |t| == n
  {
    if n == 0 then [] else ToChars(mode, v / mode.Base(), n - 1) + [CharOf(mode, v % mode.Base())]
  }

  function ReadGroups(mode: Mode, bits: Bits, count: nat): (f: Field)
    decreases count
  {
    if count == 0 then Read([], bits)
    else
      var n := Head(mode, count);
      var w := mode.Width(n);
      if |bits| < w then Underflow
      else ReadGroups(mode, bits[w..], count - n).After(ToChars(mode, ValueOf(bits[..w]), n))
  }

  function ReadSegment(mode: Mode, bits: Bits, version: nat, len: nat): (f: Field)
    requires 1 <= version <= 40
  {
    var w := mode.CountBits(version);
    var count := ValueOf(Taken(bits, w));
    if len + count + 1 > MAX_PAYLOAD then Overflow else ReadGroups(mode, Left(bits, w), count)
  }

  function KanjiBytes(d: nat): (b: seq<byte>)
    requires d < 8192
    ensures |b| == 2
  {
    var i := d / 0xc0 * 256 + d % 0xc0;
    var sjw := if i + 0x8140 <= 0x9ffc then i + 0x8140 else i + 0xc140;
    [sjw / 256, sjw % 256]
  }

  function ReadPairs(bits: Bits, count: nat): (f: Field) {
    if count == 0 then Read([], bits)
    else if |bits| < 13 then Underflow
    else (ValueBound(bits[..13]); assert Pow2(13) == 8192;
          ReadPairs(bits[13..], count - 1).After(KanjiBytes(ValueOf(bits[..13]))))
  }

  function ReadKanji(bits: Bits, version: nat, len: nat): (f: Field) {
    var w := if version < 10 then 8 else if version < 27 then 10 else 12;
    var count := ValueOf(Taken(bits, w));
    if len + count * 2 + 1 > MAX_PAYLOAD then Overflow else ReadPairs(Left(bits, w), count)
  }

  // An ECI designator takes one, two or three bytes.
  function ReadEci(bits: Bits): (f: Field) {
    if |bits| < 8 then Underflow
    else
      var first := ValueOf(bits[..8]);
      var more := if 0x80 <= first < 0xc0 then 8 else if 0xc0 <= first < 0xe0 then 16 else 0;
      if |bits| < 8 + more then Underflow else Read([], bits[8 + more..])
  }

  // The number it designates, for a designator that is all there.
  function EciOf(bits: Bits): nat {
    var first := ValueOf(Taken(bits, 8));
    if 0x80 <= first < 0xc0 then first * 0x100 + ValueOf(Taken(Left(bits, 8), 8))
    else if 0xc0 <= first < 0xe0 then first * 0x1_0000 + ValueOf(Taken(Left(bits, 8), 16))
    else first
  }

  predicate Known(indicator: nat) {
    indicator == 1 || indicator == 2 || indicator == 4 || indicator == 8 || indicator == 7
  }

  function ReadOne(indicator: nat, bits: Bits, version: nat, len: nat): (f: Field)
    requires 1 <= version <= 40 && Known(indicator)
  {
    if indicator == 1 then ReadSegment(Numeric, bits, version, len)
    else if indicator == 2 then ReadSegment(Alphanumeric, bits, version, len)
    else if indicator == 4 then ReadSegment(Byte, bits, version, len)
    else if indicator == 8 then ReadKanji(bits, version, len)
    else ReadEci(bits)
  }

  /** Everything up to the first unknown indicator, after `len` characters. */
  function ReadAll(bits: Bits, version: nat, len: nat): (f: Field)
    requires 1 <= version <= 40
    decreases |bits|
  {
    if |bits| < 4 || !Known(ValueOf(bits[..4])) then Read([], bits)
    else
      var f := ReadOne(ValueOf(bits[..4]), bits[4..], version, len);
      if !f.Read? then f
      else
        ReadShrinks(ValueOf(bits[..4]), bits[4..], version, len);
        ReadAll(f.rest, version, len + |f.text|).After(f.text)
  }

  /** What is reported beside the text: the highest mode met and the last ECI. */
  datatype Facts = Facts(dataType: nat, eci: nat) {
    function Noting(indicator: nat, bits: Bits): Facts {
      if indicator == 7 then this.(eci := EciOf(bits))
      else if indicator > dataType then this.(dataType := indicator)
      else this
    }
  }

  function FactsIn(bits: Bits, version: nat, len: nat, known: Facts): Facts
    requires 1 <= version <= 40
    decreases |bits|
  {
    if |bits| < 4 || !Known(ValueOf(bits[..4])) then known
    else
      var f := ReadOne(ValueOf(bits[..4]), bits[4..], version, len);
      if !f.Read? then known
      else
        ReadShrinks(ValueOf(bits[..4]), bits[4..], version, len);
        FactsIn(f.rest, version, len + |f.text|, known.Noting(ValueOf(bits[..4]), bits[4..]))
  }

  lemma {:induction false} GroupsShrink(mode: Mode, bits: Bits, count: nat)
    ensures var f := ReadGroups(mode, bits, count);
      f.Read? ==> |f.rest| <= |bits| && |f.text| == count
    decreases count
  {
    if count > 0 {
      var n := Head(mode, count);
      if |bits| >= mode.Width(n) {
        GroupsShrink(mode, bits[mode.Width(n)..], count - n);
      }
    }
  }

  lemma {:induction false} PairsShrink(bits: Bits, count: nat)
    ensures var f := ReadPairs(bits, count);
      f.Read? ==> |f.rest| <= |bits| && |f.text| == 2 * count
  {
    if count > 0 && |bits| >= 13 {
      PairsShrink(bits[13..], count - 1);
    }
  }

  lemma ReadShrinks(indicator: nat, bits: Bits, version: nat, len: nat)
    requires 1 <= version <= 40 && Known(indicator)
    ensures var f := ReadOne(indicator, bits, version, len);
      f.Read? ==> |f.rest| <= |bits| && (len < MAX_PAYLOAD ==> len + |f.text| < MAX_PAYLOAD)
  {
    hide ReadGroups, ReadPairs;
    forall mode: Mode { GroupsShrink(mode, Left(bits, mode.CountBits(version)), ValueOf(Taken(bits, mode.CountBits(version)))); }
    var w := if version < 10 then 8 else if version < 27 then 10 else 12;
    PairsShrink(Left(bits, w), ValueOf(Taken(bits, w)));
  }

  // -------------------------------------------------------------------
  // The round trip
  // -------------------------------------------------------------------

  lemma {:induction false} CharsOfDigits(mode: Mode, ds: seq<nat>)
    requires BelowBase(mode, ds)
    ensures |ToChars(mode, FromDigits(mode.Base(), ds), |ds|)| == |ds|
    ensures forall i :: 0 <= i < |ds| ==> ToChars(mode, FromDigits(mode.Base(), ds), |ds|)[i] == CharOf(mode, ds[i])
  {
    if ds != [] {
      var init, d := ds[..|ds| - 1], ds[|ds| - 1];
      CharsOfDigits(mode, init);
      var v := FromDigits(mode.Base(), init);
      DivModUnique(v * mode.Base() + d, mode.Base(), v, d);
    }
  }

  lemma CharOfSymbol(mode: Mode, c: byte)
    requires HasSymbol(mode, c)
    ensures CharOf(mode, Symbol(mode, c)) == c
  {
  }

  lemma CharsOfText(mode: Mode, text: seq<byte>)
    requires Encodable(mode, text)
    ensures ToChars(mode, FromDigits(mode.Base(), Symbols(mode, text)), |text|) == text
  {
    hide ToChars, FromDigits, CharOf, Symbol, HasSymbol;
    var ds := Symbols(mode, text);
    CharsOfDigits(mode, ds);
    forall i | 0 <= i < |text| ensures CharOf(mode, ds[i]) == text[i] { CharOfSymbol(mode, text[i]); }
  }

  lemma FirstGroup(mode: Mode, text: seq<byte>, rest: Bits)
    requires Encodable(mode, text) && text != []
    ensures var n := Head(mode, |text|);
      var w, bits := mode.Width(n), Packed(mode, Symbols(mode, text)) + rest;
      && n <= |text| && Encodable(mode, text[..n]) && Encodable(mode, text[n..]) && w <= |bits|
      && bits[..w] == BitsOf(FromDigits(mode.Base(), Symbols(mode, text[..n])), w)
      && bits[w..] == Packed(mode, Symbols(mode, text[n..])) + rest
  {
    hide FromDigits, BitsOf, HasSymbol, Symbol, Packed;
    var ds, n := Symbols(mode, text), Head(mode, |text|);
    assert Symbols(mode, text[..n]) == ds[..n] && Symbols(mode, text[n..]) == ds[n..];
    PackedStep(mode, ds);
  }

  lemma NoGroups(mode: Mode, bits: Bits)
    ensures ReadGroups(mode, bits, 0) == Read([], bits)
  {
  }

  lemma GroupStep(mode: Mode, bits: Bits, count: nat)
    requires count > 0 && mode.Width(Head(mode, count)) <= |bits|
    ensures var n := Head(mode, count);
      var w := mode.Width(n);
      n <= count && ReadGroups(mode, bits, count) == ReadGroups(mode, bits[w..], count - n).After(ToChars(mode, ValueOf(bits[..w]), n))
  {
  }

  /** Unpacking undoes packing, whatever follows. */
  lemma {:induction false} GroupsRoundTrip(mode: Mode, text: seq<byte>, rest: Bits)
    requires Encodable(mode, text)
    ensures ReadGroups(mode, Packed(mode, Symbols(mode, text)) + rest, |text|) == Read(text, rest)
    decreases |text|
  {
    hide FromDigits, ToChars, BitsOf, ValueOf, Encodable, Symbols, Packed, ReadGroups;
    if text == [] {
      NothingPacked(mode);
      assert Packed(mode, Symbols(mode, text)) + rest == rest;
      NoGroups(mode, rest);
    } else {
      var n := Head(mode, |text|);
      FirstGroup(mode, text, rest);
      GroupFits(mode, Symbols(mode, text[..n]));
      ValueOfBitsOf(FromDigits(mode.Base(), Symbols(mode, text[..n])), mode.Width(n));
      GroupStep(mode, Packed(mode, Symbols(mode, text)) + rest, |text|);
      GroupsRoundTrip(mode, text[n..], rest);
      CharsOfText(mode, text[..n]);
      assert text == text[..n] + text[n..];
    }
  }

  lemma SegmentRoundTrip(seg: Segment, text: seq<byte>, version: nat, rest: Bits, len: nat)
    requires MadeOf(seg, text) && 1 <= version <= 40 && CountFits(seg, version)
    requires len + |text| + 1 <= MAX_PAYLOAD
    ensures var bits := SegmentBits(seg, version) + rest;
      && |bits| >= 4 && ValueOf(bits[..4]) == seg.mode.Indicator()
      && ReadOne(seg.mode.Indicator(), bits[4..], version, len) == Read(text, rest)
  {
    hide ReadGroups, Packed, BitsOf, ValueOf, Pow2, Encodable, Symbols;
    var m := seg.mode;
    var w := m.CountBits(version);
    var bits := SegmentBits(seg, version) + rest;
    IndicatorFits(m, version);
    ValueOfBitsOf(m.Indicator(), 4);
    ValueOfBitsOf(seg.numChars, w);
    assert bits[..4] == BitsOf(m.Indicator(), 4);
    assert bits[4..] == BitsOf(seg.numChars, w) + (seg.data + rest);
    assert bits[4..][..w] == BitsOf(seg.numChars, w) && bits[4..][w..] == seg.data + rest;
    GroupsRoundTrip(m, text, rest);
  }

  function Joined(texts: seq<seq<byte>>): seq<byte> {
    if texts == [] then [] else texts[0] + Joined(texts[1..])
  }

  predicate AllMadeOf(segs: seq<Segment>, texts: seq<seq<byte>>) {
    |segs| == |texts| && forall i :: 0 <= i < |segs| ==> MadeOf(segs[i], texts[i])
  }

  // What follows the segments ends them.
  predicate Stops(tail: Bits) {
    |tail| < 4 || forall i :: 0 <= i < 4 ==> !tail[i]
  }

  lemma StopsReading(tail: Bits, version: nat, len: nat)
    requires Stops(tail) && 1 <= version <= 40
    ensures ReadAll(tail, version, len) == Read([], tail)
  {
    if |tail| >= 4 { ZeroValue(tail[..4]); }
  }

  lemma {:induction false} ZeroValue(b: Bits)
    requires forall i :: 0 <= i < |b| ==> !b[i]
    ensures ValueOf(b) == 0
  {
    if b != [] { ZeroValue(b[..|b| - 1]); }
  }

  lemma StreamStep(segs: seq<Segment>, version: nat, tail: Bits)
    requires segs != [] && 1 <= version <= 40 && CountsFit(segs, version)
    ensures CountsFit(segs[1..], version)
    ensures Stream(segs, version) + tail == SegmentBits(segs[0], version) + (Stream(segs[1..], version) + tail)
  {
    hide SegmentBits, CountFits;
  }

  lemma {:induction false} StreamRoundTrip(segs: seq<Segment>, texts: seq<seq<byte>>, version: nat, tail: Bits, len: nat)
    requires AllMadeOf(segs, texts) && 1 <= version <= 40 && CountsFit(segs, version) && Stops(tail)
    requires len + |Joined(texts)| + 1 <= MAX_PAYLOAD
    ensures ReadAll(Stream(segs, version) + tail, version, len) == Read(Joined(texts), tail)
    decreases |segs|
  {
    hide ReadOne, MadeOf, SegmentBits, CountFits, ValueOf, ReadAll;
    if segs == [] {
      assert Stream(segs, version) + tail == tail;
      StopsReading(tail, version, len);
    } else {
      var after := Stream(segs[1..], version) + tail;
      StreamStep(segs, version, tail);
      SegmentRoundTrip(segs[0], texts[0], version, after, len);
      NextSegment(SegmentBits(segs[0], version) + after, version, len);
      StreamRoundTrip(segs[1..], texts[1..], version, tail, len + |texts[0]|);
    }
  }

  // The highest mode among the segments and what was met before.
  ghost predicate Highest(segs: seq<Segment>, was: nat, now: nat) {
    && was <= now && (forall i :: 0 <= i < |segs| ==> segs[i].mode.Indicator() <= now)
    && (now == was || exists i :: 0 <= i < |segs| && segs[i].mode.Indicator() == now)
  }

  lemma HighestFirst(segs: seq<Segment>, was: nat, now: nat)
    requires segs != []
    requires Highest(segs[1..], if segs[0].mode.Indicator() > was then segs[0].mode.Indicator() else was, now)
    ensures Highest(segs, was, now)
  {
    forall i | 0 <= i < |segs| ensures segs[i].mode.Indicator() <= now {
      if i > 0 { assert segs[1..][i - 1] == segs[i]; }
    }
    if i :| 0 <= i < |segs| - 1 && segs[1..][i].mode.Indicator() == now { assert segs[i + 1].mode.Indicator() == now; }
  }

  lemma NoFacts(tail: Bits, version: nat, len: nat, known: Facts)
    requires Stops(tail) && 1 <= version <= 40
    ensures FactsIn(tail, version, len, known) == known
  {
    if |tail| >= 4 { ZeroValue(tail[..4]); }
  }

  /** Of the segments the encoder wrote the decoder reports the highest mode. */
  lemma {:induction false} StreamFacts(segs: seq<Segment>, texts: seq<seq<byte>>, version: nat, tail: Bits, len: nat, known: Facts)
    requires AllMadeOf(segs, texts) && 1 <= version <= 40 && CountsFit(segs, version) && Stops(tail)
    requires len + |Joined(texts)| + 1 <= MAX_PAYLOAD
    ensures var facts := FactsIn(Stream(segs, version) + tail, version, len, known);
      facts.eci == known.eci && Highest(segs, known.dataType, facts.dataType)
    decreases |segs|
  {
    hide ReadOne, MadeOf, SegmentBits, CountFits, ValueOf, FactsIn, Highest, EciOf;
    if segs == [] {
      assert Stream(segs, version) + tail == tail;
      NoFacts(tail, version, len, known);
      NoSegmentsHighest(known.dataType);
    } else {
      var after := Stream(segs[1..], version) + tail;
      StreamStep(segs, version, tail);
      SegmentRoundTrip(segs[0], texts[0], version, after, len);
      NextFacts(SegmentBits(segs[0], version) + after, version, len, known);
      var noted := known.Noting(segs[0].mode.Indicator(), (SegmentBits(segs[0], version) + after)[4..]);
      StreamFacts(segs[1..], texts[1..], version, tail, len + |texts[0]|, noted);
      HighestFirst(segs, known.dataType, FactsIn(after, version, len + |texts[0]|, noted).dataType);
    }
  }

  lemma NoSegmentsHighest(n: nat)
    ensures Highest([], n, n)
  {
  }

  // -------------------------------------------------------------------
  // The payload always has room
  // -------------------------------------------------------------------

  lemma {:induction false} PackedSize(mode: Mode, ds: seq<nat>)
    ensures 10 * |ds| <= 3 * |Packed(mode, ds)|
    decreases |ds|
  {
    if ds != [] {
      PackedSize(mode, ds[Head(mode, |ds|)..]);
    }
  }

  lemma {:induction false} StreamSize(segs: seq<Segment>, texts: seq<seq<byte>>, version: nat)
    requires AllMadeOf(segs, texts) && 1 <= version <= 40
    ensures 10 * |Joined(texts)| <= 3 * |Stream(segs, version)|
    decreases |segs|
  {
    hide Packed, Encodable, Symbols;
    if segs != [] {
      assert MadeOf(segs[0], texts[0]);
      PackedSize(segs[0].mode, Symbols(segs[0].mode, texts[0]));
      StreamSize(segs[1..], texts[1..], version);
    }
  }

  // No version has more than 29648 data modules.
  const MAX_BITS: nat := 29648

  /** Whatever segments the codewords were made from, reading them gives the
      texts back in order; no text that fits a symbol overflows the payload. */
  lemma PayloadRoundTrip(segs: seq<Segment>, texts: seq<seq<byte>>, version: nat, codewords: seq<Gf>)
    requires AllMadeOf(segs, texts) && Holds(segs, version, codewords) && 8 * |codewords| <= MAX_BITS
    ensures var f := ReadAll(CodeBits(codewords), version, 0);
      f.Read? && f.text == Joined(texts) && |f.text| < MAX_PAYLOAD
  {
    hide Stream, AllMadeOf, CountsFit, ReadAll, Tail, CodeBits;
    var used := |Stream(segs, version)|;
    var tail := Tail(used, 8 * |codewords|);
    TailStops(used, 8 * |codewords|);
    StreamSize(segs, texts, version);
    StreamRoundTrip(segs, texts, version, tail, 0);
  }

  lemma TailStops(used: nat, capacity: nat)
    requires used <= capacity && capacity % 8 == 0
    ensures Stops(Tail(used, capacity))
  {
    hide Tail;
    assert |Tail(used, capacity)| == capacity - used;
  }

  // -------------------------------------------------------------------
  // The decoder
  // -------------------------------------------------------------------

  /** The datastream being read and the payload being written. */
  class Decoder {
    const data: seq<Gf>
    const dataBits: nat
    const version: nat
    const payload: array<byte>
    var ptr: nat
    var payloadLen: nat
    var dataType: nat
    var eci: nat

    ghost predicate Valid()
      reads this`ptr, this`payloadLen
    {
      && 1 <= version <= 40 && ptr <= dataBits <= 8 * |data|
      && payload.Length == MAX_PAYLOAD && payloadLen < MAX_PAYLOAD
    }

    ghost function Remaining(): (bits: Bits)
      reads this`ptr, this`payloadLen
      requires Valid()
    {
      CodeBits(data)[ptr..dataBits]
    }

    ghost function Text(): (t: seq<byte>)
      reads this`ptr, this`payloadLen, payload
      requires Valid()
    {
      payload[..payloadLen]
    }

    constructor (data: seq<Gf>, dataBits: nat, version: nat)
      requires 1 <= version <= 40 && dataBits <= 8 * |data|
      ensures Valid() && fresh(payload) && Text() == [] && Remaining() == CodeBits(data)[..dataBits]
      ensures this.version == version && dataType == 0 && eci == 0
    {
      this.data := data;
      this.dataBits := dataBits;
      this.version := version;
      payload := new byte[MAX_PAYLOAD](_ => 0);
      ptr := 0;
      payloadLen := 0;
      dataType := 0;
      eci := 0;
    }

    method TakeBits(len: nat) returns (ret: nat)
      requires Valid()
      modifies this`ptr
      ensures Valid() && Remaining() == Left(old(Remaining()), len) && Text() == old(Text())
      ensures ret == ValueOf(Taken(old(Remaining()), len))
    {
      hide BitAt, CodeBits, Left, Taken;
      ghost var start, all := ptr, CodeBits(data);
      ret := 0;
      var n := len;
      while n > 0 && ptr < dataBits
        modifies this`ptr
        invariant start <= ptr <= dataBits && 0 <= n <= len && ptr - start == len - n
        invariant ret == ValueOf(all[start..ptr])
      {
        ret := 2 * ret;
        if BitAt(data[ptr / 8], ptr % 8) {
          ret := ret + 1;
        }
        BitOfStream(data, ptr);
        OneMore(all, start, ptr);
        ptr := ptr + 1;
        n := n - 1;
      }
      SplitAt(all, start, dataBits, len, ptr);
    }

    /** A group of characters: fails when the stream is too short for it. */
    method Tuple(mode: Mode, bits: nat, digits: nat, ghost count: nat, ghost field: Field, ghost text0: seq<byte>) returns (ok: bool)
      requires Valid() && payloadLen + count < MAX_PAYLOAD && count > 0
      requires digits == Head(mode, count) && bits == mode.Width(digits)
      requires Progress(mode, field, text0, count)
      modifies this`ptr, this`payloadLen, payload
      ensures Valid()
      ensures ok ==> payloadLen == old(payloadLen) + digits && Progress(mode, field, text0, count - digits)
      ensures !ok ==> field == Underflow
    {
      hide CodeBits, ValueOf, CharOf, ReadGroups, ToChars;
      NextGroup(mode, Remaining(), count);
      if dataBits - ptr < bits {
        return false;
      }
      ghost var was, remaining := Text(), Remaining();
      var tuple := TakeBits(bits);
      WriteChars(payload, payloadLen, mode, tuple, digits);
      payloadLen := payloadLen + digits;
      ghost var chars := ToChars(mode, tuple, digits);
      assert Text() == was + payload[payloadLen - digits..payloadLen] == was + chars;
      AfterBoth(ReadGroups(mode, Remaining(), count - digits), was[|text0|..], chars);
      assert Text()[|text0|..] == was[|text0|..] + chars;
      ok := true;
    }

    method DecodeNumeric() returns (s: Status)
      requires Valid()
      modifies this`ptr, this`payloadLen, payload
      ensures Valid() && Reports(ReadSegment(Numeric, old(Remaining()), version, old(payloadLen)), s, old(Text()))
    {
      hide ReadGroups, ValueOf, Remaining, Text, Progress;
      var bits := 14;
      if version < 10 {
        bits := 10;
      } else if version < 27 {
        bits := 12;
      }
      var count := TakeBits(bits);
      if payloadLen + count + 1 > MAX_PAYLOAD {
        return DataOverflow;
      }
      ghost var field, text0 := ReadGroups(Numeric, Remaining(), count), Text();
      Begin(Numeric, count);
      while count >= 3
        invariant Valid() && payloadLen + count < MAX_PAYLOAD
        invariant Progress(Numeric, field, text0, count)
      {
        var ok := Tuple(Numeric, 10, 3, count, field, text0);
        if !ok {
          return DataUnderflow;
        }
        count := count - 3;
      }
      if count >= 2 {
        var ok := Tuple(Numeric, 7, 2, count, field, text0);
        if !ok {
          return DataUnderflow;
        }
        count := count - 2;
      }
      if count > 0 {
        var ok := Tuple(Numeric, 4, 1, count, field, text0);
        if !ok {
          return DataUnderflow;
        }
        count := count - 1;
      }
      End(Numeric, field, text0);
      s := Success;
    }

    method DecodeAlpha() returns (s: Status)
      requires Valid()
      modifies this`ptr, this`payloadLen, payload
      ensures Valid() && Reports(ReadSegment(Alphanumeric, old(Remaining()), version, old(payloadLen)), s, old(Text()))
    {
      hide ReadGroups, ValueOf, Remaining, Text, Progress;
      var bits := 13;
      if version < 10 {
        bits := 9;
      } else if version < 27 {
        bits := 11;
      }
      var count := TakeBits(bits);
      if payloadLen + count + 1 > MAX_PAYLOAD {
        return DataOverflow;
      }
      ghost var field, text0 := ReadGroups(Alphanumeric, Remaining(), count), Text();
      Begin(Alphanumeric, count);
      while count >= 2
        invariant Valid() && payloadLen + count < MAX_PAYLOAD
        invariant Progress(Alphanumeric, field, text0, count)
      {
        var ok := Tuple(Alphanumeric, 11, 2, count, field, text0);
        if !ok {
          return DataUnderflow;
        }
        count := count - 2;
      }
      if count > 0 {
        var ok := Tuple(Alphanumeric, 6, 1, count, field, text0);
        if !ok {
          return DataUnderflow;
        }
        count := count - 1;
      }
      End(Alphanumeric, field, text0);
      s := Success;
    }

    method DecodeByte() returns (s: Status)
      requires Valid()
      modifies this`ptr, this`payloadLen, payload
      ensures Valid() && Reports(ReadSegment(Byte, old(Remaining()), version, old(payloadLen)), s, old(Text()))
    {
      hide ReadGroups, ValueOf, Text, Progress, Remaining;
      var bits := 16;
      if version < 10 {
        bits := 8;
      }
      var count := TakeBits(bits);
      if payloadLen + count + 1 > MAX_PAYLOAD {
        return DataOverflow;
      }
      ghost var field, text0 := ReadGroups(Byte, Remaining(), count), Text();
      BytesNeeded(Remaining(), count);
      RemainingSize();
      if dataBits - ptr < count * 8 {
        return DataUnderflow;
      }
      Begin(Byte, count);
      for i := 0 to count
        invariant Valid() && payloadLen + (count - i) < MAX_PAYLOAD
        invariant Progress(Byte, field, text0, count - i)
        invariant field != Underflow
      {
        var ok := Tuple(Byte, 8, 1, count - i, field, text0);
      }
      End(Byte, field, text0);
      s := Success;
    }

    // One two-byte character.
    method TakePair(ghost count: nat, ghost field: Field, ghost text0: seq<byte>)
      requires Valid() && payloadLen + 2 * count < MAX_PAYLOAD && count > 0
      requires dataBits - ptr >= 13 && PairProgress(field, text0, count)
      modifies this`ptr, this`payloadLen, payload
      ensures Valid() && payloadLen == old(payloadLen) + 2 && ptr == old(ptr) + 13
      ensures PairProgress(field, text0, count - 1)
    {
      hide CodeBits, ValueOf, ReadPairs;
      NextPair(Remaining(), count);
      ghost var was, start := Text(), ptr;
      RemainingSize();
      var d := TakeBits(13);
      RemainingSize();
      var msB := d / 0xc0;
      var lsB := d % 0xc0;
      var intermediate := msB * 256 + lsB;
      var sjw := if intermediate + 0x8140 <= 0x9ffc then intermediate + 0x8140 else intermediate + 0xc140;
      payload[payloadLen] := sjw / 256;
      payload[payloadLen + 1] := sjw % 256;
      payloadLen := payloadLen + 2;
      assert Text() == was + KanjiBytes(d);
      AfterBoth(ReadPairs(Remaining(), count - 1), was[|text0|..], KanjiBytes(d));
      assert Text()[|text0|..] == was[|text0|..] + KanjiBytes(d);
    }

    ghost predicate PairProgress(field: Field, text0: seq<byte>, count: nat)
      reads this`ptr, this`payloadLen, payload
      requires Valid()
    {
      |text0| <= |Text()| && Text()[..|text0|] == text0 &&
      field == ReadPairs(Remaining(), count).After(Text()[|text0|..])
    }

    method DecodeKanji() returns (s: Status)
      requires Valid()
      modifies this`ptr, this`payloadLen, payload
      ensures Valid() && Reports(ReadKanji(old(Remaining()), version, old(payloadLen)), s, old(Text()))
    {
      hide ReadPairs, ValueOf, Text, PairProgress, Remaining;
      var bits := 12;
      if version < 10 {
        bits := 8;
      } else if version < 27 {
        bits := 10;
      }
      var count := TakeBits(bits);
      if payloadLen + count * 2 + 1 > MAX_PAYLOAD {
        return DataOverflow;
      }
      ghost var field, text0 := ReadPairs(Remaining(), count), Text();
      PairsNeeded(Remaining(), count);
      RemainingSize();
      if dataBits - ptr < count * 13 {
        return DataUnderflow;
      }
      BeginPairs(count);
      for i := 0 to count
        invariant Valid() && payloadLen + 2 * (count - i) < MAX_PAYLOAD
        invariant dataBits - ptr >= 13 * (count - i)
        invariant PairProgress(field, text0, count - i)
      {
        TakePair(count - i, field, text0);
      }
      EndPairs(field, text0);
      s := Success;
    }

    method DecodeEci() returns (s: Status)
      requires Valid()
      modifies this`ptr, this`eci
      ensures Valid() && Reports(ReadEci(old(Remaining())), s, old(Text()))
      ensures s == Success ==> eci == EciOf(old(Remaining()))
    {
      hide ValueOf, Text, CodeBits;
      if dataBits - ptr < 8 {
        return DataUnderflow;
      }
      eci := TakeBits(8);
      if 0x80 <= eci < 0xc0 {
        if dataBits - ptr < 8 {
          return DataUnderflow;
        }
        var low := TakeBits(8);
        eci := eci * 0x100 + low;
      } else if 0xc0 <= eci < 0xe0 {
        if dataBits - ptr < 16 {
          return DataUnderflow;
        }
        var low := TakeBits(16);
        eci := eci * 0x1_0000 + low;
      }
      s := Success;
    }

    method DecodeOne(indicator: nat) returns (s: Status)
      requires Valid() && Known(indicator)
      modifies this`ptr, this`payloadLen, this`eci, payload
      ensures Valid() && Reports(ReadOne(indicator, old(Remaining()), version, old(payloadLen)), s, old(Text()))
      ensures s == Success ==> eci == if indicator == 7 then EciOf(old(Remaining())) else old(eci)
    {
      hide ReadSegment, ReadKanji, ReadEci, Reports, EciOf;
      if indicator == 1 {
        s := DecodeNumeric();
      } else if indicator == 2 {
        s := DecodeAlpha();
      } else if indicator == 4 {
        s := DecodeByte();
      } else if indicator == 8 {
        s := DecodeKanji();
      } else {
        s := DecodeEci();
      }
    }

    // What all the bits say, given what the remaining ones do.
    ghost predicate AllProgress(all: Field)
      reads this`ptr, this`payloadLen, payload
      requires Valid()
    {
      all == ReadAll(Remaining(), version, payloadLen).After(Text())
    }

    /** Reads segment after segment until an unknown indicator or fewer than four
        bits; status and payload are what the bits say. */
    method DecodePayload() returns (s: Status)
      requires Valid() && payloadLen == 0
      modifies this`ptr, this`payloadLen, this`dataType, this`eci, payload
      ensures Valid()
      ensures match ReadAll(old(Remaining()), version, 0)
        case Read(text, _) => s == Success && Text() == text && payload[payloadLen] == 0
        case Overflow => s == DataOverflow
        case Underflow => s == DataUnderflow
      ensures s == Success ==> Facts(dataType, eci) == FactsIn(old(Remaining()), version, 0, Facts(old(dataType), old(eci)))
    {
      hide ReadAll, FactsIn, ReadOne, ValueOf, Remaining, Text, EciOf;
      ghost var all, stopped := ReadAll(Remaining(), version, 0), false;
      ghost var facts := FactsIn(Remaining(), version, 0, Facts(dataType, eci));
      TextSize();
      NothingBefore(all, Text());
      while dataBits - ptr >= 4
        invariant Valid() && AllProgress(all) && !stopped
        invariant FactsIn(Remaining(), version, payloadLen, Facts(dataType, eci)) == facts
        decreases dataBits - ptr
      {
        ghost var before, text0 := Remaining(), Text();
        RemainingSize();
        TextSize();
        NextSegment(before, version, payloadLen);
        NextFacts(before, version, payloadLen, Facts(dataType, eci));
        var indicator := TakeBits(4);
        RemainingSize();
        assert Remaining() == before[4..];
        if !(indicator == 1 || indicator == 2 || indicator == 4 || indicator == 8 || indicator == 7) {
          assert all.Read? && all.text == Text() by { NothingAfter(Text()); }
          stopped := true;
          break;
        }
        ghost var field := ReadOne(indicator, Remaining(), version, payloadLen);
        ReadShrinks(indicator, Remaining(), version, payloadLen);
        s := DecodeOne(indicator);
        if s != Success {
          return;
        }
        if indicator != 7 && indicator > dataType {
          dataType := indicator;
        }
        RemainingSize();
        TextSize();
        AfterBoth(ReadAll(Remaining(), version, payloadLen), text0, field.text);
      }
      if !stopped {
        RemainingSize();
        TooShort(Remaining(), version, payloadLen);
        NoMoreFacts(Remaining(), version, payloadLen, Facts(dataType, eci));
        NothingAfter(Text());
      }
      Terminate();
      s := Success;
    }

    // The NUL after the payload.
    method Terminate()
      requires Valid()
      modifies payload
      ensures Valid() && Text() == old(Text()) && payload[payloadLen] == 0
    {
      payload[payloadLen] := 0;
    }

    lemma TextSize()
      requires Valid()
      ensures |Text()| == payloadLen
    {
    }

    lemma BeginPairs(count: nat)
      requires Valid()
      ensures PairProgress(ReadPairs(Remaining(), count), Text(), count)
    {
      hide ReadPairs;
      assert Text()[|Text()|..] == [];
      NothingBefore(ReadPairs(Remaining(), count), []);
    }

    lemma EndPairs(field: Field, text0: seq<byte>)
      requires Valid() && PairProgress(field, text0, 0)
      ensures Reports(field, Success, text0)
    {
      assert Text() == text0 + Text()[|text0|..];
      NothingAfter(Text()[|text0|..]);
    }

    lemma RemainingSize()
      requires Valid()
      ensures |Remaining()| == dataBits - ptr
    {
    }

    lemma Begin(mode: Mode, count: nat)
      requires Valid()
      ensures Progress(mode, ReadGroups(mode, Remaining(), count), Text(), count)
    {
      hide ReadGroups;
      assert Text()[|Text()|..] == [];
      NothingBefore(ReadGroups(mode, Remaining(), count), []);
    }

    lemma End(mode: Mode, field: Field, text0: seq<byte>)
      requires Valid() && Progress(mode, field, text0, 0)
      ensures Reports(field, Success, text0)
    {
      assert Text() == text0 + Text()[|text0|..];
      NothingAfter(Text()[|text0|..]);
    }

    // The characters read so far, and how the rest is still to be read.
    ghost predicate Progress(mode: Mode, field: Field, text0: seq<byte>, count: nat)
      reads this`ptr, this`payloadLen, payload
      requires Valid()
    {
      |text0| <= |Text()| && Text()[..|text0|] == text0 &&
      field == ReadGroups(mode, Remaining(), count).After(Text()[|text0|..])
    }

    // Status and state agree with what the bits say.
    ghost predicate Reports(field: Field, s: Status, text0: seq<byte>)
      reads this`ptr, this`payloadLen, payload
      requires Valid()
    {
      match field
      case Read(text, rest) => s == Success && Text() == text0 + text && Remaining() == rest
      case Overflow => s == DataOverflow
      case Underflow => s == DataUnderflow
    }
  }

  datatype Status = Success | DataOverflow | DataUnderflow

  lemma NothingBefore(f: Field, none: seq<byte>)
    requires none == []
    ensures f.After(none) == f
  {
    assert f.Read? ==> none + f.text == f.text;
  }

  lemma NothingAfter(text: seq<byte>)
    ensures text + [] == text
  {
  }

  lemma NoMoreFacts(bits: Bits, version: nat, len: nat, known: Facts)
    requires 1 <= version <= 40 && |bits| < 4
    ensures FactsIn(bits, version, len, known) == known
  {
  }

  lemma NextFacts(bits: Bits, version: nat, len: nat, known: Facts)
    requires 1 <= version <= 40 && |bits| >= 4
    ensures var indicator := ValueOf(bits[..4]);
      if !Known(indicator) then FactsIn(bits, version, len, known) == known
      else
        var f := ReadOne(indicator, bits[4..], version, len);
        f.Read? ==> FactsIn(bits, version, len, known) == FactsIn(f.rest, version, len + |f.text|, known.Noting(indicator, bits[4..]))
  {
    hide ReadOne, EciOf;
  }

  lemma TooShort(bits: Bits, version: nat, len: nat)
    requires 1 <= version <= 40 && |bits| < 4
    ensures ReadAll(bits, version, len) == Read([], bits)
  {
  }

  lemma NextSegment(bits: Bits, version: nat, len: nat)
    requires 1 <= version <= 40 && |bits| >= 4
    ensures var indicator := ValueOf(Taken(bits, 4));
      if !Known(indicator) then ReadAll(bits, version, len) == Read([], bits)
      else
        var f := ReadOne(indicator, bits[4..], version, len);
        ReadAll(bits, version, len) == if f.Read? then ReadAll(f.rest, version, len + |f.text|).After(f.text) else f
  {
    hide ReadOne;
  }

  lemma NextPair(bits: Bits, count: nat)
    requires count > 0 && |bits| >= 13
    ensures ValueOf(Taken(bits, 13)) < 8192
    ensures ReadPairs(bits, count) == ReadPairs(bits[13..], count - 1).After(KanjiBytes(ValueOf(Taken(bits, 13))))
  {
    hide KanjiBytes;
    ValueBound(bits[..13]);
    assert Pow2(13) == 8192;
  }

  lemma {:induction false} PairsNeeded(bits: Bits, count: nat)
    ensures |bits| < 13 * count ==> ReadPairs(bits, count) == Underflow
    ensures |bits| >= 13 * count ==> ReadPairs(bits, count) != Underflow
  {
    hide KanjiBytes, ValueOf;
    if count > 0 && |bits| >= 13 { PairsNeeded(bits[13..], count - 1); }
  }

  lemma AfterBoth(f: Field, a: seq<byte>, b: seq<byte>)
    ensures f.After(b).After(a) == f.After(a + b)
  {
    assert f.Read? ==> a + (b + f.text) == (a + b) + f.text;
  }

  // Single bytes run out exactly when the whole field does not fit.
  lemma {:induction false} BytesNeeded(bits: Bits, count: nat)
    ensures |bits| < 8 * count ==> ReadGroups(Byte, bits, count) == Underflow
    ensures |bits| >= 8 * count ==> ReadGroups(Byte, bits, count) != Underflow
  {
    hide ToChars, ValueOf;
    if count > 0 && |bits| >= 8 { BytesNeeded(bits[8..], count - 1); }
  }

  lemma NextGroup(mode: Mode, bits: Bits, count: nat)
    requires count > 0
    ensures var n := Head(mode, count);
      var w := mode.Width(n);
      ReadGroups(mode, bits, count) == if |bits| < w then Underflow
        else ReadGroups(mode, bits[w..], count - n).After(ToChars(mode, ValueOf(bits[..w]), n))
  {
  }

  // The characters of a number, last one first.
  method WriteChars(payload: array<byte>, at: nat, mode: Mode, v: nat, digits: nat)
    requires at + digits <= payload.Length
    modifies payload
    ensures payload[..at] == old(payload[..at])
    ensures payload[at..at + digits] == ToChars(mode, v, digits)
  {
    hide CharOf;
    var tuple: nat := v;
    var i := digits;
    while i > 0
      invariant 0 <= i <= digits
      invariant payload[..at] == old(payload[..at])
      invariant ToChars(mode, v, digits) == ToChars(mode, tuple, i) + payload[at + i..at + digits]
    {
      i := i - 1;
      ghost var done := payload[at + i + 1..at + digits];
      payload[at + i] := CharOf(mode, tuple % mode.Base());
      assert payload[at + i..at + digits] == [CharOf(mode, tuple % mode.Base())] + done;
      tuple := tuple / mode.Base();
    }
  }

  lemma OneMore(all: Bits, start: nat, p: nat)
    requires start <= p < |all|
    ensures ValueOf(all[start..p + 1]) == 2 * ValueOf(all[start..p]) + if all[p] then 1 else 0
  {
    assert all[start..p + 1][..p - start] == all[start..p];
  }

  lemma SplitAt(all: Bits, start: nat, end: nat, len: nat, p: nat)
    requires start <= p <= end <= |all|
    requires p == if start + len <= end then start + len else end
    ensures Taken(all[start..end], len) == all[start..p] && Left(all[start..end], len) == all[p..end]
  {
  }

  lemma BitOfStream(data: seq<Gf>, k: nat)
    requires k < 8 * |data|
    ensures CodeBits(data)[k] == BitAt(data[k / 8], k % 8)
  {
  }
}
