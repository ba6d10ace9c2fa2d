/** Text to segments: choice of mode, alphabets and character packing. */
module Segments {
  import opened Arithmetic
  import opened Bytes
  import opened BitStreams
  import opened GaloisField
  import opened Options

  datatype Mode = Numeric | Alphanumeric | Byte {
    function Indicator(): nat { if Numeric? then 1 else if Alphanumeric? then 2 else 4 }
    // How many characters share one number, in which base, on how many bits.
    function Group(): nat { if Numeric? then 3 else if Alphanumeric? then 2 else 1 }
    function Base(): nat { if Numeric? then 10 else if Alphanumeric? then 45 else 256 }
    function Width(n: nat): nat { if Numeric? then 3 * n + 1 else if Alphanumeric? then 5 * n + 1 else 8 * n }
    function CountBits(version: nat): (n: nat)
      requires 1 <= version <= 40
    {
      var k := (version + 7) / 17;
      if Numeric? then [10, 12, 14][k] else if Alphanumeric? then [9, 11, 13][k] else [8, 16, 16][k]
    }
  }

  datatype Segment = Segment(mode: Mode, numChars: nat, data: Bits)

  const INT_MAX: nat := 0x7fff_ffff

  const CHARSET: string := "0123456789ABCDEFGHIJKLMNOPQRSTUVWXYZ $%*+-./:"

  function Char(v: nat): byte
    requires v < 45
  {
    assert |CHARSET| == 45;
    CHARSET[v] as int % 256
  }

  /** strchr on the character set, from position i on. */
  function Position(c: byte, i: nat): (r: Option<nat>)
    requires i <= 45
    ensures r.Some? ==> r.value < 45 && Char(r.value) == c
    ensures r.None? ==> forall v :: i <= v < 45 ==> Char(v) != c
    decreases 45 - i
  {
    if i == 45 then None else if Char(i) == c then Some(i) else Position(c, i + 1)
  }

  predicate HasSymbol(mode: Mode, c: byte) {
    match mode
    case Numeric => 48 <= c <= 57
    case Alphanumeric => Position(c, 0).Some?
    case Byte => true
  }

  function Symbol(mode: Mode, c: byte): (v: nat)
    requires HasSymbol(mode, c)
    ensures v < mode.Base()
  {
    match mode
    case Numeric => c - 48
    case Alphanumeric => Position(c, 0).value
    case Byte => c
  }

  predicate Encodable(mode: Mode, text: seq<byte>) {
    forall i :: 0 <= i < |text| ==> HasSymbol(mode, text[i])
  }

  function Symbols(mode: Mode, text: seq<byte>): (ds: seq<nat>)
    requires Encodable(mode, text)
    ensures |ds| == |text| && forall i :: 0 <= i < |ds| ==> ds[i] < mode.Base()
  {
    seq(|text|, i requires 0 <= i < |text| => Symbol(mode, text[i]))
  }

  // The number a group of digits spells.
  function FromDigits(base: nat, ds: seq<nat>): nat {
    if ds == [] then 0 else FromDigits(base, ds[..|ds| - 1]) * base + ds[|ds| - 1]
  }

  function Head(mode: Mode, n: nat): (k: nat)
    ensures k <= n && (n > 0 ==> k > 0)
  {
    if n < mode.Group() then n else mode.Group()
  }

  function Packed(mode: Mode, ds: seq<nat>): Bits
    decreases |ds|
  {
    if ds == [] then []
    else
      var n := Head(mode, |ds|);
      BitsOf(FromDigits(mode.Base(), ds[..n]), mode.Width(n)) + Packed(mode, ds[n..])
  }

  predicate BelowBase(mode: Mode, ds: seq<nat>) {
    forall i :: 0 <= i < |ds| ==> ds[i] < mode.Base()
  }

  // A group's number fits its field.
  lemma GroupFits(mode: Mode, ds: seq<nat>)
    requires BelowBase(mode, ds) && 0 < |ds| <= mode.Group()
    ensures FromDigits(mode.Base(), ds) < Pow2(mode.Width(|ds|))
    ensures mode.Width(|ds|) <= 31
  {
    Powers();
    var base := mode.Base();
    assert ds[..|ds|] == ds;
    assert FromDigits(base, ds[..0]) == 0;
    assert FromDigits(base, ds[..1]) == ds[0] by { assert ds[..1][..0] == []; }
    if |ds| >= 2 {
      assert ds[..2][..1] == ds[..1];
      assert FromDigits(base, ds[..2]) == ds[0] * base + ds[1];
    }
    if |ds| == 3 {
      assert ds[..3][..2] == ds[..2];
      assert FromDigits(base, ds[..3]) == (ds[0] * base + ds[1]) * base + ds[2];
    }
  }

  lemma Powers()
    ensures Pow2(4) == 16 && Pow2(6) == 64 && Pow2(7) == 128 && Pow2(8) == 256
    ensures Pow2(9) == 512 && Pow2(10) == 1024 && Pow2(11) == 2048
  {
  }

  // n characters make whole groups.
  predicate Whole(mode: Mode, n: nat) {
    n == 0 || (n >= mode.Group() && Whole(mode, n - mode.Group()))
  }

  lemma PackedStep(mode: Mode, ds: seq<nat>)
    requires ds != []
    ensures var n := Head(mode, |ds|);
      Packed(mode, ds) == BitsOf(FromDigits(mode.Base(), ds[..n]), mode.Width(n)) + Packed(mode, ds[n..])
  {
  }

  // Packing whole groups first makes no difference.
  lemma {:induction false} PackedAppend(mode: Mode, a: seq<nat>, b: seq<nat>)
    requires Whole(mode, |a|)
    ensures Packed(mode, a + b) == Packed(mode, a) + Packed(mode, b)
    decreases |a|
  {
    hide BitsOf, FromDigits, Packed;
    if a == [] {
      assert a + b == b;
      NothingPacked(mode);
    } else {
      var n := mode.Group();
      assert (a + b)[..n] == a[..n] && (a + b)[n..] == a[n..] + b;
      PackedStep(mode, a);
      PackedStep(mode, a + b);
      PackedAppend(mode, a[n..], b);
    }
  }

  lemma NothingPacked(mode: Mode)
    ensures Packed(mode, []) == []
  {
  }

  lemma PackedGroup(mode: Mode, ds: seq<nat>)
    requires 0 < |ds| <= mode.Group()
    ensures Packed(mode, ds) == BitsOf(FromDigits(mode.Base(), ds), mode.Width(|ds|))
  {
    assert ds[..|ds|] == ds && ds[|ds|..] == [];
  }

  predicate MadeOf(seg: Segment, text: seq<byte>) {
    && Encodable(seg.mode, text) && seg.numChars == |text|
    && seg.data == Packed(seg.mode, Symbols(seg.mode, text))
  }

  // The accumulator loop shared by the two character modes: the digits of the
  // unfinished group, and the bits of the finished ones.
  ghost predicate Accumulated(mode: Mode, ds: seq<nat>, accumData: nat, accumCount: nat, bb: Bits) {
    && accumCount < mode.Group() && accumCount <= |ds| && Whole(mode, |ds| - accumCount)
    && accumData == FromDigits(mode.Base(), ds[|ds| - accumCount..])
    && bb == Packed(mode, ds[..|ds| - accumCount])
  }

  lemma OpenGroup(ds: seq<nat>, accumCount: nat, d: nat)
    requires accumCount <= |ds|
    ensures (ds + [d])[..|ds| - accumCount] == ds[..|ds| - accumCount]
    ensures (ds + [d])[|ds| - accumCount..] == ds[|ds| - accumCount..] + [d]
    ensures ds + [d] == ds[..|ds| - accumCount] + (ds[|ds| - accumCount..] + [d])
  {
  }

  lemma NextDigit(base: nat, ds: seq<nat>, d: nat)
    ensures FromDigits(base, ds + [d]) == FromDigits(base, ds) * base + d
  {
    assert (ds + [d])[..|ds|] == ds;
  }

  // A digit joins the unfinished group.
  lemma AccumulateDigit(mode: Mode, ds: seq<nat>, accumData: nat, accumCount: nat, bb: Bits, d: nat)
    requires Accumulated(mode, ds, accumData, accumCount, bb) && accumCount + 1 < mode.Group()
    ensures Accumulated(mode, ds + [d], accumData * mode.Base() + d, accumCount + 1, bb)
  {
    hide Packed, FromDigits, Whole;
    OpenGroup(ds, accumCount, d);
    NextDigit(mode.Base(), ds[|ds| - accumCount..], d);
  }

  // A digit completes it.
  lemma CompleteGroup(mode: Mode, ds: seq<nat>, accumData: nat, accumCount: nat, bb: Bits, d: nat)
    requires Accumulated(mode, ds, accumData, accumCount, bb) && BelowBase(mode, ds) && d < mode.Base()
    requires accumCount + 1 == mode.Group()
    ensures var data, width := accumData * mode.Base() + d, mode.Width(mode.Group());
      data < Pow2(width) && width <= 31 && Accumulated(mode, ds + [d], 0, 0, bb + BitsOf(data, width))
  {
    hide Packed, FromDigits, BitsOf, Pow2, Whole;
    var done, open := ds[..|ds| - accumCount], ds[|ds| - accumCount..];
    OpenGroup(ds, accumCount, d);
    NextDigit(mode.Base(), open, d);
    GroupFits(mode, open + [d]);
    PackedAppend(mode, done, open + [d]);
    PackedGroup(mode, open + [d]);
    NoDigits(mode.Base(), ds + [d]);
    OneMoreGroup(mode, |ds| - accumCount);
  }

  lemma OneMoreGroup(mode: Mode, n: nat)
    requires Whole(mode, n)
    ensures Whole(mode, n + mode.Group())
  {
  }

  lemma NoDigits(base: nat, ds: seq<nat>)
    ensures FromDigits(base, ds[|ds|..]) == 0 && ds[..|ds|] == ds
  {
  }

  lemma AccumulatedEnd(mode: Mode, ds: seq<nat>, accumData: nat, accumCount: nat, bb: Bits)
    requires Accumulated(mode, ds, accumData, accumCount, bb) && BelowBase(mode, ds)
    ensures accumCount > 0 ==> accumData < Pow2(mode.Width(accumCount)) && mode.Width(accumCount) <= 31
    ensures Packed(mode, ds) == if accumCount > 0 then bb + BitsOf(accumData, mode.Width(accumCount)) else bb
  {
    var done, open := ds[..|ds| - accumCount], ds[|ds| - accumCount..];
    assert ds == done + open;
    if accumCount == 0 {
      assert done == ds;
    } else {
      GroupFits(mode, open);
      PackedAppend(mode, done, open);
      PackedGroup(mode, open);
    }
  }

  method MakeNumeric(text: seq<byte>) returns (r: Option<Segment>)
    ensures r.Some? <==> Encodable(Numeric, text)
    ensures r.Some? ==> r.value.mode == Numeric && MadeOf(r.value, text)
  {
    hide Accumulated, Packed, FromDigits, Symbols, Pow2, BitsOf, BelowBase;
    var bb: Bits, accumData: nat, accumCount: nat, charCount: nat := [], 0, 0, 0;
    EmptyAccumulator(Numeric);
    while charCount < |text|
      invariant 0 <= charCount <= |text| && Encodable(Numeric, text[..charCount])
      invariant accumCount < 3
      invariant Accumulated(Numeric, Symbols(Numeric, text[..charCount]), accumData, accumCount, bb)
    {
      var c := text[charCount];
      if c < 48 || c > 57 {
        assert !HasSymbol(Numeric, text[charCount]);
        return None;
      }
      ghost var before := text[..charCount];
      assert text[..charCount + 1] == before + [c];
      ExtendSymbols(Numeric, before, c);
      if accumCount == 2 {
        CompleteGroup(Numeric, Symbols(Numeric, before), accumData, accumCount, bb, c - 48);
      } else {
        AccumulateDigit(Numeric, Symbols(Numeric, before), accumData, accumCount, bb, c - 48);
      }
      accumData := accumData * 10 + (c - 48);
      accumCount := accumCount + 1;
      if accumCount == 3 {
        bb := AppendBits(bb, accumData, 10);
        accumData := 0;
        accumCount := 0;
      }
      charCount := charCount + 1;
    }
    assert text[..charCount] == text;
    AccumulatedEnd(Numeric, Symbols(Numeric, text), accumData, accumCount, bb);
    if accumCount > 0 {
      bb := AppendBits(bb, accumData, accumCount * 3 + 1);
    }
    r := Some(Segment(Numeric, charCount, bb));
  }

  lemma EmptyAccumulator(mode: Mode)
    ensures Encodable(mode, []) && Accumulated(mode, Symbols(mode, []), 0, 0, [])
  {
  }

  lemma ExtendSymbols(mode: Mode, text: seq<byte>, c: byte)
    requires Encodable(mode, text) && HasSymbol(mode, c)
    ensures Encodable(mode, text + [c])
    ensures Symbols(mode, text + [c]) == Symbols(mode, text) + [Symbol(mode, c)]
    ensures BelowBase(mode, Symbols(mode, text))
  {
  }

  method MakeAlphanumeric(text: seq<byte>) returns (r: Option<Segment>)
    ensures r.Some? <==> Encodable(Alphanumeric, text)
    ensures r.Some? ==> r.value.mode == Alphanumeric && MadeOf(r.value, text)
  {
    hide Accumulated, Packed, FromDigits, Symbols, Pow2, BitsOf, BelowBase, Position;
    var bb: Bits, accumData: nat, accumCount: nat, charCount: nat := [], 0, 0, 0;
    EmptyAccumulator(Alphanumeric);
    while charCount < |text|
      invariant 0 <= charCount <= |text| && Encodable(Alphanumeric, text[..charCount])
      invariant accumCount < 2
      invariant Accumulated(Alphanumeric, Symbols(Alphanumeric, text[..charCount]), accumData, accumCount, bb)
    {
      var temp := Position(text[charCount], 0);
      if temp.None? {
        assert !HasSymbol(Alphanumeric, text[charCount]);
        return None;
      }
      ghost var before := text[..charCount];
      assert text[..charCount + 1] == before + [text[charCount]];
      ExtendSymbols(Alphanumeric, before, text[charCount]);
      if accumCount == 1 {
        CompleteGroup(Alphanumeric, Symbols(Alphanumeric, before), accumData, accumCount, bb, temp.value);
      } else {
        AccumulateDigit(Alphanumeric, Symbols(Alphanumeric, before), accumData, accumCount, bb, temp.value);
      }
      accumData := accumData * 45 + temp.value;
      accumCount := accumCount + 1;
      if accumCount == 2 {
        bb := AppendBits(bb, accumData, 11);
        accumData := 0;
        accumCount := 0;
      }
      charCount := charCount + 1;
    }
    assert text[..charCount] == text;
    AccumulatedEnd(Alphanumeric, Symbols(Alphanumeric, text), accumData, accumCount, bb);
    if accumCount > 0 {
      bb := AppendBits(bb, accumData, 6);
    }
    r := Some(Segment(Alphanumeric, charCount, bb));
  }

  method MakeBytes(data: seq<byte>) returns (r: Option<Segment>)
    ensures r.Some? <==> |data| <= INT_MAX
    ensures r.Some? ==> r.value.mode == Byte && MadeOf(r.value, data)
  {
    hide Accumulated, Packed, FromDigits, Symbols, Pow2, BitsOf, BelowBase;
    if |data| > INT_MAX {
      return None;
    }
    var bb: Bits := [];
    EmptyAccumulator(Byte);
    for i := 0 to |data|
      invariant Accumulated(Byte, Symbols(Byte, data[..i]), 0, 0, bb)
    {
      assert data[..i + 1] == data[..i] + [data[i]];
      ExtendSymbols(Byte, data[..i], data[i]);
      CompleteGroup(Byte, Symbols(Byte, data[..i]), 0, 0, bb, data[i]);
      bb := AppendBits(bb, data[i], 8);
    }
    assert data[..|data|] == data;
    AccumulatedEnd(Byte, Symbols(Byte, data), 0, 0, bb);
    r := Some(Segment(Byte, |data|, bb));
  }

  method IsNumeric(text: seq<byte>) returns (yes: bool)
    ensures yes <==> Encodable(Numeric, text)
  {
    for i := 0 to |text|
      invariant Encodable(Numeric, text[..i])
    {
      if text[i] < 48 || text[i] > 57 {
        assert !HasSymbol(Numeric, text[i]);
        return false;
      }
      assert forall k :: 0 <= k < i ==> HasSymbol(Numeric, text[..i][k]);
    }
    assert text[..|text|] == text;
    yes := true;
  }

  method IsAlphanumeric(text: seq<byte>) returns (yes: bool)
    ensures yes <==> Encodable(Alphanumeric, text)
  {
    hide Position;
    for i := 0 to |text|
      invariant Encodable(Alphanumeric, text[..i])
    {
      if Position(text[i], 0).None? {
        assert !HasSymbol(Alphanumeric, text[i]);
        return false;
      }
      assert forall k :: 0 <= k < i ==> HasSymbol(Alphanumeric, text[..i][k]);
    }
    assert text[..|text|] == text;
    yes := true;
  }

  function DensestMode(text: seq<byte>): Mode {
    if Encodable(Numeric, text) then Numeric
    else if Encodable(Alphanumeric, text) then Alphanumeric
    else Byte
  }

  /** The segments spell the text, in the densest mode that has all its characters. */
  method MakeSegments(text: seq<byte>) returns (r: Option<seq<Segment>>)
    ensures r.None? <==> DensestMode(text) == Byte && |text| > INT_MAX
    ensures r.Some? && text == [] ==> r.value == []
    ensures r.Some? && text != [] ==> |r.value| == 1 && r.value[0].mode == DensestMode(text) && MadeOf(r.value[0], text)
  {
    hide MadeOf;
    if text == [] {
      return Some([]);
    }
    var numeric := IsNumeric(text);
    if numeric {
      var seg := MakeNumeric(text);
      return Some([seg.value]);
    }
    var alphanumeric := IsAlphanumeric(text);
    if alphanumeric {
      var seg := MakeAlphanumeric(text);
      return Some([seg.value]);
    }
    var seg := MakeBytes(text);
    r := if seg.None? then None else Some([seg.value]);
  }
}
