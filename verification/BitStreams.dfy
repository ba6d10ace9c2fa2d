/** Bit strings: the numbers they spell, most significant bit first, and the
    codewords they are packed into. */
module BitStreams {
  import opened Arithmetic
  import opened GaloisField

  type Bits = seq<bool>

  function ValueOf(bits: Bits): (v: nat) {
    if bits == [] then 0 else 2 * ValueOf(bits[..|bits| - 1]) + if bits[|bits| - 1] then 1 else 0
  }

  function BitsOf(v: nat, len: nat): (bits: Bits)
    ensures |bits| == len
  {
    if len == 0 then [] else BitsOf(v / 2, len - 1) + [v % 2 == 1]
  }

  lemma {:induction false} ValueOfBitsOf(v: nat, len: nat)
    requires v < Pow2(len)
    ensures ValueOf(BitsOf(v, len)) == v
  {
    if len > 0 {
      ValueOfBitsOf(v / 2, len - 1);
      var bits := BitsOf(v, len);
      assert bits[..len - 1] == BitsOf(v / 2, len - 1);
    }
  }

  lemma {:induction false} ValueBound(bits: Bits)
    ensures ValueOf(bits) < Pow2(|bits|)
  {
    if bits != [] { ValueBound(bits[..|bits| - 1]); }
  }

  /** appendBits: bit i of the value, for i from len - 1 down to 0. */
  method AppendBits(bb: Bits, v: nat, len: nat) returns (r: Bits)
    requires len <= 31 && v < Pow2(len)
    ensures r == bb + BitsOf(v, len)
  {
    hide Pow2;
    r := bb;
    var i := len;
    while i > 0
      invariant 0 <= i <= len
      invariant r == bb + BitsOf(v / Pow2(i), len - i)
    {
      i := i - 1;
      HalfShift(v, i);
      NextBit(v / Pow2(i), len - i);
      r := r + [v / Pow2(i) % 2 == 1];
    }
    NoShift(v);
  }

  lemma NoShift(v: nat)
    ensures v / Pow2(0) == v
  {
  }

  lemma NextBit(v: nat, n: nat)
    requires n > 0
    ensures BitsOf(v, n) == BitsOf(v / 2, n - 1) + [v % 2 == 1]
  {
  }

  lemma HalfShift(v: nat, i: nat)
    ensures v / Pow2(i + 1) == v / Pow2(i) / 2
  {
    DivDiv(v, Pow2(i), 2);
  }

  // 0x80 >> j
  function Mask(j: nat): bv8 {
    if j == 0 then 0x80 else if j == 1 then 0x40 else if j == 2 then 0x20 else if j == 3 then 0x10
    else if j == 4 then 0x08 else if j == 5 then 0x04 else if j == 6 then 0x02 else 0x01
  }

  function BitAt(b: Gf, j: nat): bool {
    b.v & Mask(j) != 0
  }

  function WithBit(b: Gf, j: nat): Gf {
    Gf(b.v | Mask(j))
  }

  lemma BitAtWithBit(b: Gf, j: nat, k: nat)
    requires j < 8 && k < 8
    ensures BitAt(WithBit(b, j), k) == (k == j || BitAt(b, k))
  {
    MaskBits(b.v, j, k);
  }

  lemma MaskBits(v: bv8, j: nat, k: nat)
    requires j < 8 && k < 8
    ensures ((v | Mask(j)) & Mask(k) != 0) == (k == j || v & Mask(k) != 0)
  {
    OneBit(v, Mask(j), Mask(k));
  }

  lemma OneBit(v: bv8, m: bv8, n: bv8)
    ensures m & n == 0 ==> ((v | m) & n != 0) == (v & n != 0)
    ensures (v | m) & m == m
  {
  }

  lemma ZeroBits(k: nat)
    ensures !BitAt(ZERO, k)
  {
  }

  lemma AllBits(a: Gf, b: Gf)
    requires forall k :: 0 <= k < 8 ==> BitAt(a, k) == BitAt(b, k)
    ensures a == b
  {
    forall k | 0 <= k < 8 ensures (a.v & Mask(k) != 0) == (b.v & Mask(k) != 0) {
      assert BitAt(a, k) == BitAt(b, k);
    }
    assert Mask(0) == 0x80 && Mask(1) == 0x40 && Mask(2) == 0x20 && Mask(3) == 0x10;
    assert Mask(4) == 0x08 && Mask(5) == 0x04 && Mask(6) == 0x02 && Mask(7) == 0x01;
    EightBits(a.v, b.v);
  }

  lemma EightBits(a: bv8, b: bv8)
    requires (a & 0x80 != 0) == (b & 0x80 != 0) && (a & 0x40 != 0) == (b & 0x40 != 0)
    requires (a & 0x20 != 0) == (b & 0x20 != 0) && (a & 0x10 != 0) == (b & 0x10 != 0)
    requires (a & 0x08 != 0) == (b & 0x08 != 0) && (a & 0x04 != 0) == (b & 0x04 != 0)
    requires (a & 0x02 != 0) == (b & 0x02 != 0) && (a & 0x01 != 0) == (b & 0x01 != 0)
    ensures a == b
  {
  }

  function CodeBits(data: seq<Gf>): (bits: Bits)
    ensures |bits| == 8 * |data|
    ensures forall i :: 0 <= i < |bits| ==> bits[i] == BitAt(data[i / 8], i % 8)
  {
    seq(8 * |data|, i requires 0 <= i < 8 * |data| => BitAt(data[i / 8], i % 8))
  }

  // Equal bits mean equal codewords.
  lemma CodeBitsInjective(a: seq<Gf>, b: seq<Gf>)
    requires CodeBits(a) == CodeBits(b)
    ensures a == b
  {
    hide BitAt;
    assert |CodeBits(a)| == |CodeBits(b)|;
    forall i | 0 <= i < |a| ensures a[i] == b[i] {
      forall k | 0 <= k < 8 ensures BitAt(a[i], k) == BitAt(b[i], k) {
        assert CodeBits(a)[8 * i + k] == CodeBits(b)[8 * i + k];
      }
      AllBits(a[i], b[i]);
    }
  }

  /** Packs bits into codewords, big endian. */
  method PackBits(bb: Bits) returns (codewords: seq<Gf>)
    requires |bb| % 8 == 0
    ensures CodeBits(codewords) == bb
  {
    hide BitAt, WithBit;
    codewords := seq(|bb| / 8, _ => ZERO);
    forall k ensures !BitAt(ZERO, k) { ZeroBits(k); }
    for i := 0 to |bb|
      invariant |codewords| == |bb| / 8
      invariant forall k :: 0 <= k < |bb| ==> BitAt(codewords[k / 8], k % 8) == (k < i && bb[k])
    {
      if bb[i] {
        ghost var before := codewords;
        codewords := codewords[i / 8 := WithBit(codewords[i / 8], i % 8)];
        forall k | 0 <= k < |bb| ensures BitAt(codewords[k / 8], k % 8) == (k < i + 1 && bb[k]) {
          BitAtWithBit(before[i / 8], i % 8, k % 8);
        }
      }
    }
  }
}
