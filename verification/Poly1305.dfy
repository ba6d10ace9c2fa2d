/** Poly1305 (section 2.5 of RFC 8439) as monocypher computes it: 32-bit limbs, lazy carries, a 16-byte input buffer. */
module Poly1305 {
  import opened Arithmetic
  import opened Bytes

  const B4 := 0x1_00000000_00000000_00000000_00000000         // four limbs, 2^128
  const P := 0x3_ffffffff_ffffffff_ffffffff_fffffffb          // 2^130 - 5
  const U64 := 0x1_00000000_00000000

  /* ---------- one block on limbs ---------- */

  function Value(h0: int, h1: int, h2: int, h3: int, h4: int): int {
    h0 + h1 * B + h2 * (B * B) + h3 * (B * B * B) + h4 * B4
  }

  // r after clamping: 28 bits per limb, and the two low bits of all but the first limb clear.
  predicate Clamped(r0: int, r1: int, r2: int, r3: int) {
    0 <= r0 <= 0x0fffffff && 0 <= r1 <= 0x0ffffffc && 0 <= r2 <= 0x0ffffffc && 0 <= r3 <= 0x0ffffffc
    && r1 % 4 == 0 && r2 % 4 == 0 && r3 % 4 == 0
  }

  // The bound the source states for h between blocks.
  predicate Bounded(h0: int, h1: int, h2: int, h3: int, h4: int) {
    0 <= h0 < B && 0 <= h1 < B && 0 <= h2 < B && 0 <= h3 < B && 0 <= h4 <= 4
  }

  // (h + c) * r without carries is the product modulo 2^130 - 5.
  lemma ProductIdentity(s0: int, s1: int, s2: int, s3: int, s4: int, q0: int, t0: int, q1: int, q2: int, q3: int)
    ensures var (r0, r1, r2, r3) := (4 * q0 + t0, 4 * q1, 4 * q2, 4 * q3);
            var (rr0, rr1, rr2, rr3) := (5 * q0, 5 * q1, 5 * q2, 5 * q3);
            Value(s0, s1, s2, s3, s4) * Value(r0, r1, r2, r3, 0)
            == Value(Dot(s0, r0, s1, rr3, s2, rr2, s3, rr1, s4, rr0), Dot(s0, r1, s1, r0, s2, rr3, s3, rr2, s4, rr1),
                     Dot(s0, r2, s1, r1, s2, r0, s3, rr3, s4, rr2), Dot(s0, r3, s1, r2, s2, r1, s3, r0, s4, rr3), s4 * t0)
               + P * Excess(s1, s2, s3, s4, q0, q1, q2, q3)
  {
  }

  // How often 2^130 - 5 is taken out of the product.
  function Excess(s1: int, s2: int, s3: int, s4: int, q0: int, q1: int, q2: int, q3: int): int {
    (s1 * q3 + s2 * q2 + s3 * q1 + s4 * q0) + (s2 * q3 + s3 * q2 + s4 * q1) * B
    + (s3 * q3 + s4 * q2) * (B * B) + s4 * q3 * (B * B * B)
  }

  // The partial reduction subtracts a multiple of 2^130 - 5.
  lemma CarryIdentity(x0: int, x1: int, x2: int, x3: int, x4: int, u0: int, u1: int, u2: int, u3: int, u4: int, u5: int)
    requires u5 == x3 / B + x4 && u0 == u5 / 4 * 5 + x0 % B
    requires u1 == u0 / B + x1 % B + x0 / B && u2 == u1 / B + x2 % B + x1 / B && u3 == u2 / B + x3 % B + x2 / B
    requires u4 == u3 / B + u5 % 4
    ensures Value(u0 % B, u1 % B, u2 % B, u3 % B, u4) == Value(x0, x1, x2, x3, x4) - P * (u5 / 4)
  {
  }

  // (h + c) * r without carry propagation
  method MultiplyLimbs(s0: int, s1: int, s2: int, s3: int, s4: int, r0: int, r1: int, r2: int, r3: int)
    returns (x0: int, x1: int, x2: int, x3: int, x4: int, ghost k: int)
    requires 0 <= s0 <= 2 * B - 2 && 0 <= s1 <= 2 * B - 2 && 0 <= s2 <= 2 * B - 2 && 0 <= s3 <= 2 * B - 2 && 0 <= s4 <= 5
    requires Clamped(r0, r1, r2, r3)
    ensures 0 <= x0 < 0xa0000000_00000000 && 0 <= x1 < 0xa0000000_00000000 && 0 <= x2 < 0xa0000000_00000000
    ensures 0 <= x3 <= 0x7fffffe6_00000000 && 0 <= x4 <= 15
    ensures Value(x0, x1, x2, x3, x4) == Value(s0, s1, s2, s3, s4) * Value(r0, r1, r2, r3, 0) - P * k
  {
    hide Value, Dot;
    var rr0, rr1, rr2, rr3, rr4 := r0 / 4 * 5, r1 / 4 + r1, r2 / 4 + r2, r3 / 4 + r3, r0 % 4;
    x0 := Dot(s0, r0, s1, rr3, s2, rr2, s3, rr1, s4, rr0);
    x1 := Dot(s0, r1, s1, r0, s2, rr3, s3, rr2, s4, rr1);
    x2 := Dot(s0, r2, s1, r1, s2, r0, s3, rr3, s4, rr2);
    x3 := Dot(s0, r3, s1, r2, s2, r1, s3, r0, s4, rr3);
    x4 := s4 * rr4;
    Products(s0, s1, s2, s3, s4, r0, r1, r2, r3, rr0, rr1, rr2, rr3);
    MulBound(s4, rr4, 5, 3);
    k := ProductCongruent(s0, s1, s2, s3, s4, r0, r1, r2, r3, rr0, rr1, rr2, rr3);
  }

  function Dot(a0: int, b0: int, a1: int, b1: int, a2: int, b2: int, a3: int, b3: int, a4: int, b4: int): int {
    a0 * b0 + a1 * b1 + a2 * b2 + a3 * b3 + a4 * b4
  }

  // partial reduction modulo 2^130 - 5; every intermediate fits its machine type
  method ReducePartially(x0: int, x1: int, x2: int, x3: int, x4: int)
    returns (g0: int, g1: int, g2: int, g3: int, g4: int, ghost k: int)
    requires 0 <= x0 < 0xa0000000_00000000 && 0 <= x1 < 0xa0000000_00000000 && 0 <= x2 < 0xa0000000_00000000
    requires 0 <= x3 <= 0x7fffffe6_00000000 && 0 <= x4 <= 15
    ensures Bounded(g0, g1, g2, g3, g4)
    ensures Value(g0, g1, g2, g3, g4) == Value(x0, x1, x2, x3, x4) - P * k
  {
    hide Value;
    var u5 := x3 / B + x4;
    assert u5 <= 0x7ffffff5 && u5 / 4 * 5 < B;
    var u0 := u5 / 4 * 5 + x0 % B;
    var u1 := u0 / B + x1 % B + x0 / B;
    var u2 := u1 / B + x2 % B + x1 / B;
    var u3 := u2 / B + x3 % B + x2 / B;
    assert u0 < U64 && u1 < U64 && u2 < U64 && u3 < 2 * B;
    var u4 := u3 / B + u5 % 4;
    g0, g1, g2, g3, g4 := u0 % B, u1 % B, u2 % B, u3 % B, u4;
    k := u5 / 4;
    CarryIdentity(x0, x1, x2, x3, x4, u0, u1, u2, u3, u4, u5);
  }

  lemma SumValue(h0: int, h1: int, h2: int, h3: int, h4: int, c0: int, c1: int, c2: int, c3: int, c4: int)
    ensures Value(h0 + c0, h1 + c1, h2 + c2, h3 + c3, h4 + c4) == Value(h0, h1, h2, h3, h4) + Value(c0, c1, c2, c3, c4)
  {
  }

  // The limb products stay well below 2^64.
  lemma Products(s0: int, s1: int, s2: int, s3: int, s4: int, r0: int, r1: int, r2: int, r3: int,
                 rr0: int, rr1: int, rr2: int, rr3: int)
    requires 0 <= s0 <= 2 * B - 2 && 0 <= s1 <= 2 * B - 2 && 0 <= s2 <= 2 * B - 2 && 0 <= s3 <= 2 * B - 2 && 0 <= s4 <= 5
    requires Clamped(r0, r1, r2, r3)
    requires rr0 == r0 / 4 * 5 && rr1 == r1 / 4 + r1 && rr2 == r2 / 4 + r2 && rr3 == r3 / 4 + r3
    ensures 0 <= Dot(s0, r0, s1, rr3, s2, rr2, s3, rr1, s4, rr0) < 0xa0000000_00000000
    ensures 0 <= Dot(s0, r1, s1, r0, s2, rr3, s3, rr2, s4, rr1) < 0xa0000000_00000000
    ensures 0 <= Dot(s0, r2, s1, r1, s2, r0, s3, rr3, s4, rr2) < 0xa0000000_00000000
    ensures 0 <= Dot(s0, r3, s1, r2, s2, r1, s3, r0, s4, rr3) <= 0x7fffffe6_00000000
  {
    var S, R, RR := 2 * B - 2, 0x0fffffff, 0x13fffffb;
    MulBound(s0, r0, S, R); MulBound(s1, rr3, S, RR); MulBound(s2, rr2, S, RR); MulBound(s3, rr1, S, RR); MulBound(s4, rr0, 5, RR);
    MulBound(s0, r1, S, R); MulBound(s1, r0, S, R); MulBound(s2, rr3, S, RR); MulBound(s3, rr2, S, RR); MulBound(s4, rr1, 5, RR);
    MulBound(s0, r2, S, R); MulBound(s1, r1, S, R); MulBound(s2, r0, S, R); MulBound(s3, rr3, S, RR); MulBound(s4, rr2, 5, RR);
    MulBound(s0, r3, S, 0x0ffffffc); MulBound(s1, r2, S, 0x0ffffffc); MulBound(s2, r1, S, 0x0ffffffc); MulBound(s3, r0, S, R); MulBound(s4, rr3, 5, RR);
  }

  lemma ProductCongruent(s0: int, s1: int, s2: int, s3: int, s4: int, r0: int, r1: int, r2: int, r3: int,
                         rr0: int, rr1: int, rr2: int, rr3: int) returns (k: int)
    requires Clamped(r0, r1, r2, r3)
    requires rr0 == r0 / 4 * 5 && rr1 == r1 / 4 + r1 && rr2 == r2 / 4 + r2 && rr3 == r3 / 4 + r3
    ensures Value(Dot(s0, r0, s1, rr3, s2, rr2, s3, rr1, s4, rr0), Dot(s0, r1, s1, r0, s2, rr3, s3, rr2, s4, rr1),
                  Dot(s0, r2, s1, r1, s2, r0, s3, rr3, s4, rr2), Dot(s0, r3, s1, r2, s2, r1, s3, r0, s4, rr3), s4 * (r0 % 4))
            == Value(s0, s1, s2, s3, s4) * Value(r0, r1, r2, r3, 0) - P * k
  {
    hide Value, Dot, Excess;
    var q0, t0, q1, q2, q3 := r0 / 4, r0 % 4, r1 / 4, r2 / 4, r3 / 4;
    ProductIdentity(s0, s1, s2, s3, s4, q0, t0, q1, q2, q3);
    k := Excess(s1, s2, s3, s4, q0, q1, q2, q3);
  }

  /* ---------- bytes ---------- */

  // Sixteen bytes are four little-endian words.
  lemma LeWords(b: seq<byte>)
    requires |b| == 16
    ensures Le(b) == Value(Load32(b[0..4]), Load32(b[4..8]), Load32(b[8..12]), Load32(b[12..16]), 0)
    ensures Pow256(16) == B4
  {
    hide Load32;
    LeLoad32(b[0..4]);
    LeLoad32(b[4..8]);
    LeLoad32(b[8..12]);
    LeLoad32(b[12..16]);
    assert b == b[0..4] + b[4..] && b[4..] == b[4..8] + b[8..] && b[8..] == b[8..12] + b[12..16];
    LeAppend(b[0..4], b[4..]);
    LeAppend(b[4..8], b[8..]);
    LeAppend(b[8..12], b[12..16]);
    Pow256Add(4, 4);
    Pow256Add(8, 8);
  }

  /* ---------- section 2.5 of RFC 8439 ---------- */

  // A block of 1 to 16 bytes is read with one bit beyond its last byte.
  function Absorbed(acc: nat, r: nat, block: seq<byte>): nat {
    (acc + Le(block) + Pow256(|block|)) * r % P
  }

  function Absorb(acc: nat, r: nat, msg: seq<byte>): nat
    decreases |msg|
  {
    if msg == [] then acc
    else if |msg| <= 16 then Absorbed(acc, r, msg)
    else Absorb(Absorbed(acc, r, msg[..16]), r, msg[16..])
  }

  // The clamped first half of the key, byte by byte.
  function ClampByte(i: nat, b: byte): byte {
    if i % 4 == 3 then b % 16 else if i % 4 == 0 && i > 0 then b / 4 * 4 else b
  }

  function ClampedR(key: seq<byte>): nat
    requires |key| == 32
  {
    Le(seq(16, i requires 0 <= i < 16 => ClampByte(i, key[i])))
  }

  function Mac(key: seq<byte>, msg: seq<byte>): nat
    requires |key| == 32
  {
    (Absorb(0, ClampedR(key), msg) + Le(key[16..])) % B4
  }

  // Absorbing whole blocks first and one more afterwards.
  lemma {:induction false} AbsorbAppend(acc: nat, r: nat, m: seq<byte>, b: seq<byte>)
    requires |m| % 16 == 0 && 0 < |b| <= 16
    ensures Absorb(acc, r, m + b) == Absorbed(Absorb(acc, r, m), r, b)
    decreases |m|
  {
    hide Absorbed;
    if m == [] {
      assert m + b == b;
    } else {
      assert (m + b)[..16] == m[..16] && (m + b)[16..] == m[16..] + b;
      if |m| == 16 {
        assert m[..16] == m && m[16..] + b == b;
      } else {
        AbsorbAppend(Absorbed(acc, r, m[..16]), r, m[16..], b);
      }
    }
  }

  lemma ClampedWord(b: seq<byte>)
    requires |b| == 4
    ensures Load32([b[0], b[1], b[2], b[3] % 16]) == Load32(b) % 0x10000000
    ensures Load32([b[0] / 4 * 4, b[1], b[2], b[3] % 16]) == Load32(b) % 0x10000000 / 4 * 4
  {
    ClampArith(b[0], b[1], b[2], b[3]);
  }

  lemma ClampArith(b0: int, b1: int, b2: int, b3: int)
    requires 0 <= b0 < 256 && 0 <= b1 < 256 && 0 <= b2 < 256 && 0 <= b3 < 256
    ensures var low := b0 + 0x100 * b1 + 0x10000 * b2;
      && low + 0x1000000 * (b3 % 16) == (low + 0x1000000 * b3) % 0x10000000
      && b0 / 4 * 4 + 0x100 * b1 + 0x10000 * b2 + 0x1000000 * (b3 % 16) == (low + 0x1000000 * b3) % 0x10000000 / 4 * 4
  {
    var low, k, m := b0 + 0x100 * b1 + 0x10000 * b2, b3 / 16, b3 % 16;
    DivModUnique(low + 0x1000000 * b3, 0x10000000, k, low + 0x1000000 * m);
    DivModUnique(low + 0x1000000 * m, 4, b0 / 4 + 0x40 * b1 + 0x4000 * b2 + 0x400000 * m, b0 % 4);
  }

  // The masked words are the clamped bytes.
  lemma ClampedWords(key: seq<byte>)
    requires |key| == 32
    ensures ClampedR(key) == Value(Load32(key[0..4]) % 0x10000000, Load32(key[4..8]) % 0x10000000 / 4 * 4,
                                   Load32(key[8..12]) % 0x10000000 / 4 * 4, Load32(key[12..16]) % 0x10000000 / 4 * 4, 0)
  {
    hide Le, Load32, Value;
    var c := seq(16, i requires 0 <= i < 16 => ClampByte(i, key[i]));
    ClampedWord(key[0..4]);
    ClampedWord(key[4..8]);
    ClampedWord(key[8..12]);
    ClampedWord(key[12..16]);
    assert c[0..4] == [key[0], key[1], key[2], key[3] % 16];
    assert c[4..8] == [key[4] / 4 * 4, key[5], key[6], key[7] % 16];
    assert c[8..12] == [key[8] / 4 * 4, key[9], key[10], key[11] % 16];
    assert c[12..16] == [key[12] / 4 * 4, key[13], key[14], key[15] % 16];
    LeWords(c);
  }

  // A padded last block, read without the extra bit, is the short block read with it.
  lemma PaddedBlock(b: seq<byte>, padded: seq<byte>)
    requires |b| < 16 && |padded| == 16 && padded[..|b|] == b && padded[|b|] == 1
    requires forall i :: |b| < i < 16 ==> padded[i] == 0
    ensures Le(padded) == Le(b) + Pow256(|b|)
  {
    hide Le, Pow256;
    var t := padded[|b|..];
    assert padded == b + t;
    LeAppend(b, t);
    LeZeros(t[1..]);
    LeHead(t);
  }

  lemma {:induction false} LeZeros(b: seq<byte>)
    requires forall i :: 0 <= i < |b| ==> b[i] == 0
    ensures Le(b) == 0
  {
    if b != [] { LeZeros(b[1..]); }
  }

  // One block step, seen modulo 2^130 - 5.
  lemma StepCongruent(h: int, n: int, r: int, g: int, k: int)
    requires g == (h + n) * r - P * k
    ensures g % P == (h % P + n) * r % P
  {
    var q, a := h / P, h % P;
    assert h == P * q + a;
    assert (h + n) * r == (a + n) * r + P * (q * r) by { Distribute(a, n, q, r); }
    assert g == (a + n) * r + P * (q * r - k);
    ModShift((a + n) * r, q * r - k, P);
  }

  lemma Distribute(a: int, n: int, q: int, r: int)
    ensures (P * q + a + n) * r == (a + n) * r + P * (q * r)
  {
  }

  /* ---------- the context ---------- */

  datatype Acc = Acc(h0: int, h1: int, h2: int, h3: int, h4: int) {
    function Num(): int { Value(h0, h1, h2, h3, h4) }
    predicate Ok() { Bounded(h0, h1, h2, h3, h4) }
  }

  datatype Words = Words(w0: int, w1: int, w2: int, w3: int) {
    function Num(): int { Value(w0, w1, w2, w3, 0) }
    predicate IsKey() { Clamped(w0, w1, w2, w3) }
    predicate Ok() { 0 <= w0 < B && 0 <= w1 < B && 0 <= w2 < B && 0 <= w3 < B }
  }

  // One block into the accumulator.
  method AbsorbBlock(h: Acc, r: Words, block: seq<byte>, end: int) returns (g: Acc)
    requires h.Ok() && r.IsKey() && |block| == 16 && 0 <= end <= 1
    ensures g.Ok() && g.Num() % P == (h.Num() % P + Le(block) + end * B4) * r.Num() % P
  {
    hide Value, Le, Load32;
    var c0, c1, c2, c3 := Load32(block[0..4]), Load32(block[4..8]), Load32(block[8..12]), Load32(block[12..16]);
    LeWords(block);
    SumValue(c0, c1, c2, c3, 0, 0, 0, 0, 0, end);
    EndValue(end);
    SumValue(h.h0, h.h1, h.h2, h.h3, h.h4, c0, c1, c2, c3, end);
    var x0, x1, x2, x3, x4, k := MultiplyLimbs(h.h0 + c0, h.h1 + c1, h.h2 + c2, h.h3 + c3, h.h4 + end, r.w0, r.w1, r.w2, r.w3);
    var g0, g1, g2, g3, g4, k' := ReducePartially(x0, x1, x2, x3, x4);
    g := Acc(g0, g1, g2, g3, g4);
    StepCongruent(h.Num(), Le(block) + end * B4, r.Num(), g.Num(), k + k');
  }

  lemma EndValue(end: int) ensures Value(0, 0, 0, 0, end) == end * B4 {}

  // The masks 0x0fffffff and 0x0ffffffc on the first four words of the key.
  function InitialR(key: seq<byte>): Words
    requires |key| == 32
  {
    Words(Load32(key[0..4]) % 0x10000000, Load32(key[4..8]) % 0x10000000 / 4 * 4,
          Load32(key[8..12]) % 0x10000000 / 4 * 4, Load32(key[12..16]) % 0x10000000 / 4 * 4)
  }

  function InitialPad(key: seq<byte>): Words
    requires |key| == 32
  {
    Words(Load32(key[16..20]), Load32(key[20..24]), Load32(key[24..28]), Load32(key[28..32]))
  }

  lemma InitialWords(key: seq<byte>)
    requires |key| == 32
    ensures InitialR(key).IsKey() && InitialR(key).Num() == ClampedR(key)
    ensures InitialPad(key).Ok() && InitialPad(key).Num() == Le(key[16..])
  {
    hide Value, Load32, Le, ClampedR;
    ClampedWords(key);
    PadWords(key);
  }

  class Context {
    var h: Acc
    var r: Words
    var pad: Words
    var c: seq<byte>
    var cIdx: nat

    ghost const key: seq<byte>
    ghost var message: seq<byte>   // everything fed in so far

    // The buffer holds the end of the message, the accumulator everything before it.
    ghost predicate Buffered()
      reads this
    {
      && h.Ok() && |key| == 32 && r.IsKey() && r.Num() == ClampedR(key) && pad.Ok() && pad.Num() == Le(key[16..])
      && |c| == 16 && cIdx <= 16 && cIdx <= |message| && (|message| - cIdx) % 16 == 0
      && c[..cIdx] == message[|message| - cIdx..]
      && h.Num() % P == Absorb(0, ClampedR(key), message[..|message| - cIdx])
    }

    ghost predicate Valid()
      reads this
    {
      Buffered() && cIdx < 16
    }

    constructor (key: seq<byte>)
      requires |key| == 32
      ensures Valid() && this.key == key && message == []
    {
      hide InitialR, InitialPad, Le, ClampedR, Words.Num, Words.Ok, Words.IsKey;
      this.key := key;
      h := Acc(0, 0, 0, 0, 0);
      c := seq(16, _ => 0);
      cIdx := 0;
      r := InitialR(key);
      pad := InitialPad(key);
      message := [];
      InitialWords(key);
    }

    // Bytes into the buffer; the block is not processed yet.
    method Append(bytes: seq<byte>)
      requires Buffered() && cIdx + |bytes| <= 16
      modifies this`c, this`cIdx, this`message
      ensures Buffered() && message == old(message) + bytes && cIdx == old(cIdx) + |bytes|
    {
      hide Acc.Ok, Acc.Num, Words.Ok, Words.Num, Words.IsKey, Absorb, ClampedR, Le;
      for i := 0 to |bytes|
        invariant Buffered() && cIdx == old(cIdx) + i && message == old(message) + bytes[..i]
      {
        ghost var before := message;
        c := c[cIdx := bytes[i]];
        cIdx := cIdx + 1;
        message := message + [bytes[i]];
        assert message[..|message| - cIdx] == before[..|before| - (cIdx - 1)];
        assert bytes[..i + 1] == bytes[..i] + [bytes[i]];
        assert c[..cIdx] == c[..cIdx - 1] + [bytes[i]];
      }
      assert bytes[..|bytes|] == bytes;
    }

    // A full buffer into the accumulator.
    method Flush()
      requires Buffered() && cIdx == 16
      modifies this`h, this`cIdx
      ensures Buffered() && cIdx == 0
    {
      hide Acc.Ok, Acc.Num, Words.Ok, Words.Num, Words.IsKey, Absorb, Absorbed, ClampedR, Le;
      ghost var done := message[..|message| - 16];
      var g := AbsorbBlock(h, r, c, 1);
      assert message[..|message|] == done + c;
      FullBlock(h.Num() % P, ClampedR(key), done, c);
      h := g;
      cIdx := 0;
    }

    // Whole blocks straight from the message.
    method PolyBlocks(input: seq<byte>, nbBlocks: nat)
      requires Buffered() && cIdx == 0 && 16 * nbBlocks <= |input|
      modifies this`h, this`message
      ensures Buffered() && message == old(message) + input[..16 * nbBlocks]
    {
      hide Acc.Ok, Acc.Num, Words.Ok, Words.Num, Words.IsKey, Absorb, Absorbed, ClampedR, Le;
      for i := 0 to nbBlocks
        invariant Buffered() && cIdx == 0 && message == old(message) + input[..16 * i]
      {
        var block := input[16 * i..16 * i + 16];
        var g := AbsorbBlock(h, r, block, 1);
        assert message[..|message|] == message && (message + block)[..|message + block|] == message + block;
        FullBlock(h.Num() % P, ClampedR(key), message, block);
        assert input[..16 * (i + 1)] == input[..16 * i] + block;
        h := g;
        message := message + block;
      }
    }

    method Update(input: seq<byte>)
      requires Valid()
      modifies this`h, this`c, this`cIdx, this`message
      ensures Valid() && message == old(message) + input
    {
      hide Buffered;
      if |input| == 0 {
        assert message + input == message;
        return;
      }
      var gap := if cIdx == 0 then 0 else 16 - cIdx;
      var aligned := if gap < |input| then gap else |input|;
      Append(input[..aligned]);
      if cIdx == 16 {
        Flush();
      }
      var rest := input[aligned..];
      if rest == [] {
        assert input[..aligned] == input;
      } else {
        var nbBlocks := |rest| / 16;
        var tail := rest[16 * nbBlocks..];
        PolyBlocks(rest, nbBlocks);
        Append(tail);
        Regroup(old(message), input, aligned, 16 * nbBlocks);
      }
    }

    // The tag of everything fed in, however it was cut into updates.
    method Final() returns (mac: seq<byte>)
      requires Valid()
      modifies this
      ensures |mac| == 16 && Le(mac) == Mac(key, old(message))
    {
      hide Acc.Ok, Acc.Num, Words.Ok, Words.Num, Words.IsKey, Absorb, Absorbed, ClampedR, Le;
      if cIdx != 0 {
        ghost var done, tail := message[..|message| - cIdx], message[|message| - cIdx..];
        var padded := c[..cIdx] + [1] + seq(15 - cIdx, _ => 0);
        PaddedBlock(tail, padded);
        var g := AbsorbBlock(h, r, padded, 0);
        assert message == done + tail;
        ShortBlock(h.Num() % P, ClampedR(key), done, tail, Le(padded));
        h := g;
      } else {
        assert message[..|message|] == message;
      }
      assert h.Num() % P == Absorb(0, ClampedR(key), message);
      mac := Finish(h, pad);
    }
  }

  lemma Regroup(m: seq<byte>, input: seq<byte>, i: nat, j: nat)
    requires i + j <= |input|
    ensures ((m + input[..i]) + input[i..][..j]) + input[i..][j..] == m + input
  {
  }

  lemma PadWords(key: seq<byte>)
    requires |key| == 32
    ensures Le(key[16..]) == Value(Load32(key[16..20]), Load32(key[20..24]), Load32(key[24..28]), Load32(key[28..32]), 0)
  {
    hide Value, Load32, Le;
    var s := key[16..];
    assert s[0..4] == key[16..20] && s[4..8] == key[20..24] && s[8..12] == key[24..28] && s[12..16] == key[28..32];
    LeWords(s);
  }

  lemma FullBlock(acc: nat, r: nat, done: seq<byte>, block: seq<byte>)
    requires |done| % 16 == 0 && |block| == 16 && acc == Absorb(0, r, done)
    ensures Absorb(0, r, done + block) == (acc + Le(block) + 1 * B4) * r % P
  {
    hide Le;
    AbsorbAppend(0, r, done, block);
    LeWords(block);
  }

  lemma ShortBlock(acc: nat, r: nat, done: seq<byte>, tail: seq<byte>, n: nat)
    requires |done| % 16 == 0 && 0 < |tail| < 16 && acc == Absorb(0, r, done) && n == Le(tail) + Pow256(|tail|)
    ensures Absorb(0, r, done + tail) == (acc + n + 0 * B4) * r % P
  {
    hide Le;
    AbsorbAppend(0, r, done, tail);
  }

  // Is the accumulator at or above 2^130 - 5?
  method TopCarry(h: Acc) returns (q: int)
    requires h.Ok()
    ensures (q == 0 || q == 1) && q == (h.Num() + 5) / (4 * B4)
  {
    var c0 := (5 + h.h0) / B;
    var c1 := (c0 + h.h1) / B;
    var c2 := (c1 + h.h2) / B;
    var c3 := (c2 + h.h3) / B;
    var c := c3 + h.h4;
    q := c / 4;
  }

  // Full reduction and the addition of the pad, modulo 2^128.
  method Finish(h: Acc, pad: Words) returns (mac: seq<byte>)
    requires h.Ok() && pad.Ok()
    ensures |mac| == 16 && Le(mac) == (h.Num() % P + pad.Num()) % B4
  {
    hide Le;
    var q := TopCarry(h);
    var c := q * 5;
    var t0 := c + h.h0 + pad.w0;
    var t1 := t0 / B + h.h1 + pad.w1;
    var t2 := t1 / B + h.h2 + pad.w2;
    var t3 := t2 / B + h.h3 + pad.w3;
    assert t0 < U64 && t1 < U64 && t2 < U64 && t3 < U64;
    mac := Store32(t0 % B) + Store32(t1 % B) + Store32(t2 % B) + Store32(t3 % B);
    FinishValue(h, pad, q, t0, t1, t2, t3);
    MacWords(mac, t0 % B, t1 % B, t2 % B, t3 % B);
  }

  lemma MacWords(mac: seq<byte>, a: int, b: int, c: int, d: int)
    requires 0 <= a < B && 0 <= b < B && 0 <= c < B && 0 <= d < B
    requires mac == Store32(a) + Store32(b) + Store32(c) + Store32(d)
    ensures Le(mac) == Value(a, b, c, d, 0)
  {
    hide Value, Load32, Le, Store32;
    assert mac[0..4] == Store32(a) && mac[4..8] == Store32(b) && mac[8..12] == Store32(c) && mac[12..16] == Store32(d);
    LeWords(mac);
  }

  lemma FinishReduce(h: Acc, q: int)
    requires h.Ok() && q == (h.Num() + 5) / (4 * B4) && (q == 0 || q == 1)
    ensures h.Num() % P == h.Num() - q * P
  {
    DivModUnique(h.Num(), P, q, h.Num() - q * P);
  }

  // The carry chain of the last addition.
  lemma FinishChain(a0: int, a1: int, a2: int, a3: int, t0: int, t1: int, t2: int, t3: int)
    requires t0 == a0 && t1 == t0 / B + a1 && t2 == t1 / B + a2 && t3 == t2 / B + a3
    ensures Value(t0 % B, t1 % B, t2 % B, t3 % B, 0) + B4 * (t3 / B) == Value(a0, a1, a2, a3, 0)
    ensures 0 <= Value(t0 % B, t1 % B, t2 % B, t3 % B, 0) < B4
  {
  }

  lemma FinishValue(h: Acc, pad: Words, q: int, t0: int, t1: int, t2: int, t3: int)
    requires h.Ok() && pad.Ok() && (q == 0 || q == 1) && q == (h.Num() + 5) / (4 * B4)
    requires t0 == 5 * q + h.h0 + pad.w0 && t1 == t0 / B + h.h1 + pad.w1
    requires t2 == t1 / B + h.h2 + pad.w2 && t3 == t2 / B + h.h3 + pad.w3
    ensures Value(t0 % B, t1 % B, t2 % B, t3 % B, 0) == (h.Num() % P + pad.Num()) % B4
  {
    FinishReduce(h, q);
    var v := Value(t0 % B, t1 % B, t2 % B, t3 % B, 0);
    FinishChain(5 * q + h.h0 + pad.w0, h.h1 + pad.w1, h.h2 + pad.w2, h.h3 + pad.w3, t0, t1, t2, t3);
    FinishTotal(h, pad, q);
    hide Value, Acc.Num, Words.Num, Acc.Ok, Words.Ok;
    DivModUnique(h.Num() - q * P + pad.Num(), B4, t3 / B + h.h4 - 4 * q, v);
  }

  lemma FinishTotal(h: Acc, pad: Words, q: int)
    ensures h.Num() - q * P + pad.Num()
            == Value(5 * q + h.h0 + pad.w0, h.h1 + pad.w1, h.h2 + pad.w2, h.h3 + pad.w3, 0) + B4 * (h.h4 - 4 * q)
  {
  }
}
