/** Field elements from and to 32 little-endian bytes. */
module FieldBytes {
  import opened Arithmetic
  import opened Bytes
  import opened Words32
  import opened Field25519

  const TWO255: int := 0x8000000000000000000000000000000000000000000000000000000000000000

  // -------------------------------------------------------------------
  // Encoding
  // -------------------------------------------------------------------

  // The radix of limb k, and the weight of limb k.
  function Radix(k: nat): int { if k % 2 == 0 then 0x400_0000 else 0x200_0000 }

  function Weight(k: nat): (w: int)
    ensures w > 0
  {
    if k == 0 then 1 else Weight(k - 1) * Radix(k - 1)
  }

  function Part(t: seq<int>, n: nat): int
    requires n <= |t|
  {
    if n == 0 then 0 else Part(t, n - 1) + Weight(n - 1) * t[n - 1]
  }

  function Limbs(h: Fe): seq<int> { [h.h0, h.h1, h.h2, h.h3, h.h4, h.h5, h.h6, h.h7, h.h8, h.h9] }

  lemma Weights()
    ensures Weight(0) == 1 && Weight(1) == 0x4000000 && Weight(2) == 0x8000000000000
    ensures Weight(3) == 0x20000000000000000000 && Weight(4) == 0x40000000000000000000000000
    ensures Weight(5) == 0x100000000000000000000000000000000 && Weight(6) == 0x200000000000000000000000000000000000000
    ensures Weight(7) == 0x800000000000000000000000000000000000000000000
    ensures Weight(8) == 0x1000000000000000000000000000000000000000000000000000
    ensures Weight(9) == 0x4000000000000000000000000000000000000000000000000000000000
    ensures Weight(10) == TWO255
  {
    assert Weight(3) == Weight(2) * 0x400_0000;
    assert Weight(6) == Weight(5) * 0x200_0000;
    assert Weight(8) == Weight(7) * 0x200_0000;
  }

  lemma PartIsNum(h: Fe)
    ensures Part(Limbs(h), 10) == h.Num()
  {
    hide Weight;
    Weights();
    var t := Limbs(h);
    assert Part(t, 1) == t[0] && Part(t, 2) == Part(t, 1) + Weight(1) * t[1] && Part(t, 3) == Part(t, 2) + Weight(2) * t[2];
    assert Part(t, 4) == Part(t, 3) + Weight(3) * t[3] && Part(t, 5) == Part(t, 4) + Weight(4) * t[4];
    assert Part(t, 6) == Part(t, 5) + Weight(5) * t[5] && Part(t, 7) == Part(t, 6) + Weight(6) * t[6];
    assert Part(t, 8) == Part(t, 7) + Weight(7) * t[7] && Part(t, 9) == Part(t, 8) + Weight(8) * t[8];
  }

  // Dividing limb by limb divides the whole number.
  lemma FloorStep(part: int, q: int, r: int, t: int, w: int, b: int)
    requires w > 0 && b > 0 && part == q * w + r && 0 <= r < w
    ensures var d, m := (q + t) / b, (q + t) % b;
      part + w * t == d * (w * b) + (m * w + r) && 0 <= m * w + r < w * b
  {
    var d, m := (q + t) / b, (q + t) % b;
    assert q + t == b * d + m;
    FloorArith(q, r, t, w, b, d, m);
    MulMono(w, m, b - 1);
  }

  lemma FloorArith(q: int, r: int, t: int, w: int, b: int, d: int, m: int)
    requires q + t == b * d + m
    ensures q * w + r + w * t == d * (w * b) + (m * w + r)
    ensures w * (b - 1) + w == w * b
  {
    assert q * w + w * t == w * (q + t);
    assert w * (b * d + m) == d * (w * b) + m * w;
  }

  // The first carry decides the sign without losing any of it.
  lemma SignBounds(h: Fe)
    requires h.Tight()
    ensures -P < h.Num() < P
    ensures var q := (19 * h.h9 + 0x100_0000) / 0x200_0000;
      -16 <= q <= 16 && (h.Num() >= 0 ==> q >= 0) && (h.Num() < 0 ==> q <= 0)
  {
  }

  predicate I32(x: int) { -I31 <= x < I31 }

  // The carry into limb n of a chain that starts with q.
  function Quotient(t: seq<int>, q: int, n: nat): int
    requires n <= |t|
  {
    if n == 0 then q else (Quotient(t, q, n - 1) + t[n - 1]) / Radix(n - 1)
  }

  // What one link of either chain computes is a 32-bit number.
  predicate LinkFits(t: seq<int>, q: int, n: nat)
    requires n < |t|
  {
    var s := Quotient(t, q, n) + t[n];
    I32(s) && I32(s / Radix(n) * Radix(n)) && I32(s - s / Radix(n) * Radix(n))
  }

  predicate ChainFits(t: seq<int>, q: int) {
    forall n :: 0 <= n < |t| ==> LinkFits(t, q, n)
  }

  // The carry the sign chain starts with.
  function SignStart(h: Fe): int { (19 * h.h9 + 0x100_0000) / 0x200_0000 }

  predicate SignFits(h: Fe) {
    I32(19 * h.h9) && I32(19 * h.h9 + 0x100_0000) && ChainFits(Limbs(h), SignStart(h))
  }

  lemma {:induction false} QuotientSmall(t: seq<int>, q: int, n: nat)
    requires n <= |t| && Within(q, 19)
    requires forall k :: 0 <= k < |t| ==> Within(t[k], if k % 2 == 0 then TIGHT_EVEN else TIGHT_ODD)
    ensures Within(Quotient(t, q, n), 19)
    ensures n < |t| ==> LinkFits(t, q, n)
  {
    if n > 0 { QuotientSmall(t, q, n - 1); }
  }

  /** Both chains of fe_tobytes stay within 32 bits. */
  lemma ChainsFit(h: Fe, q: int)
    requires h.Tight() && Within(q, 19)
    ensures ChainFits(Limbs(h), q) && SignFits(h)
  {
    var t := Limbs(h);
    forall n | 0 <= n < 10 ensures LinkFits(t, q, n) && LinkFits(t, SignStart(h), n) {
      QuotientSmall(t, q, n);
      QuotientSmall(t, SignStart(h), n);
    }
  }

  /** 0 for a number that is not negative, -1 for one that is; the chain never
      leaves the 32-bit numbers. */
  method SignOf(h: Fe) returns (q: int)
    requires h.Tight()
    ensures q == if h.Num() >= 0 then 0 else -1
    ensures q == Quotient(Limbs(h), SignStart(h), 10) && SignFits(h)
  {
    hide Fe.Num, Weight, Part, SignFits, Fe.Bounded, Limbs, Quotient;
    var t := [h.h0, h.h1, h.h2, h.h3, h.h4, h.h5, h.h6, h.h7, h.h8, h.h9];
    LimbsAre(h);
    ChainsFit(h, 0);
    QuotientStart(t, SignStart(h));
    q := (19 * t[9] + 0x100_0000) / 0x200_0000;
    ghost var q0, r := q, 0;
    PartStart(t);
    for i := 0 to 5
      invariant Part(t, 2 * i) + q0 == q * Weight(2 * i) + r && 0 <= r < Weight(2 * i)
      invariant q == Quotient(t, SignStart(h), 2 * i)
    {
      QuotientStep(t, SignStart(h), 2 * i);
      QuotientStep(t, SignStart(h), 2 * i + 1);
      FloorStep(Part(t, 2 * i) + q0, q, r, t[2 * i], Weight(2 * i), 0x400_0000);
      PartStep(t, 2 * i);
      r := (q + t[2 * i]) % 0x400_0000 * Weight(2 * i) + r;
      q := q + t[2 * i];
      q := q / 0x400_0000;
      FloorStep(Part(t, 2 * i + 1) + q0, q, r, t[2 * i + 1], Weight(2 * i + 1), 0x200_0000);
      PartStep(t, 2 * i + 1);
      r := (q + t[2 * i + 1]) % 0x200_0000 * Weight(2 * i + 1) + r;
      q := q + t[2 * i + 1];
      q := q / 0x200_0000;
    }
    PartIsNum(h);
    Weights();
    SignBounds(h);
    WholeQuotient(h.Num(), q0, q, r);
  }

  lemma LimbsAre(h: Fe)
    ensures Limbs(h) == [h.h0, h.h1, h.h2, h.h3, h.h4, h.h5, h.h6, h.h7, h.h8, h.h9]
  {
  }

  lemma QuotientStart(t: seq<int>, q: int)
    ensures Quotient(t, q, 0) == q
  {
  }

  lemma QuotientStep(t: seq<int>, q: int, n: nat)
    requires n < |t|
    ensures Quotient(t, q, n + 1) == (Quotient(t, q, n) + t[n]) / Radix(n)
  {
  }

  lemma PartStart(t: seq<int>)
    ensures Part(t, 0) == 0 && Weight(0) == 1
  {
  }

  lemma PartStep(t: seq<int>, n: nat)
    requires n < |t|
    ensures Part(t, n + 1) == Part(t, n) + Weight(n) * t[n] && Weight(n + 1) == Weight(n) * Radix(n)
  {
  }

  lemma WholeQuotient(n: int, q0: int, q: int, r: int)
    requires n + q0 == q * TWO255 + r && 0 <= r < TWO255 && -P < n < P
    requires -16 <= q0 <= 16 && (n >= 0 ==> q0 >= 0) && (n < 0 ==> q0 <= 0)
    ensures q == if n >= 0 then 0 else -1
  {
  }

  predicate Reduced(t: seq<int>, n: nat) {
    n <= |t| && forall k :: 0 <= k < n ==> 0 <= t[k] < Radix(k)
  }

  lemma {:induction false} ReducedPart(t: seq<int>, n: nat)
    requires Reduced(t, n)
    ensures 0 <= Part(t, n) < Weight(n)
  {
    hide Radix;
    if n > 0 {
      ReducedPart(t, n - 1);
      MulMono(Weight(n - 1), t[n - 1], Radix(n - 1) - 1);
      MulMono(Weight(n - 1), 0, t[n - 1]);
      assert Weight(n - 1) * (Radix(n - 1) - 1) == Weight(n - 1) * Radix(n - 1) - Weight(n - 1);
    }
  }

  // One carry of the final chain.
  lemma CarryStep(t: seq<int>, u: seq<int>, n: nat, q: int, q': int)
    requires n < |t| && |u| == |t| && t[n] + q == q' * Radix(n) + u[n]
    ensures Part(u, n + 1) + q' * Weight(n + 1) - Part(t, n + 1) == Part(u, n) + q * Weight(n) - Part(t, n)
  {
    hide Part, Weight, Radix;
    PartStep(t, n);
    PartStep(u, n);
    CarryArith(Weight(n), Radix(n), t[n], u[n], q, q');
  }

  lemma CarryArith(w: int, b: int, t: int, u: int, q: int, q': int)
    requires t + q == q' * b + u
    ensures w * u + q' * (w * b) - w * t == q * w
  {
    assert w * (t + q) == w * t + q * w;
    assert w * (q' * b + u) == q' * (w * b) + w * u;
  }

  lemma {:induction false} PartSame(t: seq<int>, u: seq<int>, n: nat)
    requires n <= |t| && n <= |u| && forall k :: 0 <= k < n ==> t[k] == u[k]
    ensures Part(t, n) == Part(u, n)
  {
    if n > 0 { PartSame(t, u, n - 1); }
  }

  /** Adds `start` and carries once through all limbs, dropping what leaves the top. */
  method ReduceLimbs(h: seq<int>, start: int) returns (t: seq<int>, q: int)
    requires |h| == 10
    ensures |t| == 10 && Reduced(t, 10) && Part(t, 10) + q * Weight(10) == Part(h, 10) + start
    ensures q == Quotient(h, start, 10)
    ensures forall k :: 0 <= k < 10 ==> t[k] == (Quotient(h, start, k) + h[k]) % Radix(k)
  {
    hide Part, Weight, Radix, Quotient;
    t, q := h, start;
    PartStart(h);
    QuotientStart(h, start);
    for i := 0 to 5
      invariant |t| == 10 && Reduced(t, 2 * i) && (forall k :: 2 * i <= k < 10 ==> t[k] == h[k])
      invariant Part(t, 2 * i) + q * Weight(2 * i) == Part(h, 2 * i) + start
      invariant q == Quotient(h, start, 2 * i)
      invariant forall k :: 0 <= k < 2 * i ==> t[k] == (Quotient(h, start, k) + h[k]) % Radix(k)
    {
      QuotientStep(h, start, 2 * i);
      QuotientStep(h, start, 2 * i + 1);
      t, q := CarryLimb(h, t, 2 * i, q);
      t, q := CarryLimb(h, t, 2 * i + 1, q);
    }
  }

  method CarryLimb(ghost h: seq<int>, t: seq<int>, n: nat, q: int) returns (u: seq<int>, q': int)
    requires |h| == 10 && |t| == 10 && n < 10 && Reduced(t, n) && (forall k :: n <= k < 10 ==> t[k] == h[k])
    ensures |u| == 10 && Reduced(u, n + 1) && (forall k :: n + 1 <= k < 10 ==> u[k] == h[k])
    ensures Part(u, n + 1) + q' * Weight(n + 1) - Part(h, n + 1) == Part(t, n) + q * Weight(n) - Part(h, n)
    ensures q' == (q + h[n]) / Radix(n) && u == t[n := (q + h[n]) % Radix(n)]
  {
    hide Part, Weight;
    u := t[n := t[n] + q];
    q' := u[n] / Radix(n);
    u := u[n := u[n] - q' * Radix(n)];
    CarryStep(h, u, n, q, q');
    PartSame(u, t, n);
  }

  // A word made of the high bits of one limb and the low bits of the next.
  function Joined(low: int, high: int, shift: int): int {
    low + high * shift % B
  }

  lemma JoinedIs(low: int, high: int, shift: int, rest: int)
    requires shift > 0 && rest > 0 && shift * rest == B && 0 <= low < shift
    ensures Joined(low, high, shift) == low + shift * (high % rest)
    ensures 0 <= Joined(low, high, shift) < B
  {
    var q, m := high / rest, high % rest;
    assert high == rest * q + m;
    JoinedArith(high, shift, rest, q, m);
    MulMono(shift, m, rest - 1);
    MulMono(shift, 0, m);
    assert shift * (rest - 1) == B - shift;
    DivModUnique(high * shift, B, q, shift * m);
  }

  lemma JoinedArith(high: int, shift: int, rest: int, q: int, m: int)
    requires shift * rest == B && high == rest * q + m
    ensures high * shift == B * q + shift * m
  {
    assert (rest * q + m) * shift == (shift * rest) * q + shift * m;
  }

  lemma FirstHalf(t0: int, t1: int, t2: int, t3: int, t4: int)
    requires 0 <= t0 < 0x400_0000 && 0 <= t1 < 0x200_0000 && 0 <= t2 < 0x400_0000 && 0 <= t3 < 0x200_0000 && 0 <= t4 < 0x400_0000
    ensures var w0, w1, w2, w3 := Joined(t0, t1, 0x400_0000), Joined(t1 / 64, t2, 0x8_0000), Joined(t2 / 0x2000, t3, 0x2000), Joined(t3 / 0x8_0000, t4, 64);
      && 0 <= w0 < B && 0 <= w1 < B && 0 <= w2 < B && 0 <= w3 < B
      && w0 + 0x100000000 * w1 + 0x10000000000000000 * w2 + 0x1000000000000000000000000 * w3
         == t0 + 0x4000000 * t1 + 0x8000000000000 * t2 + 0x20000000000000000000 * t3 + 0x40000000000000000000000000 * t4
  {
    hide Joined;
    JoinedIs(t0, t1, 0x400_0000, 64);
    JoinedIs(t1 / 64, t2, 0x8_0000, 0x2000);
    JoinedIs(t2 / 0x2000, t3, 0x2000, 0x8_0000);
    JoinedIs(t3 / 0x8_0000, t4, 64, 0x400_0000);
  }

  lemma SecondHalf(t5: int, t6: int, t7: int, t8: int, t9: int)
    requires 0 <= t5 < 0x200_0000 && 0 <= t6 < 0x400_0000 && 0 <= t7 < 0x200_0000 && 0 <= t8 < 0x400_0000 && 0 <= t9 < 0x200_0000
    ensures var w4, w5, w6, w7 := Joined(t5, t6, 0x200_0000), Joined(t6 / 128, t7, 0x8_0000), Joined(t7 / 0x2000, t8, 0x1000), Joined(t8 / 0x10_0000, t9, 64);
      && 0 <= w4 < B && 0 <= w5 < B && 0 <= w6 < B && 0 <= w7 < B
      && w4 + 0x100000000 * w5 + 0x10000000000000000 * w6 + 0x1000000000000000000000000 * w7
         == t5 + 0x2000000 * t6 + 0x8000000000000 * t7 + 0x10000000000000000000 * t8 + 0x40000000000000000000000000 * t9
  {
    hide Joined;
    JoinedIs(t5, t6, 0x200_0000, 128);
    JoinedIs(t6 / 128, t7, 0x8_0000, 0x2000);
    JoinedIs(t7 / 0x2000, t8, 0x1000, 0x10_0000);
    JoinedIs(t8 / 0x10_0000, t9, 64, 0x400_0000);
  }

  lemma EightWords(w: seq<int>)
    requires |w| == 8
    ensures Words32.Num(w) == w[0] + 0x100000000 * w[1] + 0x10000000000000000 * w[2] + 0x1000000000000000000000000 * w[3] + 0x100000000000000000000000000000000 * w[4] + 0x10000000000000000000000000000000000000000 * w[5] + 0x1000000000000000000000000000000000000000000000000 * w[6] + 0x100000000000000000000000000000000000000000000000000000000 * w[7]
  {
    hide PowB;
    PowersOfB();
    assert w[..2][..1] == w[..1];
    assert Words32.Num(w[..2]) == Words32.Num(w[..1]) + PowB(1) * w[1];
    assert w[..3][..2] == w[..2];
    assert Words32.Num(w[..3]) == Words32.Num(w[..2]) + PowB(2) * w[2];
    assert w[..4][..3] == w[..3];
    assert Words32.Num(w[..4]) == Words32.Num(w[..3]) + PowB(3) * w[3];
    assert w[..5][..4] == w[..4];
    assert Words32.Num(w[..5]) == Words32.Num(w[..4]) + PowB(4) * w[4];
    assert w[..6][..5] == w[..5];
    assert Words32.Num(w[..6]) == Words32.Num(w[..5]) + PowB(5) * w[5];
    assert w[..7][..6] == w[..6];
    assert Words32.Num(w[..7]) == Words32.Num(w[..6]) + PowB(6) * w[6];
    assert w[..8][..7] == w[..7];
    assert Words32.Num(w[..8]) == Words32.Num(w[..7]) + PowB(7) * w[7];
    assert Words32.Num(w[..1]) == Words32.Num(w[..1][..0]) + PowB(0) * w[0];
    assert w[..8] == w;
  }

  lemma PowersOfB()
    ensures PowB(0) == 1 && PowB(1) == 0x100000000 && PowB(2) == 0x10000000000000000 && PowB(3) == 0x1000000000000000000000000 && PowB(4) == 0x100000000000000000000000000000000 && PowB(5) == 0x10000000000000000000000000000000000000000 && PowB(6) == 0x1000000000000000000000000000000000000000000000000 && PowB(7) == 0x100000000000000000000000000000000000000000000000000000000
  {
    PowBStep(0);
    PowBStep(1);
    PowBStep(2);
    PowBStep(3);
    PowBStep(4);
    PowBStep(5);
    PowBStep(6);
  }

  lemma NumOfLimbs(t: seq<int>)
    requires |t| == 10
    ensures Part(t, 10) == Fe(t[0], t[1], t[2], t[3], t[4], t[5], t[6], t[7], t[8], t[9]).Num()
  {
    hide Part;
    PartIsNum(Fe(t[0], t[1], t[2], t[3], t[4], t[5], t[6], t[7], t[8], t[9]));
    assert t == Limbs(Fe(t[0], t[1], t[2], t[3], t[4], t[5], t[6], t[7], t[8], t[9]));
  }

  // Ten reduced limbs as eight words.
  method PackLimbs(t: seq<int>) returns (w: seq<int>)
    requires |t| == 10 && Reduced(t, 10)
    ensures |w| == 8 && IsWords(w) && Words32.Num(w) == Part(t, 10)
  {
    hide Part, Words32.Num, Joined;
    w := [Joined(t[0], t[1], 0x400_0000), Joined(t[1] / 64, t[2], 0x8_0000),
          Joined(t[2] / 0x2000, t[3], 0x2000), Joined(t[3] / 0x8_0000, t[4], 64),
          Joined(t[5], t[6], 0x200_0000), Joined(t[6] / 128, t[7], 0x8_0000),
          Joined(t[7] / 0x2000, t[8], 0x1000), Joined(t[8] / 0x10_0000, t[9], 64)];
    FirstHalf(t[0], t[1], t[2], t[3], t[4]);
    SecondHalf(t[5], t[6], t[7], t[8], t[9]);
    EightWords(w);
    NumOfLimbs(t);
  }

  /** The bytes of the one representative between 0 and 2^255 - 20. */
  method ToBytes(h: Fe) returns (s: seq<byte>)
    requires h.Tight()
    ensures |s| == 32 && Le(s) == h.Val()
    ensures SignFits(h) && ChainFits(Limbs(h), if h.Num() >= 0 then 0 else -19)
  {
    hide Fe.Num, Fe.Bounded, Part, Weight, Le, Words32.Num, Reduced, ChainFits, SignFits, Quotient;
    var q := SignOf(h);
    q := q * 19;
    ChainsFit(h, q);
    var t, top := ReduceLimbs(Limbs(h), q);
    var w := PackLimbs(t);
    s := StoreWords(w);
    StoreIsNum(w);
    PartIsNum(h);
    SignBounds(h);
    ReducedPart(t, 10);
    Weights();
    Representative(h.Num(), Part(t, 10), top);
  }

  lemma Representative(n: int, r: int, top: int)
    requires -P < n < P && 0 <= r < TWO255
    requires r + top * TWO255 == n + (if n >= 0 then 0 else -19)
    ensures r == n % P
  {
    if n < 0 { ModShift(n, 1, P); }
  }

  // -------------------------------------------------------------------
  // Decoding
  // -------------------------------------------------------------------

  function Load24(b: seq<byte>): (n: nat)
    requires |b| == 3
    ensures n < 0x100_0000
  {
    (b[0] as int) + 0x100 * (b[1] as int) + 0x10000 * (b[2] as int)
  }

  lemma LeLoad24(s: seq<byte>, k: nat)
    requires k + 3 <= |s|
    ensures Le(s[k..]) == Load24(s[k..k + 3]) + 0x100_0000 * Le(s[k + 3..])
  {
    LeHead(s[k..]);
    assert s[k..][1..] == s[k + 1..] && s[k + 1..][1..] == s[k + 2..] && s[k + 2..][1..] == s[k + 3..];
    LeHead(s[k + 1..]);
    LeHead(s[k + 2..]);
  }

  lemma LeLoad32At(s: seq<byte>, k: nat)
    requires k + 4 <= |s|
    ensures Le(s[k..]) == Load32(s[k..k + 4]) + B * Le(s[k + 4..])
  {
    LeHead(s[k..]);
    assert s[k..][1..] == s[k + 1..];
    LeLoad24(s, k + 1);
  }

  /** The number the bytes spell, without its top bit. */
  method FromBytes(s: seq<byte>) returns (h: Fe)
    requires |s| == 32
    ensures h.Tight() && h.Val() == Le(s) % TWO255 % P
  {
    hide Le, Load32, Load24;
    var t := Fe(Load32(s[0..4]), Load24(s[4..7]) * 64, Load24(s[7..10]) * 32, Load24(s[10..13]) * 8, Load24(s[13..16]) * 4,
                Load32(s[16..20]), Load24(s[20..23]) * 128, Load24(s[23..26]) * 32, Load24(s[26..29]) * 16,
                Load24(s[29..32]) % 0x80_0000 * 4);
    Pieces(s);
    TopBit(t.Num(), Load24(s[29..32]), Le(s));
    h := Carry(t);
  }

  lemma Pieces(s: seq<byte>)
    requires |s| == 32
    ensures Le(s) == Fe(Load32(s[0..4]), Load24(s[4..7]) * 64, Load24(s[7..10]) * 32, Load24(s[10..13]) * 8, Load24(s[13..16]) * 4,
      Load32(s[16..20]), Load24(s[20..23]) * 128, Load24(s[23..26]) * 32, Load24(s[26..29]) * 16, Load24(s[29..32]) * 4).Num()
  {
    hide Load24, Load32, Le;
    assert s[0..] == s && s[32..] == [];
    LeNothing();
    LeLoad32At(s, 0);
    LeLoad24(s, 4);
    LeLoad24(s, 7);
    LeLoad24(s, 10);
    LeLoad24(s, 13);
    LeLoad32At(s, 16);
    LeLoad24(s, 20);
    LeLoad24(s, 23);
    LeLoad24(s, 26);
    LeLoad24(s, 29);
  }

  lemma LeNothing()
    ensures Le([]) == 0
  {
  }

  lemma TopBit(masked: int, top: int, n: int)
    requires 0 <= top < 0x100_0000
    requires n == masked + 0x10000000000000000000000000000000000000000000000000000000000 * (top - top % 0x80_0000)
    requires 0 <= masked < TWO255
    ensures masked == n % TWO255
  {
  }

  /** Decoding and encoding again gives the reduced number. */
  method Normalise(s: seq<byte>) returns (r: seq<byte>)
    requires |s| == 32
    ensures |r| == 32 && Le(r) == Le(s) % TWO255 % P
  {
    var h := FromBytes(s);
    r := ToBytes(h);
  }
}
