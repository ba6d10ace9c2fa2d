/** Field elements modulo 2^255 - 19 in ten signed limbs of alternately 26 and 25
    bits: carries, products and the ranges of every intermediate. */
module Field25519 {
  import opened Arithmetic
  import opened Bytes

  const P: int := 0x7fffffffffffffffffffffffffffffffffffffffffffffffffffffffffffffed   // 2^255 - 19

  const I31: int := 0x8000_0000
  const I62: int := 0x4000_0000_0000_0000
  const I63: int := 0x8000_0000_0000_0000

  // Limb bounds after a carry, and those multiplication accepts: 1.1 * 2^25,
  // 1.1 * 2^24 and 1.65 * 2^26, 1.65 * 2^25, rounded down.
  const TIGHT_EVEN: int := 36909875
  const TIGHT_ODD: int := 18454937
  const LOOSE_EVEN: int := 110729625
  const LOOSE_ODD: int := 55364812

  const TERM: int := 19 * LOOSE_EVEN * LOOSE_EVEN   // the largest single product

  predicate Within(x: int, bound: int) { -bound <= x <= bound }

  datatype Fe = Fe(h0: int, h1: int, h2: int, h3: int, h4: int, h5: int, h6: int, h7: int, h8: int, h9: int) {
    function Num(): int {
      h0 + 0x4000000 * h1 + 0x8000000000000 * h2 + 0x20000000000000000000 * h3 + 0x40000000000000000000000000 * h4
      + 0x100000000000000000000000000000000 * h5 + 0x200000000000000000000000000000000000000 * h6 + 0x800000000000000000000000000000000000000000000 * h7
      + 0x1000000000000000000000000000000000000000000000000000 * h8 + 0x4000000000000000000000000000000000000000000000000000000000 * h9
    }

    predicate Bounded(even: int, odd: int) {
      && Within(h0, even) && Within(h1, odd) && Within(h2, even) && Within(h3, odd) && Within(h4, even)
      && Within(h5, odd) && Within(h6, even) && Within(h7, odd) && Within(h8, even) && Within(h9, odd)
    }

    predicate Tight() { Bounded(TIGHT_EVEN, TIGHT_ODD) }
    predicate Loose() { Bounded(LOOSE_EVEN, LOOSE_ODD) }

    // The field element the limbs stand for.
    function Val(): (v: int)
      ensures 0 <= v < P
    {
      Num() % P
    }
  }

  function FieldAdd(a: int, b: int): int { (a + b) % P }
  function FieldSub(a: int, b: int): int { (a - b) % P }
  function FieldMul(a: int, b: int): int { a * b % P }

  function Plus(a: Fe, b: Fe): Fe {
    Fe(a.h0 + b.h0, a.h1 + b.h1, a.h2 + b.h2, a.h3 + b.h3, a.h4 + b.h4,
       a.h5 + b.h5, a.h6 + b.h6, a.h7 + b.h7, a.h8 + b.h8, a.h9 + b.h9)
  }

  lemma PlusNum(a: Fe, b: Fe)
    ensures Plus(a, b).Num() == a.Num() + b.Num()
  {
  }

  // -------------------------------------------------------------------
  // Schoolbook multiplication, one limb of the first factor at a time
  // -------------------------------------------------------------------

  function Row0(a: int, g: Fe): Fe {
    Fe(a * g.h0, a * g.h1, a * g.h2, a * g.h3, a * g.h4,
       a * g.h5, a * g.h6, a * g.h7, a * g.h8, a * g.h9)
  }

  lemma Row0Num(a: int, g: Fe) returns (k: int)
    ensures 0x1 * a * g.Num() == Row0(a, g).Num() + P * k
  {
    k := 0;
  }

  function Row1(a: int, g: Fe): Fe {
    Fe((a * 2) * (g.h9 * 19), a * g.h0, (a * 2) * g.h1, a * g.h2, (a * 2) * g.h3,
       a * g.h4, (a * 2) * g.h5, a * g.h6, (a * 2) * g.h7, a * g.h8)
  }

  lemma Row1Num(a: int, g: Fe) returns (k: int)
    ensures 0x4000000 * a * g.Num() == Row1(a, g).Num() + P * k
  {
    k := 0x2 * (a * g.h9);
  }

  function Row2(a: int, g: Fe): Fe {
    Fe(a * (g.h8 * 19), a * (g.h9 * 19), a * g.h0, a * g.h1, a * g.h2,
       a * g.h3, a * g.h4, a * g.h5, a * g.h6, a * g.h7)
  }

  lemma Row2Num(a: int, g: Fe) returns (k: int)
    ensures 0x8000000000000 * a * g.Num() == Row2(a, g).Num() + P * k
  {
    k := 0x1 * (a * g.h8) + 0x4000000 * (a * g.h9);
  }

  function Row3(a: int, g: Fe): Fe {
    Fe((a * 2) * (g.h7 * 19), a * (g.h8 * 19), (a * 2) * (g.h9 * 19), a * g.h0, (a * 2) * g.h1,
       a * g.h2, (a * 2) * g.h3, a * g.h4, (a * 2) * g.h5, a * g.h6)
  }

  lemma Row3Num(a: int, g: Fe) returns (k: int)
    ensures 0x20000000000000000000 * a * g.Num() == Row3(a, g).Num() + P * k
  {
    k := 0x2 * (a * g.h7) + 0x4000000 * (a * g.h8) + 0x10000000000000 * (a * g.h9);
  }

  function Row4(a: int, g: Fe): Fe {
    Fe(a * (g.h6 * 19), a * (g.h7 * 19), a * (g.h8 * 19), a * (g.h9 * 19), a * g.h0,
       a * g.h1, a * g.h2, a * g.h3, a * g.h4, a * g.h5)
  }

  lemma Row4Num(a: int, g: Fe) returns (k: int)
    ensures 0x40000000000000000000000000 * a * g.Num() == Row4(a, g).Num() + P * k
  {
    k := 0x1 * (a * g.h6) + 0x4000000 * (a * g.h7) + 0x8000000000000 * (a * g.h8) + 0x20000000000000000000 * (a * g.h9);
  }

  function Row5(a: int, g: Fe): Fe {
    Fe((a * 2) * (g.h5 * 19), a * (g.h6 * 19), (a * 2) * (g.h7 * 19), a * (g.h8 * 19), (a * 2) * (g.h9 * 19),
       a * g.h0, (a * 2) * g.h1, a * g.h2, (a * 2) * g.h3, a * g.h4)
  }

  lemma Row5Num(a: int, g: Fe) returns (k: int)
    ensures 0x100000000000000000000000000000000 * a * g.Num() == Row5(a, g).Num() + P * k
  {
    k := 0x2 * (a * g.h5) + 0x4000000 * (a * g.h6) + 0x10000000000000 * (a * g.h7) + 0x20000000000000000000 * (a * g.h8) + 0x80000000000000000000000000 * (a * g.h9);
  }

  function Row6(a: int, g: Fe): Fe {
    Fe(a * (g.h4 * 19), a * (g.h5 * 19), a * (g.h6 * 19), a * (g.h7 * 19), a * (g.h8 * 19),
       a * (g.h9 * 19), a * g.h0, a * g.h1, a * g.h2, a * g.h3)
  }

  lemma Row6Num(a: int, g: Fe) returns (k: int)
    ensures 0x200000000000000000000000000000000000000 * a * g.Num() == Row6(a, g).Num() + P * k
  {
    k := 0x1 * (a * g.h4) + 0x4000000 * (a * g.h5) + 0x8000000000000 * (a * g.h6) + 0x20000000000000000000 * (a * g.h7) + 0x40000000000000000000000000 * (a * g.h8) + 0x100000000000000000000000000000000 * (a * g.h9);
  }

  function Row7(a: int, g: Fe): Fe {
    Fe((a * 2) * (g.h3 * 19), a * (g.h4 * 19), (a * 2) * (g.h5 * 19), a * (g.h6 * 19), (a * 2) * (g.h7 * 19),
       a * (g.h8 * 19), (a * 2) * (g.h9 * 19), a * g.h0, (a * 2) * g.h1, a * g.h2)
  }

  lemma Row7Num(a: int, g: Fe) returns (k: int)
    ensures 0x800000000000000000000000000000000000000000000 * a * g.Num() == Row7(a, g).Num() + P * k
  {
    k := 0x2 * (a * g.h3) + 0x4000000 * (a * g.h4) + 0x10000000000000 * (a * g.h5) + 0x20000000000000000000 * (a * g.h6) + 0x80000000000000000000000000 * (a * g.h7) + 0x100000000000000000000000000000000 * (a * g.h8) + 0x400000000000000000000000000000000000000 * (a * g.h9);
  }

  function Row8(a: int, g: Fe): Fe {
    Fe(a * (g.h2 * 19), a * (g.h3 * 19), a * (g.h4 * 19), a * (g.h5 * 19), a * (g.h6 * 19),
       a * (g.h7 * 19), a * (g.h8 * 19), a * (g.h9 * 19), a * g.h0, a * g.h1)
  }

  lemma Row8Num(a: int, g: Fe) returns (k: int)
    ensures 0x1000000000000000000000000000000000000000000000000000 * a * g.Num() == Row8(a, g).Num() + P * k
  {
    k := 0x1 * (a * g.h2) + 0x4000000 * (a * g.h3) + 0x8000000000000 * (a * g.h4) + 0x20000000000000000000 * (a * g.h5) + 0x40000000000000000000000000 * (a * g.h6) + 0x100000000000000000000000000000000 * (a * g.h7) + 0x200000000000000000000000000000000000000 * (a * g.h8) + 0x800000000000000000000000000000000000000000000 * (a * g.h9);
  }

  function Row9(a: int, g: Fe): Fe {
    Fe((a * 2) * (g.h1 * 19), a * (g.h2 * 19), (a * 2) * (g.h3 * 19), a * (g.h4 * 19), (a * 2) * (g.h5 * 19),
       a * (g.h6 * 19), (a * 2) * (g.h7 * 19), a * (g.h8 * 19), (a * 2) * (g.h9 * 19), a * g.h0)
  }

  lemma Row9Num(a: int, g: Fe) returns (k: int)
    ensures 0x4000000000000000000000000000000000000000000000000000000000 * a * g.Num() == Row9(a, g).Num() + P * k
  {
    k := 0x2 * (a * g.h1) + 0x4000000 * (a * g.h2) + 0x10000000000000 * (a * g.h3) + 0x20000000000000000000 * (a * g.h4) + 0x80000000000000000000000000 * (a * g.h5) + 0x100000000000000000000000000000000 * (a * g.h6) + 0x400000000000000000000000000000000000000 * (a * g.h7) + 0x800000000000000000000000000000000000000000000 * (a * g.h8) + 0x2000000000000000000000000000000000000000000000000000 * (a * g.h9);
  }

  /** The ten limbs of a product before any carry; what overflows the top comes
      back multiplied by 19. */
  function Product(f: Fe, g: Fe): Fe {
    var r := Plus(Plus(Plus(Plus(Row0(f.h0, g), Row1(f.h1, g)), Row2(f.h2, g)), Row3(f.h3, g)), Row4(f.h4, g));
    Plus(Plus(Plus(Plus(Plus(r, Row5(f.h5, g)), Row6(f.h6, g)), Row7(f.h7, g)), Row8(f.h8, g)), Row9(f.h9, g))
  }

  lemma Distribute(f: Fe, x: int)
    ensures f.Num() * x == 0x1 * f.h0 * x + 0x4000000 * f.h1 * x + 0x8000000000000 * f.h2 * x + 0x20000000000000000000 * f.h3 * x + 0x40000000000000000000000000 * f.h4 * x + 0x100000000000000000000000000000000 * f.h5 * x + 0x200000000000000000000000000000000000000 * f.h6 * x + 0x800000000000000000000000000000000000000000000 * f.h7 * x + 0x1000000000000000000000000000000000000000000000000000 * f.h8 * x + 0x4000000000000000000000000000000000000000000000000000000000 * f.h9 * x
  {
  }

  lemma ProductNum(f: Fe, g: Fe) returns (k: int)
    ensures f.Num() * g.Num() == Product(f, g).Num() + P * k
  {
    hide Fe.Num, Plus, Row0, Row1, Row2, Row3, Row4, Row5, Row6, Row7, Row8, Row9;
    var k0 := Row0Num(f.h0, g);
    var k1 := Row1Num(f.h1, g);
    var k2 := Row2Num(f.h2, g);
    var k3 := Row3Num(f.h3, g);
    var k4 := Row4Num(f.h4, g);
    var k5 := Row5Num(f.h5, g);
    var k6 := Row6Num(f.h6, g);
    var k7 := Row7Num(f.h7, g);
    var k8 := Row8Num(f.h8, g);
    var k9 := Row9Num(f.h9, g);
    Distribute(f, g.Num());
    SumOfRows(f, g);
    k := k0 + k1 + k2 + k3 + k4 + k5 + k6 + k7 + k8 + k9;
  }

  lemma SumOfRows(f: Fe, g: Fe)
    ensures Product(f, g).Num() == Row0(f.h0, g).Num() + Row1(f.h1, g).Num() + Row2(f.h2, g).Num() + Row3(f.h3, g).Num() + Row4(f.h4, g).Num() + Row5(f.h5, g).Num() + Row6(f.h6, g).Num() + Row7(f.h7, g).Num() + Row8(f.h8, g).Num() + Row9(f.h9, g).Num()
  {
    hide Fe.Num, Plus, Row0, Row1, Row2, Row3, Row4, Row5, Row6, Row7, Row8, Row9;
    var r1 := Plus(Row0(f.h0, g), Row1(f.h1, g));
    PlusNum(Row0(f.h0, g), Row1(f.h1, g));
    var r2 := Plus(r1, Row2(f.h2, g));
    PlusNum(r1, Row2(f.h2, g));
    var r3 := Plus(r2, Row3(f.h3, g));
    PlusNum(r2, Row3(f.h3, g));
    var r4 := Plus(r3, Row4(f.h4, g));
    PlusNum(r3, Row4(f.h4, g));
    var r5 := Plus(r4, Row5(f.h5, g));
    PlusNum(r4, Row5(f.h5, g));
    var r6 := Plus(r5, Row6(f.h6, g));
    PlusNum(r5, Row6(f.h6, g));
    var r7 := Plus(r6, Row7(f.h7, g));
    PlusNum(r6, Row7(f.h7, g));
    var r8 := Plus(r7, Row8(f.h8, g));
    PlusNum(r7, Row8(f.h8, g));
    var r9 := Plus(r8, Row9(f.h9, g));
    PlusNum(r8, Row9(f.h9, g));
  }

  // -------------------------------------------------------------------
  // Carries
  // -------------------------------------------------------------------

  // One carry: the quotient rounded to nearest, by 2^26 or 2^25.
  function Round26(t: int): int { (t + 0x200_0000) / 0x400_0000 }
  function Round25(t: int): int { (t + 0x100_0000) / 0x200_0000 }

  predicate I64(x: int) { -I63 <= x < I63 }

  // Every value one step of the macro computes is a 64-bit number.
  predicate Fits26(t: int, next: int) {
    var c := Round26(t);
    I64(t + 0x200_0000) && I64(c * 0x400_0000) && I64(t - c * 0x400_0000) && I64(next + c)
  }

  predicate Fits25(t: int, next: int) {
    var c := Round25(t);
    I64(t + 0x100_0000) && I64(c * 0x200_0000) && I64(t - c * 0x200_0000) && I64(next + c)
  }

  predicate FitsTop(t: int, bottom: int) {
    var c := Round25(t);
    I64(t + 0x100_0000) && I64(c * 0x200_0000) && I64(t - c * 0x200_0000) && I64(c * 19) && I64(bottom + c * 19)
  }

  /** The twelve steps of FE_CARRY in order: which limb passes its carry on. */
  function Pass(t: Fe, n: nat): Fe {
    match n
    case 0 => var c := Round26(t.h0); t.(h0 := t.h0 - c * 0x400_0000, h1 := t.h1 + c)
    case 1 => var c := Round26(t.h4); t.(h4 := t.h4 - c * 0x400_0000, h5 := t.h5 + c)
    case 2 => var c := Round25(t.h1); t.(h1 := t.h1 - c * 0x200_0000, h2 := t.h2 + c)
    case 3 => var c := Round25(t.h5); t.(h5 := t.h5 - c * 0x200_0000, h6 := t.h6 + c)
    case 4 => var c := Round26(t.h2); t.(h2 := t.h2 - c * 0x400_0000, h3 := t.h3 + c)
    case 5 => var c := Round26(t.h6); t.(h6 := t.h6 - c * 0x400_0000, h7 := t.h7 + c)
    case 6 => var c := Round25(t.h3); t.(h3 := t.h3 - c * 0x200_0000, h4 := t.h4 + c)
    case 7 => var c := Round25(t.h7); t.(h7 := t.h7 - c * 0x200_0000, h8 := t.h8 + c)
    case 8 => var c := Round26(t.h4); t.(h4 := t.h4 - c * 0x400_0000, h5 := t.h5 + c)
    case 9 => var c := Round26(t.h8); t.(h8 := t.h8 - c * 0x400_0000, h9 := t.h9 + c)
    case 10 => var c := Round25(t.h9); t.(h9 := t.h9 - c * 0x200_0000, h0 := t.h0 + c * 19)
    case _ => var c := Round26(t.h0); t.(h0 := t.h0 - c * 0x400_0000, h1 := t.h1 + c)
  }

  predicate PassFits(t: Fe, n: nat) {
    match n
    case 0 => Fits26(t.h0, t.h1)
    case 1 => Fits26(t.h4, t.h5)
    case 2 => Fits25(t.h1, t.h2)
    case 3 => Fits25(t.h5, t.h6)
    case 4 => Fits26(t.h2, t.h3)
    case 5 => Fits26(t.h6, t.h7)
    case 6 => Fits25(t.h3, t.h4)
    case 7 => Fits25(t.h7, t.h8)
    case 8 => Fits26(t.h4, t.h5)
    case 9 => Fits26(t.h8, t.h9)
    case 10 => FitsTop(t.h9, t.h0)
    case _ => Fits26(t.h0, t.h1)
  }

  function After(t: Fe, n: nat): Fe {
    if n == 0 then t else Pass(After(t, n - 1), n - 1)
  }

  /** No step of the macro leaves the 64-bit numbers. */
  predicate NoOverflow(t: Fe) {
    forall n :: 0 <= n < 12 ==> PassFits(After(t, n), n)
  }

  // What the macro documents of its limbs, for the lowest limb t0 as a 64-bit
  // number and for the others.
  predicate OthersFit62(t: Fe) {
    && Within(t.h1, I62 - 1) && Within(t.h2, I62 - 1) && Within(t.h3, I62 - 1) && Within(t.h4, I62 - 1) && Within(t.h5, I62 - 1)
    && Within(t.h6, I62 - 1) && Within(t.h7, I62 - 1) && Within(t.h8, I62 - 1) && Within(t.h9, I62 - 1)
  }

  predicate Carriable(t: Fe) { -I63 <= t.h0 < I63 - 0x200_0000 && OthersFit62(t) }

  // Limb bounds after the two chains have run once, up to limbs 4 and 8.
  predicate Halfway(h: Fe) {
    && Within(h.h0, 0x200_0000) && Within(h.h1, 0x100_0000) && Within(h.h2, 0x200_0000) && Within(h.h3, 0x100_0000)
    && Within(h.h4, 0x80_0000_0000) && Within(h.h5, 0x100_0000) && Within(h.h6, 0x200_0000) && Within(h.h7, 0x100_0000)
    && Within(h.h8, I62 + 0x80_0000_0000) && Within(h.h9, I62 - 1)
  }

  // A step moves weight between limbs; round the top it takes out the modulus.
  lemma PassNum(t: Fe, n: nat)
    requires n < 12
    ensures Pass(t, n).Num() == t.Num() - if n == 10 then P * Round25(t.h9) else 0
  {
    hide Round26, Round25;
  }

  lemma PassStep(t: Fe, n: nat)
    ensures After(t, n + 1) == Pass(After(t, n), n)
  {
  }

  lemma NoPass(t: Fe)
    ensures After(t, 0) == t
  {
  }

  // The first turn of both chains, up to limbs 4 and 8.
  lemma FirstPasses(t: Fe)
    requires Carriable(t)
    ensures Halfway(After(t, 8)) && After(t, 8).Num() == t.Num()
    ensures forall n :: 0 <= n < 8 ==> PassFits(After(t, n), n)
  {
    hide Fe.Num, Pass, PassFits, After, Halfway, Carriable;
    NoPass(t);
    PassStep(t, 0); PassStep(t, 1); PassStep(t, 2); PassStep(t, 3);
    PassStep(t, 4); PassStep(t, 5); PassStep(t, 6); PassStep(t, 7);
    var t1, t2, t3, t4 := After(t, 1), After(t, 2), After(t, 3), After(t, 4);
    var t5, t6, t7, t8 := After(t, 5), After(t, 6), After(t, 7), After(t, 8);
    PassNum(t, 0); PassNum(t1, 1); PassNum(t2, 2); PassNum(t3, 3);
    PassNum(t4, 4); PassNum(t5, 5); PassNum(t6, 6); PassNum(t7, 7);
    FirstFour(t, t1, t2, t3, t4);
    NextFour(t4, t5, t6, t7, t8);
    forall n | 0 <= n < 8 ensures PassFits(After(t, n), n) {
      assert n == 0 || n == 1 || n == 2 || n == 3 || n == 4 || n == 5 || n == 6 || n == 7;
    }
  }

  // Limb bounds after the carries out of limbs 0, 4, 1 and 5.
  predicate Quarter(h: Fe) {
    && Within(h.h0, 0x200_0000) && Within(h.h1, 0x100_0000) && Within(h.h4, 0x200_0000) && Within(h.h5, 0x100_0000)
    && Within(h.h2, I62 + 0x40_0000_0000) && Within(h.h6, I62 + 0x40_0000_0000)
    && Within(h.h3, I62 - 1) && Within(h.h7, I62 - 1) && Within(h.h8, I62 - 1) && Within(h.h9, I62 - 1)
  }

  lemma FirstFour(t: Fe, t1: Fe, t2: Fe, t3: Fe, t4: Fe)
    requires Carriable(t) && t1 == Pass(t, 0) && t2 == Pass(t1, 1) && t3 == Pass(t2, 2) && t4 == Pass(t3, 3)
    ensures PassFits(t, 0) && PassFits(t1, 1) && PassFits(t2, 2) && PassFits(t3, 3) && Quarter(t4)
  {
  }

  lemma NextFour(t4: Fe, t5: Fe, t6: Fe, t7: Fe, t8: Fe)
    requires Quarter(t4) && t5 == Pass(t4, 4) && t6 == Pass(t5, 5) && t7 == Pass(t6, 6) && t8 == Pass(t7, 7)
    ensures PassFits(t4, 4) && PassFits(t5, 5) && PassFits(t6, 6) && PassFits(t7, 7) && Halfway(t8)
  {
  }

  // The second turn, round the top limb back to the bottom.
  lemma LastPasses(t: Fe)
    requires Halfway(After(t, 8))
    ensures After(t, 12).Tight() && After(t, 12).Num() == After(t, 8).Num() - P * Round25(After(t, 10).h9)
    ensures forall n :: 8 <= n < 12 ==> PassFits(After(t, n), n)
  {
    hide Fe.Num, Pass, PassFits, After, Halfway, Fe.Bounded;
    PassStep(t, 8); PassStep(t, 9); PassStep(t, 10); PassStep(t, 11);
    var t8, t9, t10, t11, t12 := After(t, 8), After(t, 9), After(t, 10), After(t, 11), After(t, 12);
    PassNum(t8, 8); PassNum(t9, 9); PassNum(t10, 10); PassNum(t11, 11);
    LastFour(t8, t9, t10, t11, t12);
    forall n | 8 <= n < 12 ensures PassFits(After(t, n), n) {
      assert n == 8 || n == 9 || n == 10 || n == 11;
    }
  }

  lemma LastFour(t8: Fe, t9: Fe, t10: Fe, t11: Fe, t12: Fe)
    requires Halfway(t8) && t9 == Pass(t8, 8) && t10 == Pass(t9, 9) && t11 == Pass(t10, 10) && t12 == Pass(t11, 11)
    ensures PassFits(t8, 8) && PassFits(t9, 9) && PassFits(t10, 10) && PassFits(t11, 11) && t12.Tight()
  {
  }

  /** With the documented bounds on the other limbs, no step overflows if and only
      if rounding the lowest limb does not. */
  lemma NoOverflowIff(t: Fe)
    requires I64(t.h0) && OthersFit62(t)
    ensures NoOverflow(t) <==> t.h0 + 0x200_0000 < I63
  {
    hide Fe.Num, Pass;
    if t.h0 + 0x200_0000 < I63 {
      FirstPasses(t);
      LastPasses(t);
    } else {
      NoPass(t);
      assert !PassFits(After(t, 0), 0);
    }
  }

  /** The bound the macro documents for the lowest limb is too wide. */
  lemma DocumentedBoundOverflows()
    ensures var t := Fe(I63 - 1, 0, 0, 0, 0, 0, 0, 0, 0, 0);
      Within(t.h0, I63 - 1) && OthersFit62(t) && !I64(t.h0 + 0x200_0000) && !NoOverflow(t)
  {
    NoOverflowIff(Fe(I63 - 1, 0, 0, 0, 0, 0, 0, 0, 0, 0));
  }

  /** FE_CARRY: no step overflows, the limbs end up tight and the number changes by
      a multiple of the modulus. */
  method Carry(t: Fe) returns (h: Fe)
    requires Carriable(t)
    ensures h.Tight() && h.Val() == t.Val() && NoOverflow(t)
  {
    hide Fe.Num, Pass, PassFits;
    var u := FirstCarries(t);
    h := LastCarries(t, u);
    FirstPasses(t);
    LastPasses(t);
    ghost var m, k := t.Num(), Round25(After(t, 10).h9);
    assert h.Num() == m + P * (-k);
    ModShift(m, -k, P);
  }

  // Both chains, up to limbs 4 and 8.
  method FirstCarries(t: Fe) returns (h: Fe)
    requires Carriable(t)
    ensures h == After(t, 8) && Halfway(h)
  {
    hide Halfway, Carriable, Round26, Round25, After;
    NoPass(t);
    PassStep(t, 0); PassStep(t, 1); PassStep(t, 2); PassStep(t, 3);
    var t0, t1, t2, t3, t4, t5, t6, t7, t8 := t.h0, t.h1, t.h2, t.h3, t.h4, t.h5, t.h6, t.h7, t.h8;
    var c := Round26(t0);
    t0, t1 := t0 - c * 0x400_0000, t1 + c;
    c := Round26(t4);
    t4, t5 := t4 - c * 0x400_0000, t5 + c;
    c := Round25(t1);
    t1, t2 := t1 - c * 0x200_0000, t2 + c;
    c := Round25(t5);
    t5, t6 := t5 - c * 0x200_0000, t6 + c;
    assert After(t, 4) == Fe(t0, t1, t2, t3, t4, t5, t6, t7, t8, t.h9);
    PassStep(t, 4); PassStep(t, 5); PassStep(t, 6); PassStep(t, 7);
    c := Round26(t2);
    t2, t3 := t2 - c * 0x400_0000, t3 + c;
    c := Round26(t6);
    t6, t7 := t6 - c * 0x400_0000, t7 + c;
    c := Round25(t3);
    t3, t4 := t3 - c * 0x200_0000, t4 + c;
    c := Round25(t7);
    t7, t8 := t7 - c * 0x200_0000, t8 + c;
    h := Fe(t0, t1, t2, t3, t4, t5, t6, t7, t8, t.h9);
    FirstPasses(t);
  }

  // The second turn of the chains, round the top limb back to the bottom.
  method LastCarries(ghost start: Fe, t: Fe) returns (h: Fe)
    requires t == After(start, 8) && Halfway(t)
    ensures h == After(start, 12) && h.Tight()
  {
    hide Halfway, Round26, Round25, Fe.Bounded, After;
    PassStep(start, 8); PassStep(start, 9); PassStep(start, 10); PassStep(start, 11);
    var t0, t1, t4, t5, t8, t9 := t.h0, t.h1, t.h4, t.h5, t.h8, t.h9;
    var c := Round26(t4);
    t4, t5 := t4 - c * 0x400_0000, t5 + c;
    c := Round26(t8);
    t8, t9 := t8 - c * 0x400_0000, t9 + c;
    assert After(start, 10) == Fe(t0, t1, t.h2, t.h3, t4, t5, t.h6, t.h7, t8, t9);
    c := Round25(t9);
    t9, t0 := t9 - c * 0x200_0000, t0 + c * 19;
    c := Round26(t0);
    t0, t1 := t0 - c * 0x400_0000, t1 + c;
    h := Fe(t0, t1, t.h2, t.h3, t4, t5, t.h6, t.h7, t8, t9);
    LastPasses(start);
  }

  // -------------------------------------------------------------------
  // Operations
  // -------------------------------------------------------------------

  lemma TermBound(a: int, b: int)
    requires Within(a, LOOSE_EVEN) && Within(b, 19 * LOOSE_EVEN)
    ensures Within(a * b, TERM)
  {
    var x, y := if a < 0 then -a else a, if b < 0 then -b else b;
    MulBound(x, y, LOOSE_EVEN, 19 * LOOSE_EVEN);
    assert a * b == x * y || a * b == -(x * y);
  }

  // The products of one limb with all others, plain and times 19.
  predicate SmallProducts(a: int, g: Fe) {
    && Within(a * g.h0, TERM) && Within(a * (g.h0 * 19), TERM)
    && Within(a * g.h1, TERM) && Within(a * (g.h1 * 19), TERM)
    && Within(a * g.h2, TERM) && Within(a * (g.h2 * 19), TERM)
    && Within(a * g.h3, TERM) && Within(a * (g.h3 * 19), TERM)
    && Within(a * g.h4, TERM) && Within(a * (g.h4 * 19), TERM)
    && Within(a * g.h5, TERM) && Within(a * (g.h5 * 19), TERM)
    && Within(a * g.h6, TERM) && Within(a * (g.h6 * 19), TERM)
    && Within(a * g.h7, TERM) && Within(a * (g.h7 * 19), TERM)
    && Within(a * g.h8, TERM) && Within(a * (g.h8 * 19), TERM)
    && Within(a * g.h9, TERM) && Within(a * (g.h9 * 19), TERM)
  }

  lemma RowProducts(a: int, g: Fe)
    requires Within(a, LOOSE_EVEN) && g.Loose()
    ensures SmallProducts(a, g)
  {
    TermBound(a, g.h0); TermBound(a, g.h0 * 19);
    TermBound(a, g.h1); TermBound(a, g.h1 * 19);
    TermBound(a, g.h2); TermBound(a, g.h2 * 19);
    TermBound(a, g.h3); TermBound(a, g.h3 * 19);
    TermBound(a, g.h4); TermBound(a, g.h4 * 19);
    TermBound(a, g.h5); TermBound(a, g.h5 * 19);
    TermBound(a, g.h6); TermBound(a, g.h6 * 19);
    TermBound(a, g.h7); TermBound(a, g.h7 * 19);
    TermBound(a, g.h8); TermBound(a, g.h8 * 19);
    TermBound(a, g.h9); TermBound(a, g.h9 * 19);
  }

  function RowOf(f: Fe, g: Fe, i: nat): Fe {
    match i
    case 0 => Row0(f.h0, g)
    case 1 => Row1(f.h1, g)
    case 2 => Row2(f.h2, g)
    case 3 => Row3(f.h3, g)
    case 4 => Row4(f.h4, g)
    case 5 => Row5(f.h5, g)
    case 6 => Row6(f.h6, g)
    case 7 => Row7(f.h7, g)
    case 8 => Row8(f.h8, g)
    case _ => Row9(f.h9, g)
  }

  lemma RowBound(f: Fe, g: Fe, i: nat)
    requires f.Loose() && g.Loose() && i < 10
    ensures RowOf(f, g, i).Bounded(TERM, TERM)
  {
    match i {
      case 0 => RowProducts(f.h0, g);
      case 1 => RowProducts(f.h1, g); RowProducts(f.h1 * 2, g);
      case 2 => RowProducts(f.h2, g);
      case 3 => RowProducts(f.h3, g); RowProducts(f.h3 * 2, g);
      case 4 => RowProducts(f.h4, g);
      case 5 => RowProducts(f.h5, g); RowProducts(f.h5 * 2, g);
      case 6 => RowProducts(f.h6, g);
      case 7 => RowProducts(f.h7, g); RowProducts(f.h7 * 2, g);
      case 8 => RowProducts(f.h8, g);
      case _ => RowProducts(f.h9, g); RowProducts(f.h9 * 2, g);
    }
  }

  // The limbs' running sums once the first n limbs of f are multiplied in, in the
  // order fe_mul adds them.
  function Partial(f: Fe, g: Fe, n: nat): Fe {
    if n == 0 then Fe(0, 0, 0, 0, 0, 0, 0, 0, 0, 0) else Plus(Partial(f, g, n - 1), RowOf(f, g, n - 1))
  }

  predicate Fits62(t: Fe) { t.Bounded(I62 - 1, I62 - 1) }

  lemma {:induction false} PartialBound(f: Fe, g: Fe, n: nat)
    requires f.Loose() && g.Loose() && n <= 10
    ensures Partial(f, g, n).Bounded(n * TERM, n * TERM)
  {
    hide RowOf, Plus, Fe.Bounded;
    if n > 0 {
      PartialBound(f, g, n - 1);
      RowBound(f, g, n - 1);
      PlusBound(Partial(f, g, n - 1), RowOf(f, g, n - 1), (n - 1) * TERM, TERM);
      assert (n - 1) * TERM + TERM == n * TERM;
    } else {
      NothingYet();
    }
  }

  lemma PlusBound(a: Fe, b: Fe, x: int, y: int)
    requires a.Bounded(x, x) && b.Bounded(y, y)
    ensures Plus(a, b).Bounded(x + y, x + y)
  {
  }

  lemma NothingYet()
    ensures Fe(0, 0, 0, 0, 0, 0, 0, 0, 0, 0).Bounded(0, 0)
  {
  }

  lemma PartialIsProduct(f: Fe, g: Fe)
    ensures Partial(f, g, 10) == Product(f, g)
  {
    hide Row0, Row1, Row2, Row3, Row4, Row5, Row6, Row7, Row8, Row9, Partial;
    PartialStart(f, g);
    PartialStep(f, g, 0); PartialStep(f, g, 1); PartialStep(f, g, 2); PartialStep(f, g, 3); PartialStep(f, g, 4);
    PartialStep(f, g, 5); PartialStep(f, g, 6); PartialStep(f, g, 7); PartialStep(f, g, 8); PartialStep(f, g, 9);
  }

  lemma PartialStart(f: Fe, g: Fe)
    ensures Partial(f, g, 0) == Fe(0, 0, 0, 0, 0, 0, 0, 0, 0, 0)
  {
  }

  lemma PartialStep(f: Fe, g: Fe, n: nat)
    ensures Partial(f, g, n + 1) == Plus(Partial(f, g, n), RowOf(f, g, n))
  {
    hide RowOf, Plus;
  }

  /** Every running sum fe_mul passes through is a 64-bit number. */
  lemma SumsFit(f: Fe, g: Fe)
    requires f.Loose() && g.Loose()
    ensures forall n :: 0 <= n <= 10 ==> Fits62(Partial(f, g, n))
    ensures Carriable(Product(f, g))
  {
    hide Product, Partial;
    forall n | 0 <= n <= 10 ensures Fits62(Partial(f, g, n)) {
      PartialBound(f, g, n);
      assert n * TERM < I62;
    }
    PartialIsProduct(f, g);
    assert Fits62(Partial(f, g, 10));
  }

  // The products fe_mul adds up, limb by limb.
  method Terms(f: Fe, g: Fe) returns (t: Fe)
    requires f.Loose() && g.Loose()
    ensures Carriable(t) && t == Product(f, g)
    ensures forall n :: 0 <= n <= 10 ==> Fits62(Partial(f, g, n))
  {
    hide Product, Partial;
    var f0, f1, f2, f3, f4, f5, f6, f7, f8, f9 := f.h0, f.h1, f.h2, f.h3, f.h4, f.h5, f.h6, f.h7, f.h8, f.h9;
    var g0, g1, g2, g3, g4, g5, g6, g7, g8, g9 := g.h0, g.h1, g.h2, g.h3, g.h4, g.h5, g.h6, g.h7, g.h8, g.h9;
    var F1, F3, F5, F7, F9 := f1 * 2, f3 * 2, f5 * 2, f7 * 2, f9 * 2;
    var G1, G2, G3, G4, G5, G6, G7, G8, G9 := g1 * 19, g2 * 19, g3 * 19, g4 * 19, g5 * 19, g6 * 19, g7 * 19, g8 * 19, g9 * 19;
    assert Within(G2, I31 - 1) && Within(G4, I31 - 1) && Within(G6, I31 - 1) && Within(G8, I31 - 1);
    assert Within(G1, I31 / 2) && Within(G3, I31 / 2) && Within(G5, I31 / 2) && Within(G7, I31 / 2) && Within(G9, I31 / 2);
    var t0 := f0 * g0 + F1 * G9 + f2 * G8 + F3 * G7 + f4 * G6 + F5 * G5 + f6 * G4 + F7 * G3 + f8 * G2 + F9 * G1;
    var t1 := f0 * g1 + f1 * g0 + f2 * G9 + f3 * G8 + f4 * G7 + f5 * G6 + f6 * G5 + f7 * G4 + f8 * G3 + f9 * G2;
    var t2 := f0 * g2 + F1 * g1 + f2 * g0 + F3 * G9 + f4 * G8 + F5 * G7 + f6 * G6 + F7 * G5 + f8 * G4 + F9 * G3;
    var t3 := f0 * g3 + f1 * g2 + f2 * g1 + f3 * g0 + f4 * G9 + f5 * G8 + f6 * G7 + f7 * G6 + f8 * G5 + f9 * G4;
    var t4 := f0 * g4 + F1 * g3 + f2 * g2 + F3 * g1 + f4 * g0 + F5 * G9 + f6 * G8 + F7 * G7 + f8 * G6 + F9 * G5;
    var t5 := f0 * g5 + f1 * g4 + f2 * g3 + f3 * g2 + f4 * g1 + f5 * g0 + f6 * G9 + f7 * G8 + f8 * G7 + f9 * G6;
    var t6 := f0 * g6 + F1 * g5 + f2 * g4 + F3 * g3 + f4 * g2 + F5 * g1 + f6 * g0 + F7 * G9 + f8 * G8 + F9 * G7;
    var t7 := f0 * g7 + f1 * g6 + f2 * g5 + f3 * g4 + f4 * g3 + f5 * g2 + f6 * g1 + f7 * g0 + f8 * G9 + f9 * G8;
    var t8 := f0 * g8 + F1 * g7 + f2 * g6 + F3 * g5 + f4 * g4 + F5 * g3 + f6 * g2 + F7 * g1 + f8 * g0 + F9 * G9;
    var t9 := f0 * g9 + f1 * g8 + f2 * g7 + f3 * g6 + f4 * g5 + f5 * g4 + f6 * g3 + f7 * g2 + f8 * g1 + f9 * g0;
    ProductLimbs(f, g);
    SumsFit(f, g);
    t := Fe(t0, t1, t2, t3, t4, t5, t6, t7, t8, t9);
  }

  lemma ProductLimbs(f: Fe, g: Fe)
    ensures Product(f, g) == Fe(
      f.h0 * g.h0 + (f.h1 * 2) * (g.h9 * 19) + f.h2 * (g.h8 * 19) + (f.h3 * 2) * (g.h7 * 19) + f.h4 * (g.h6 * 19)
      + (f.h5 * 2) * (g.h5 * 19) + f.h6 * (g.h4 * 19) + (f.h7 * 2) * (g.h3 * 19) + f.h8 * (g.h2 * 19) + (f.h9 * 2) * (g.h1 * 19),
      f.h0 * g.h1 + f.h1 * g.h0 + f.h2 * (g.h9 * 19) + f.h3 * (g.h8 * 19) + f.h4 * (g.h7 * 19)
      + f.h5 * (g.h6 * 19) + f.h6 * (g.h5 * 19) + f.h7 * (g.h4 * 19) + f.h8 * (g.h3 * 19) + f.h9 * (g.h2 * 19),
      f.h0 * g.h2 + (f.h1 * 2) * g.h1 + f.h2 * g.h0 + (f.h3 * 2) * (g.h9 * 19) + f.h4 * (g.h8 * 19)
      + (f.h5 * 2) * (g.h7 * 19) + f.h6 * (g.h6 * 19) + (f.h7 * 2) * (g.h5 * 19) + f.h8 * (g.h4 * 19) + (f.h9 * 2) * (g.h3 * 19),
      f.h0 * g.h3 + f.h1 * g.h2 + f.h2 * g.h1 + f.h3 * g.h0 + f.h4 * (g.h9 * 19)
      + f.h5 * (g.h8 * 19) + f.h6 * (g.h7 * 19) + f.h7 * (g.h6 * 19) + f.h8 * (g.h5 * 19) + f.h9 * (g.h4 * 19),
      f.h0 * g.h4 + (f.h1 * 2) * g.h3 + f.h2 * g.h2 + (f.h3 * 2) * g.h1 + f.h4 * g.h0
      + (f.h5 * 2) * (g.h9 * 19) + f.h6 * (g.h8 * 19) + (f.h7 * 2) * (g.h7 * 19) + f.h8 * (g.h6 * 19) + (f.h9 * 2) * (g.h5 * 19),
      f.h0 * g.h5 + f.h1 * g.h4 + f.h2 * g.h3 + f.h3 * g.h2 + f.h4 * g.h1
      + f.h5 * g.h0 + f.h6 * (g.h9 * 19) + f.h7 * (g.h8 * 19) + f.h8 * (g.h7 * 19) + f.h9 * (g.h6 * 19),
      f.h0 * g.h6 + (f.h1 * 2) * g.h5 + f.h2 * g.h4 + (f.h3 * 2) * g.h3 + f.h4 * g.h2
      + (f.h5 * 2) * g.h1 + f.h6 * g.h0 + (f.h7 * 2) * (g.h9 * 19) + f.h8 * (g.h8 * 19) + (f.h9 * 2) * (g.h7 * 19),
      f.h0 * g.h7 + f.h1 * g.h6 + f.h2 * g.h5 + f.h3 * g.h4 + f.h4 * g.h3
      + f.h5 * g.h2 + f.h6 * g.h1 + f.h7 * g.h0 + f.h8 * (g.h9 * 19) + f.h9 * (g.h8 * 19),
      f.h0 * g.h8 + (f.h1 * 2) * g.h7 + f.h2 * g.h6 + (f.h3 * 2) * g.h5 + f.h4 * g.h4
      + (f.h5 * 2) * g.h3 + f.h6 * g.h2 + (f.h7 * 2) * g.h1 + f.h8 * g.h0 + (f.h9 * 2) * (g.h9 * 19),
      f.h0 * g.h9 + f.h1 * g.h8 + f.h2 * g.h7 + f.h3 * g.h6 + f.h4 * g.h5
      + f.h5 * g.h4 + f.h6 * g.h3 + f.h7 * g.h2 + f.h8 * g.h1 + f.h9 * g.h0)
  {
  }

  lemma SameProduct(f: Fe, g: Fe, h: Fe)
    requires h.Val() == Product(f, g).Val()
    ensures h.Val() == FieldMul(f.Val(), g.Val())
  {
    hide Product, Fe.Num;
    var k := ProductNum(f, g);
    ModShift(Product(f, g).Num(), k, P);
    ModMul(f.Num(), f.Val(), g.Num(), g.Val(), P);
  }

  method Mul(f: Fe, g: Fe) returns (h: Fe)
    requires f.Loose() && g.Loose()
    ensures h.Tight() && h.Val() == FieldMul(f.Val(), g.Val())
  {
    hide Product, Fe.Num, Fe.Bounded;
    var t := Terms(f, g);
    h := Carry(t);
    SameProduct(f, g, h);
  }

  lemma SquareLimbs(f0: int, f1: int, f2: int, f3: int, f4: int, f5: int, f6: int, f7: int, f8: int, f9: int)
    ensures f0 * f0 + (f1 * 2) * (f9 * 38) + (f2 * 2) * (f8 * 19) + (f3 * 2) * (f7 * 38) + (f4 * 2) * (f6 * 19) + f5 * (f5 * 38) ==
            f0 * f0 + (f1 * 2) * (f9 * 19) + f2 * (f8 * 19) + (f3 * 2) * (f7 * 19) + f4 * (f6 * 19)
            + (f5 * 2) * (f5 * 19) + f6 * (f4 * 19) + (f7 * 2) * (f3 * 19) + f8 * (f2 * 19) + (f9 * 2) * (f1 * 19)
    ensures (f0 * 2) * f1 + f2 * (f9 * 38) + (f3 * 2) * (f8 * 19) + f4 * (f7 * 38) + (f5 * 2) * (f6 * 19) ==
            f0 * f1 + f1 * f0 + f2 * (f9 * 19) + f3 * (f8 * 19) + f4 * (f7 * 19)
            + f5 * (f6 * 19) + f6 * (f5 * 19) + f7 * (f4 * 19) + f8 * (f3 * 19) + f9 * (f2 * 19)
    ensures (f0 * 2) * f2 + (f1 * 2) * f1 + (f3 * 2) * (f9 * 38) + (f4 * 2) * (f8 * 19) + (f5 * 2) * (f7 * 38) + f6 * (f6 * 19) ==
            f0 * f2 + (f1 * 2) * f1 + f2 * f0 + (f3 * 2) * (f9 * 19) + f4 * (f8 * 19)
            + (f5 * 2) * (f7 * 19) + f6 * (f6 * 19) + (f7 * 2) * (f5 * 19) + f8 * (f4 * 19) + (f9 * 2) * (f3 * 19)
    ensures (f0 * 2) * f3 + (f1 * 2) * f2 + f4 * (f9 * 38) + (f5 * 2) * (f8 * 19) + f6 * (f7 * 38) ==
            f0 * f3 + f1 * f2 + f2 * f1 + f3 * f0 + f4 * (f9 * 19)
            + f5 * (f8 * 19) + f6 * (f7 * 19) + f7 * (f6 * 19) + f8 * (f5 * 19) + f9 * (f4 * 19)
    ensures (f0 * 2) * f4 + (f1 * 2) * (f3 * 2) + f2 * f2 + (f5 * 2) * (f9 * 38) + (f6 * 2) * (f8 * 19) + f7 * (f7 * 38) ==
            f0 * f4 + (f1 * 2) * f3 + f2 * f2 + (f3 * 2) * f1 + f4 * f0
            + (f5 * 2) * (f9 * 19) + f6 * (f8 * 19) + (f7 * 2) * (f7 * 19) + f8 * (f6 * 19) + (f9 * 2) * (f5 * 19)
    ensures (f0 * 2) * f5 + (f1 * 2) * f4 + (f2 * 2) * f3 + f6 * (f9 * 38) + (f7 * 2) * (f8 * 19) ==
            f0 * f5 + f1 * f4 + f2 * f3 + f3 * f2 + f4 * f1
            + f5 * f0 + f6 * (f9 * 19) + f7 * (f8 * 19) + f8 * (f7 * 19) + f9 * (f6 * 19)
    ensures (f0 * 2) * f6 + (f1 * 2) * (f5 * 2) + (f2 * 2) * f4 + (f3 * 2) * f3 + (f7 * 2) * (f9 * 38) + f8 * (f8 * 19) ==
            f0 * f6 + (f1 * 2) * f5 + f2 * f4 + (f3 * 2) * f3 + f4 * f2
            + (f5 * 2) * f1 + f6 * f0 + (f7 * 2) * (f9 * 19) + f8 * (f8 * 19) + (f9 * 2) * (f7 * 19)
    ensures (f0 * 2) * f7 + (f1 * 2) * f6 + (f2 * 2) * f5 + (f3 * 2) * f4 + f8 * (f9 * 38) ==
            f0 * f7 + f1 * f6 + f2 * f5 + f3 * f4 + f4 * f3
            + f5 * f2 + f6 * f1 + f7 * f0 + f8 * (f9 * 19) + f9 * (f8 * 19)
    ensures (f0 * 2) * f8 + (f1 * 2) * (f7 * 2) + (f2 * 2) * f6 + (f3 * 2) * (f5 * 2) + f4 * f4 + f9 * (f9 * 38) ==
            f0 * f8 + (f1 * 2) * f7 + f2 * f6 + (f3 * 2) * f5 + f4 * f4
            + (f5 * 2) * f3 + f6 * f2 + (f7 * 2) * f1 + f8 * f0 + (f9 * 2) * (f9 * 19)
    ensures (f0 * 2) * f9 + (f1 * 2) * f8 + (f2 * 2) * f7 + (f3 * 2) * f6 + f4 * (f5 * 2) ==
            f0 * f9 + f1 * f8 + f2 * f7 + f3 * f6 + f4 * f5
            + f5 * f4 + f6 * f3 + f7 * f2 + f8 * f1 + f9 * f0
  {
  }

  // fe_sq merges equal products: doubled, or 38 times where they wrap round.
  method SquareTerms(f: Fe) returns (t: Fe)
    requires f.Loose()
    ensures Carriable(t) && t == Product(f, f)
  {
    hide Product;
    var f0, f1, f2, f3, f4, f5, f6, f7, f8, f9 := f.h0, f.h1, f.h2, f.h3, f.h4, f.h5, f.h6, f.h7, f.h8, f.h9;
    var d0, d1, d2, d3, d4, d5, d6, d7 := f0 * 2, f1 * 2, f2 * 2, f3 * 2, f4 * 2, f5 * 2, f6 * 2, f7 * 2;
    var e5, n6, e7, n8, e9 := f5 * 38, f6 * 19, f7 * 38, f8 * 19, f9 * 38;
    assert Within(e5, I31 - 1) && Within(n6, I31 - 1) && Within(e7, I31 - 1) && Within(n8, I31 - 1) && Within(e9, I31 - 1);
    var t0 := f0 * f0 + d1 * e9 + d2 * n8 + d3 * e7 + d4 * n6 + f5 * e5;
    assert Within(t0, I62 - 1) by { SquareSum(f0, f0, d1, e9, d2, n8, d3, e7, d4, n6, f5, e5); }
    var t1 := d0 * f1 + f2 * e9 + d3 * n8 + f4 * e7 + d5 * n6;
    assert Within(t1, I62 - 1) by { SquareSum(d0, f1, f2, e9, d3, n8, f4, e7, d5, n6, 0, 0); }
    var t2 := d0 * f2 + d1 * f1 + d3 * e9 + d4 * n8 + d5 * e7 + f6 * n6;
    assert Within(t2, I62 - 1) by { SquareSum(d0, f2, d1, f1, d3, e9, d4, n8, d5, e7, f6, n6); }
    var t3 := d0 * f3 + d1 * f2 + f4 * e9 + d5 * n8 + f6 * e7;
    assert Within(t3, I62 - 1) by { SquareSum(d0, f3, d1, f2, f4, e9, d5, n8, f6, e7, 0, 0); }
    var t4 := d0 * f4 + d1 * d3 + f2 * f2 + d5 * e9 + d6 * n8 + f7 * e7;
    assert Within(t4, I62 - 1) by { SquareSum(d0, f4, d1, d3, f2, f2, d5, e9, d6, n8, f7, e7); }
    var t5 := d0 * f5 + d1 * f4 + d2 * f3 + f6 * e9 + d7 * n8;
    assert Within(t5, I62 - 1) by { SquareSum(d0, f5, d1, f4, d2, f3, f6, e9, d7, n8, 0, 0); }
    var t6 := d0 * f6 + d1 * d5 + d2 * f4 + d3 * f3 + d7 * e9 + f8 * n8;
    assert Within(t6, I62 - 1) by { SquareSum(d0, f6, d1, d5, d2, f4, d3, f3, d7, e9, f8, n8); }
    var t7 := d0 * f7 + d1 * f6 + d2 * f5 + d3 * f4 + f8 * e9;
    assert Within(t7, I62 - 1) by { SquareSum(d0, f7, d1, f6, d2, f5, d3, f4, f8, e9, 0, 0); }
    var t8 := d0 * f8 + d1 * d7 + d2 * f6 + d3 * d5 + f4 * f4 + f9 * e9;
    assert Within(t8, I62 - 1) by { SquareSum(d0, f8, d1, d7, d2, f6, d3, d5, f4, f4, f9, e9); }
    var t9 := d0 * f9 + d1 * f8 + d2 * f7 + d3 * f6 + f4 * d5;
    assert Within(t9, I62 - 1) by { SquareSum(d0, f9, d1, f8, d2, f7, d3, f6, f4, d5, 0, 0); }
    SquareLimbs(f0, f1, f2, f3, f4, f5, f6, f7, f8, f9);
    ProductLimbs(f, f);
    t := Fe(t0, t1, t2, t3, t4, t5, t6, t7, t8, t9);
  }

  lemma SquareTerm(a: int, b: int)
    requires Within(a, 2 * LOOSE_EVEN) && Within(b, 19 * LOOSE_EVEN)
    ensures Within(a * b, 38 * LOOSE_EVEN * LOOSE_EVEN)
  {
    var x, y := if a < 0 then -a else a, if b < 0 then -b else b;
    MulBound(x, y, 2 * LOOSE_EVEN, 19 * LOOSE_EVEN);
    assert a * b == x * y || a * b == -(x * y);
  }

  lemma SquareSum(a0: int, b0: int, a1: int, b1: int, a2: int, b2: int, a3: int, b3: int, a4: int, b4: int, a5: int, b5: int)
    requires Within(a0, 2 * LOOSE_EVEN) && Within(a1, 2 * LOOSE_EVEN) && Within(a2, 2 * LOOSE_EVEN)
    requires Within(a3, 2 * LOOSE_EVEN) && Within(a4, 2 * LOOSE_EVEN) && Within(a5, 2 * LOOSE_EVEN)
    requires Within(b0, 19 * LOOSE_EVEN) && Within(b1, 19 * LOOSE_EVEN) && Within(b2, 19 * LOOSE_EVEN)
    requires Within(b3, 19 * LOOSE_EVEN) && Within(b4, 19 * LOOSE_EVEN) && Within(b5, 19 * LOOSE_EVEN)
    ensures Within(a0 * b0, I62 - 1) && Within(a0 * b0 + a1 * b1, I62 - 1) && Within(a0 * b0 + a1 * b1 + a2 * b2, I62 - 1)
    ensures Within(a0 * b0 + a1 * b1 + a2 * b2 + a3 * b3, I62 - 1) && Within(a0 * b0 + a1 * b1 + a2 * b2 + a3 * b3 + a4 * b4, I62 - 1)
    ensures Within(a0 * b0 + a1 * b1 + a2 * b2 + a3 * b3 + a4 * b4 + a5 * b5, I62 - 1)
  {
    SquareTerm(a0, b0);
    SquareTerm(a1, b1);
    SquareTerm(a2, b2);
    SquareTerm(a3, b3);
    SquareTerm(a4, b4);
    SquareTerm(a5, b5);
  }

  method Sq(f: Fe) returns (h: Fe)
    requires f.Loose()
    ensures h.Tight() && h.Val() == FieldMul(f.Val(), f.Val())
  {
    hide Product, Fe.Num, Fe.Bounded;
    var t := SquareTerms(f);
    h := Carry(t);
    SameProduct(f, f, h);
  }

  method MulSmall(f: Fe, g: int) returns (h: Fe)
    requires f.Loose() && -I31 <= g < I31
    ensures h.Tight() && h.Val() == FieldMul(f.Val(), g)
  {
    hide Fe.Num;
    var t := Fe(f.h0 * g, f.h1 * g, f.h2 * g, f.h3 * g, f.h4 * g, f.h5 * g, f.h6 * g, f.h7 * g, f.h8 * g, f.h9 * g);
    SmallTerms(f, g);
    h := Carry(t);
    ScaleNum(f, g);
    ModMul(f.Num(), f.Val(), g, g, P);
  }

  lemma SmallTerm(a: int, g: int)
    requires Within(a, LOOSE_EVEN) && -I31 <= g < I31
    ensures Within(a * g, I62 - 1)
  {
    var x, y := if a < 0 then -a else a, if g < 0 then -g else g;
    MulBound(x, y, LOOSE_EVEN, I31);
    assert a * g == x * y || a * g == -(x * y);
  }

  lemma SmallTerms(f: Fe, g: int)
    requires f.Loose() && -I31 <= g < I31
    ensures Carriable(Fe(f.h0 * g, f.h1 * g, f.h2 * g, f.h3 * g, f.h4 * g, f.h5 * g, f.h6 * g, f.h7 * g, f.h8 * g, f.h9 * g))
  {
    SmallTerm(f.h0, g); SmallTerm(f.h1, g); SmallTerm(f.h2, g); SmallTerm(f.h3, g); SmallTerm(f.h4, g);
    SmallTerm(f.h5, g); SmallTerm(f.h6, g); SmallTerm(f.h7, g); SmallTerm(f.h8, g); SmallTerm(f.h9, g);
  }

  lemma ScaleNum(f: Fe, g: int)
    ensures Fe(f.h0 * g, f.h1 * g, f.h2 * g, f.h3 * g, f.h4 * g, f.h5 * g, f.h6 * g, f.h7 * g, f.h8 * g, f.h9 * g).Num() == f.Num() * g
  {
  }

  // Sums and differences of tight elements are loose.
  method Add(f: Fe, g: Fe) returns (h: Fe)
    requires f.Tight() && g.Tight()
    ensures h.Loose() && h.Val() == FieldAdd(f.Val(), g.Val())
  {
    h := Plus(f, g);
    PlusNum(f, g);
    SumMod(f.Num(), g.Num());
  }

  method Sub(f: Fe, g: Fe) returns (h: Fe)
    requires f.Tight() && g.Tight()
    ensures h.Loose() && h.Val() == FieldSub(f.Val(), g.Val())
  {
    h := Fe(f.h0 - g.h0, f.h1 - g.h1, f.h2 - g.h2, f.h3 - g.h3, f.h4 - g.h4,
            f.h5 - g.h5, f.h6 - g.h6, f.h7 - g.h7, f.h8 - g.h8, f.h9 - g.h9);
    assert h.Num() == f.Num() - g.Num();
    DifferenceMod(f.Num(), g.Num());
  }

  lemma SumMod(a: int, b: int)
    ensures (a + b) % P == (a % P + b % P) % P
  {
    ModShift(a % P + b % P, a / P + b / P, P);
  }

  lemma DifferenceMod(a: int, b: int)
    ensures (a - b) % P == (a % P - b % P) % P
  {
    ModShift(a % P - b % P, a / P - b / P, P);
  }
}
