/** The X25519 scalar multiplication loop, against section 5 of RFC 7748. */
module MontgomeryLadder {
  import opened Arithmetic
  import opened Bytes
  import opened Field25519
  import opened FieldBytes

  // Projective coordinates of two points whose difference is fixed.
  datatype Pair = Pair(x2: int, z2: int, x3: int, z3: int)

  function Swap(p: Pair): Pair { Pair(p.x3, p.z3, p.x2, p.z2) }

  /** One step of the ladder as the RFC writes it, in the field. */
  function Step(x1: int, p: Pair): Pair {
    var a, b := FieldAdd(p.x2, p.z2), FieldSub(p.x2, p.z2);
    var aa, bb := FieldMul(a, a), FieldMul(b, b);
    var e := FieldSub(aa, bb);
    var c, d := FieldAdd(p.x3, p.z3), FieldSub(p.x3, p.z3);
    var da, cb := FieldMul(d, a), FieldMul(c, b);
    var sum, diff := FieldAdd(da, cb), FieldSub(da, cb);
    Pair(FieldMul(aa, bb), FieldMul(e, FieldAdd(aa, FieldMul(121665, e))), FieldMul(sum, sum), FieldMul(x1, FieldMul(diff, diff)))
  }

  /** The ladder without tricks: a one bit exchanges the two points around the step. */
  function Ladder(x1: int, scalar: seq<byte>, bits: nat, pos: nat): Pair
    requires pos <= bits <= 8 * |scalar|
    decreases bits - pos
  {
    if pos == bits then Pair(1, 0, x1, 1)
    else
      var p := Ladder(x1, scalar, bits, pos + 1);
      if ScalarBit(scalar, pos) == 1 then Swap(Step(x1, Swap(p))) else Step(x1, p)
  }

  // 121666 E + BB is 121665 E + AA.
  lemma OtherConstant(aa: int, bb: int)
    ensures var e := FieldSub(aa, bb); FieldAdd(bb, FieldMul(e, 121666)) == FieldAdd(aa, FieldMul(121665, e))
  {
    var e, k := (aa - bb) % P, (aa - bb) / P;
    ConstantArith(aa, bb, e, k);
    ModShift(aa + 121665 * e, -k, P);
    AddReduced(bb, e * 121666);
    AddReduced(aa, 121665 * e);
  }

  lemma AddReduced(a: int, b: int)
    ensures FieldAdd(a, b % P) == (a + b) % P
  {
    assert a + b == (a + b % P) + P * (b / P);
    ModShift(a + b % P, b / P, P);
  }

  lemma ConstantArith(aa: int, bb: int, e: int, k: int)
    requires aa - bb == P * k + e
    ensures bb + e * 121666 == (aa + 121665 * e) + P * (-k)
  {
  }

  datatype Points = Points(x2: Fe, z2: Fe, x3: Fe, z3: Fe) {
    predicate Tight() { x2.Tight() && z2.Tight() && x3.Tight() && z3.Tight() }
    function Vals(): Pair { Pair(x2.Val(), z2.Val(), x3.Val(), z3.Val()) }
  }

  /** Every operation finds its operands within bounds, and the step leaves all
      four coordinates tight again. */
  method LadderStep(x1: Fe, p: Points) returns (r: Points)
    requires x1.Tight() && p.Tight()
    ensures r.Tight() && r.Vals() == Step(x1.Val(), p.Vals())
  {
    hide Fe.Val, Fe.Bounded, FieldAdd, FieldSub, FieldMul;
    TightIsLoose(x1);
    var x2, z2, x3, z3 := p.x2, p.z2, p.x3, p.z3;
    var t0 := Sub(x3, z3);
    var t1 := Sub(x2, z2);
    x2 := Add(x2, z2);
    z2 := Add(x3, z3);
    z3 := Mul(t0, x2);
    z2 := Mul(z2, t1);
    t0 := Sq(t1);
    t1 := Sq(x2);
    x3 := Add(z3, z2);
    z2 := Sub(z3, z2);
    TightIsLoose(t1);
    TightIsLoose(t0);
    x2 := Mul(t1, t0);
    OtherConstant(t1.Val(), t0.Val());
    t1 := Sub(t1, t0);
    z2 := Sq(z2);
    z3 := MulSmall(t1, 121666);
    x3 := Sq(x3);
    t0 := Add(t0, z3);
    TightIsLoose(z2);
    z3 := Mul(x1, z2);
    z2 := Mul(t1, t0);
    r := Points(x2, z2, x3, z3);
  }

  lemma TightIsLoose(f: Fe)
    requires f.Tight()
    ensures f.Loose()
  {
  }

  method ConditionalSwap(p: Points, swap: bool) returns (r: Points)
    ensures r == if swap then Points(p.x3, p.z3, p.x2, p.z2) else p
  {
    r := if swap then Points(p.x3, p.z3, p.x2, p.z2) else p;
  }

  function MaybeSwapped(p: Pair, swap: bool): Pair { if swap then Swap(p) else p }

  /** The loop with its delayed swaps computes the plain ladder. */
  method ScalarMult(scalar: seq<byte>, point: seq<byte>, nbBits: nat) returns (p: Points)
    requires |point| == 32 && nbBits <= 8 * |scalar|
    ensures p.Tight() && p.Vals() == Ladder(Le(point) % TWO255 % P, scalar, nbBits, 0)
  {
    hide Fe.Num, Fe.Bounded, Step, Le;
    var x1 := FromBytes(point);
    var one, zero := Fe(1, 0, 0, 0, 0, 0, 0, 0, 0, 0), Fe(0, 0, 0, 0, 0, 0, 0, 0, 0, 0);
    Constants();
    p := Points(one, zero, x1, one);
    var swap := false;
    var pos := nbBits;
    while pos > 0
      invariant 0 <= pos <= nbBits && p.Tight()
      invariant p.Vals() == MaybeSwapped(Ladder(x1.Val(), scalar, nbBits, pos), swap)
    {
      pos := pos - 1;
      var b := ScalarBit(scalar, pos) == 1;
      swap := swap != b;
      p := ConditionalSwap(p, swap);
      swap := b;
      p := LadderStep(x1, p);
    }
    p := ConditionalSwap(p, swap);
  }

  lemma Constants()
    ensures var one, zero := Fe(1, 0, 0, 0, 0, 0, 0, 0, 0, 0), Fe(0, 0, 0, 0, 0, 0, 0, 0, 0, 0);
      one.Tight() && zero.Tight() && one.Val() == 1 && zero.Val() == 0
  {
  }
}
