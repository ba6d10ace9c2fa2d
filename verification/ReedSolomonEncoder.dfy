/** The Reed-Solomon half of the QR encoder: peasant multiplication, the generator polynomial and polynomial division. */
module ReedSolomonEncoder {
  import opened Options
  import opened GaloisField
  import opened Polynomials
  import GfBits

  /* ---------- multiplication ---------- */

  // One turn of the peasant loop, in two halves; z plays the source's int.
  function Doubled(z: bv16): bv16 { (z << 1) ^ ((z >> 7) * 0x11D) }

  function Selected(x: bv8, y: bv8, i: nat): bv16
    requires i < 8
  {
    ((y as bv16 >> i) & 1) * (x as bv16)
  }

  lemma DoubledIs(z: bv8)
    ensures Doubled(z as bv16) == GfBits.XTime(z) as bv16
  {
  }

  lemma SelectedIs(x: bv8, y: bv8, i: nat)
    requires i < 8
    ensures GfBits.Bit(y, i) ==> Selected(x, y, i) == x as bv16
    ensures !GfBits.Bit(y, i) ==> Selected(x, y, i) == 0
  {
    assert (y as bv16 >> i) & 1 == 0 || (y as bv16 >> i) & 1 == 1;
  }

  lemma XorWiden(a: bv8, x: bv8)
    ensures (a as bv16) ^ (x as bv16) == (a ^ x) as bv16 && (a as bv16) ^ 0 == a as bv16
  {
  }

  lemma PeasantStep(z: bv8, x: bv8, y: bv8, i: nat)
    requires i < 8
    requires z == GfBits.MulBits(x, y, i + 1)
    ensures Doubled(z as bv16) ^ Selected(x, y, i) == GfBits.MulBits(x, y, i) as bv16
  {
    hide *;
    DoubledIs(z);
    SelectedIs(x, y, i);
    GfBits.MulBitsStep(x, y, i);
    XorWiden(GfBits.XTime(z), x);
  }

  // Russian-peasant multiplication is the field product.
  method Multiply(x: Gf, y: Gf) returns (r: Gf)
    ensures r == Mul(x, y)
  {
    hide GfBits.MulBits, Doubled, Selected;
    GfBits.MulBitsStep(x.v, y.v, 8);
    var z: bv16 := 0;
    var i := 8;
    while i > 0
      invariant 0 <= i <= 8
      invariant z == GfBits.MulBits(x.v, y.v, i) as bv16
    {
      i := i - 1;
      PeasantStep(GfBits.MulBits(x.v, y.v, i + 1), x.v, y.v, i);
      z := Doubled(z);
      z := z ^ Selected(x.v, y.v, i);
    }
    r := Gf(z as bv8);
  }

  /* ---------- the generator polynomial ---------- */

  // (x - r^0)(x - r^1)...(x - r^(n-1))
  function RootProduct(x: Gf, n: nat): Gf {
    if n == 0 then ONE else Mul(RootProduct(x, n - 1), Add(x, Alpha(n - 1)))
  }

  lemma {:induction false} RootProductZero(k: nat, n: nat)
    requires k < n
    ensures RootProduct(Alpha(k), n) == ZERO
  {
    hide Mul, Add, Alpha;
    if k == n - 1 {
      AddSelf(Alpha(k));
      MulZero(RootProduct(Alpha(k), n - 1));
    } else {
      RootProductZero(k, n - 1);
      MulZero(Add(Alpha(k), Alpha(n - 1)));
    }
  }

  // The coefficients after i factors, without the leading one once all n are in.
  function DivisorAfter(n: nat, i: nat): (r: seq<Gf>)
    requires n > 0
    ensures |r| == n
  {
    if i == 0 then Zeros(n - 1) + [ONE]
    else
      var p := DivisorAfter(n, i - 1);
      Sum(Scale(Alpha(i - 1), p), Shift(p))
  }

  lemma {:induction false} DivisorLead(n: nat, i: nat)
    requires i < n
    ensures forall j :: 0 <= j < n - 1 - i ==> DivisorAfter(n, i)[j] == ZERO
    ensures DivisorAfter(n, i)[n - 1 - i] == ONE
  {
    hide Mul, Add, Alpha;
    if i > 0 {
      DivisorLead(n, i - 1);
      MulZero(Alpha(i - 1));
      AddZero(ZERO);
      AddZero(ONE);
      assert DivisorAfter(n, i - 1)[n - i] == ONE;
    }
  }

  lemma {:induction false} DivisorEval(n: nat, i: nat, x: Gf)
    requires 0 < n && i <= n
    ensures i < n ==> Eval(DivisorAfter(n, i), x) == RootProduct(x, i)
    ensures i == n ==> Add(Pow(x, n), Eval(DivisorAfter(n, i), x)) == RootProduct(x, i)
  {
    hide Mul, Add, Alpha, Eval, Pow;
    if i == 0 {
      EvalStep(Zeros(n - 1), ONE, x);
      EvalZeros(n - 1, x);
      MulZero(x);
      AddZero(ONE);
    } else {
      var p, root := DivisorAfter(n, i - 1), Alpha(i - 1);
      var e := Eval(p, x);
      DivisorEval(n, i - 1, x);
      DivisorLead(n, i - 1);
      EvalSum(Scale(root, p), Shift(p), x);
      EvalScale(root, p, x);
      EvalShift(p, x);
      MulAdd(x, root, e);
      MulZero(Pow(x, n));
      MulOne(Pow(x, n));
      AddZero(Mul(e, x));
      AddComm(Mul(e, root), Mul(e, x));
      DivisorSum(Mul(e, root), Mul(e, x), Pow(x, n));
    }
  }

  lemma DivisorSum(a: Gf, b: Gf, w: Gf)
    ensures Add(w, Add(a, Add(b, w))) == Add(b, a)
  {
  }

  method ComputeDivisor(degree: int) returns (r: Option<seq<Gf>>)
    ensures r.Some? <==> 1 <= degree <= 255
    ensures r.Some? ==> |r.value| == degree
    ensures r.Some? ==> forall x :: Add(Pow(x, degree), Eval(r.value, x)) == RootProduct(x, degree)
  {
    hide Mul, Add, Alpha, Eval, Pow;
    if degree < 1 || degree > 255 {
      return None;
    }
    var result := Zeros(degree - 1) + [ONE];
    var root := ONE;
    AlphaZero();
    for i := 0 to degree
      invariant root == Alpha(i)
      invariant result == DivisorAfter(degree, i)
    {
      ghost var p := result;
      ghost var next := Sum(Scale(root, p), Shift(p));
      for j := 0 to |result|
        invariant |result| == degree
        invariant forall k :: 0 <= k < j ==> result[k] == next[k]
        invariant forall k :: j <= k < degree ==> result[k] == p[k]
      {
        var c := Multiply(result[j], root);
        AddZero(c);
        result := result[j := if j + 1 < |result| then Add(c, result[j + 1]) else c];
      }
      assert result == next;
      root := Multiply(root, Gf(2));
      MulAlpha(i, 1);
      AlphaOne();
    }
    forall x ensures Add(Pow(x, degree), Eval(result, x)) == RootProduct(x, degree) {
      DivisorEval(degree, degree, x);
    }
    r := Some(result);
  }

  /* ---------- division ---------- */

  predicate IsRoot(divisor: seq<Gf>, x: Gf) {
    Add(Pow(x, |divisor|), Eval(divisor, x)) == ZERO
  }

  // All npar syndromes of a received block vanish.
  predicate IsCodeword(c: seq<Gf>, npar: nat) {
    forall i :: 0 <= i < npar ==> Eval(c, Alpha(i)) == ZERO
  }

  // One step of the division: the remainder after one more data codeword.
  function RemainderStep(r: seq<Gf>, divisor: seq<Gf>, b: Gf): (next: seq<Gf>)
    requires |r| == |divisor| > 0
    ensures |next| == |r|
  {
    Sum(Shift(r), Scale(Add(b, r[0]), divisor))
  }

  lemma RemainderStepEval(p: seq<Gf>, r: seq<Gf>, divisor: seq<Gf>, b: Gf, x: Gf)
    requires |r| == |divisor| > 0 && IsRoot(divisor, x)
    requires Eval(p + r, x) == ZERO
    ensures Eval((p + [b]) + RemainderStep(r, divisor, b), x) == ZERO
  {
    hide Mul, Add, Alpha, Eval, Pow;
    var n := |divisor|;
    var w, e, f := Pow(x, n), Eval(r, x), Add(b, r[0]);
    AddZeroIsEqual(w, Eval(divisor, x));
    EvalAppend(p, r, x);
    AddZeroIsEqual(Mul(Eval(p, x), w), e);
    EvalSum(Shift(r), Scale(f, divisor), x);
    EvalScale(f, divisor, x);
    EvalShift(r, x);
    EvalAppend(p + [b], RemainderStep(r, divisor, b), x);
    EvalStep(p, b, x);
    var ep := Eval(p, x);
    // the data side: (ep*x + b)*w == e*x + b*w
    MulAdd(Mul(ep, x), b, w);
    MulAssoc(ep, x, w);
    MulComm(x, w);
    MulAssoc(ep, w, x);
    // the remainder side: (e*x + r0*w) + (b + r0)*w == e*x + b*w
    MulComm(w, f);
    MulAdd(b, r[0], w);
    RemainderSum(Mul(e, x), Mul(b, w), Mul(r[0], w));
    AddSelf(Add(Mul(e, x), Mul(b, w)));
  }

  lemma RemainderSum(a: Gf, b: Gf, c: Gf)
    ensures Add(Add(a, c), Add(b, c)) == Add(a, b)
  {
  }

  method ComputeRemainder(data: seq<Gf>, divisor: seq<Gf>) returns (r: seq<Gf>)
    requires |divisor| > 0
    ensures |r| == |divisor|
    ensures forall x :: IsRoot(divisor, x) ==> Eval(data + r, x) == ZERO
  {
    hide Mul, Add, Eval, Pow, IsRoot;
    var n := |divisor|;
    r := Zeros(n);
    forall x ensures Eval(data[..0] + r, x) == ZERO {
      EvalZeros(n, x);
      assert data[..0] + r == r;
    }
    for k := 0 to |data|
      invariant |r| == n
      invariant forall x :: IsRoot(divisor, x) ==> Eval(data[..k] + r, x) == ZERO
    {
      ghost var before := r;
      var factor := Add(data[k], r[0]);
      r := r[1..] + [ZERO];
      ghost var next := RemainderStep(before, divisor, data[k]);
      for i := 0 to n
        invariant |r| == n
        invariant forall j :: 0 <= j < i ==> r[j] == next[j]
        invariant forall j :: i <= j < n ==> r[j] == Shift(before)[j]
      {
        var m := Multiply(divisor[i], factor);
        r := r[i := Add(r[i], m)];
      }
      assert r == next;
      assert data[..k + 1] == data[..k] + [data[k]];
      forall x | IsRoot(divisor, x) ensures Eval(data[..k + 1] + r, x) == ZERO {
        RemainderStepEval(data[..k], before, divisor, data[k], x);
      }
    }
    assert data[..|data|] == data;
  }

  // Data followed by its remainder modulo the generator polynomial has no syndrome.
  method EncodeBlock(data: seq<Gf>, degree: int) returns (ecc: Option<seq<Gf>>)
    ensures ecc.Some? <==> 1 <= degree <= 255
    ensures ecc.Some? ==> |ecc.value| == degree && IsCodeword(data + ecc.value, degree)
  {
    hide Mul, Add, Alpha, Eval, Pow, RootProduct;
    var divisor := ComputeDivisor(degree);
    if divisor.None? {
      return None;
    }
    var r := ComputeRemainder(data, divisor.value);
    forall i | 0 <= i < degree ensures Eval(data + r, Alpha(i)) == ZERO {
      RootProductZero(i, degree);
      assert IsRoot(divisor.value, Alpha(i));
    }
    ecc := Some(r);
  }
}
