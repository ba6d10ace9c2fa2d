/** Polynomials over GF(2^8) as codeword sequences, highest power first, evaluated by Horner's rule. */
module Polynomials {
  import opened GaloisField

  function Eval(p: seq<Gf>, x: Gf): Gf {
    if p == [] then ZERO else Add(Mul(Eval(p[..|p| - 1], x), x), p[|p| - 1])
  }

  function Sum(p: seq<Gf>, q: seq<Gf>): (r: seq<Gf>)
    requires |p| == |q|
    ensures |r| == |p| && forall i :: 0 <= i < |p| ==> r[i] == Add(p[i], q[i])
  {
    seq(|p|, i requires 0 <= i < |p| => Add(p[i], q[i]))
  }

  function Scale(c: Gf, p: seq<Gf>): (r: seq<Gf>)
    ensures |r| == |p| && forall i :: 0 <= i < |p| ==> r[i] == Mul(p[i], c)
  {
    seq(|p|, i requires 0 <= i < |p| => Mul(p[i], c))
  }

  function Zeros(n: nat): (r: seq<Gf>)
    ensures |r| == n && forall i :: 0 <= i < n ==> r[i] == ZERO
  {
    seq(n, _ => ZERO)
  }

  // Multiplication by x within the same number of coefficients; the leading one is lost.
  function Shift(p: seq<Gf>): (r: seq<Gf>)
    requires p != []
    ensures |r| == |p|
  {
    p[1..] + [ZERO]
  }

  lemma EvalStep(p: seq<Gf>, c: Gf, x: Gf)
    ensures Eval(p + [c], x) == Add(Mul(Eval(p, x), x), c)
  {
    hide Mul, Add;
    assert (p + [c])[..|p|] == p;
  }

  lemma {:induction false} EvalAppend(p: seq<Gf>, q: seq<Gf>, x: Gf)
    ensures Eval(p + q, x) == Add(Mul(Eval(p, x), Pow(x, |q|)), Eval(q, x))
  {
    hide Mul, Add;
    var a := Eval(p, x);
    if q == [] {
      assert p + q == p;
      MulOne(a);
      AddZero(a);
    } else {
      var q', c := q[..|q| - 1], q[|q| - 1];
      assert q == q' + [c] && p + q == (p + q') + [c];
      EvalAppend(p, q', x);
      EvalStep(p + q', c, x);
      EvalStep(q', c, x);
      MulAdd(Mul(a, Pow(x, |q'|)), Eval(q', x), x);
      MulAssoc(a, Pow(x, |q'|), x);
      AddAssoc(Mul(a, Pow(x, |q|)), Mul(Eval(q', x), x), c);
    }
  }

  lemma {:induction false} EvalSum(p: seq<Gf>, q: seq<Gf>, x: Gf)
    requires |p| == |q|
    ensures Eval(Sum(p, q), x) == Add(Eval(p, x), Eval(q, x))
  {
    hide Mul, Add;
    if p == [] {
      AddZero(ZERO);
    } else {
      var n := |p| - 1;
      assert Sum(p, q)[..n] == Sum(p[..n], q[..n]);
      var a, b := Eval(p[..n], x), Eval(q[..n], x);
      EvalSum(p[..n], q[..n], x);
      MulAdd(a, b, x);
      AddSwap(Mul(a, x), Mul(b, x), p[n], q[n]);
    }
  }

  lemma {:induction false} EvalScale(c: Gf, p: seq<Gf>, x: Gf)
    ensures Eval(Scale(c, p), x) == Mul(Eval(p, x), c)
  {
    hide Mul, Add;
    if p == [] {
      MulZero(c);
    } else {
      var n := |p| - 1;
      assert Scale(c, p)[..n] == Scale(c, p[..n]);
      var a := Eval(p[..n], x);
      EvalScale(c, p[..n], x);
      MulAdd(Mul(a, x), p[n], c);
      MulAssoc(a, c, x);
      MulComm(c, x);
      MulAssoc(a, x, c);
    }
  }

  lemma {:induction false} EvalZeros(n: nat, x: Gf)
    ensures Eval(Zeros(n), x) == ZERO
  {
    hide Mul, Add;
    MulZero(x);
    AddZero(ZERO);
    if n > 0 {
      assert Zeros(n)[..n - 1] == Zeros(n - 1);
      EvalZeros(n - 1, x);
    }
  }

  // The leading coefficient split off.
  lemma EvalHead(p: seq<Gf>, x: Gf)
    requires p != []
    ensures Eval(p, x) == Add(Mul(p[0], Pow(x, |p| - 1)), Eval(p[1..], x))
  {
    hide Mul, Pow, Add;
    assert p == [p[0]] + p[1..];
    EvalAppend([p[0]], p[1..], x);
    assert [p[0]] == [] + [p[0]];
    EvalStep([], p[0], x);
    MulZero(x);
    AddZero(p[0]);
  }

  lemma EvalShift(p: seq<Gf>, x: Gf)
    requires p != []
    ensures Eval(Shift(p), x) == Add(Mul(Eval(p, x), x), Mul(p[0], Pow(x, |p|)))
  {
    hide Mul, Pow, Add, Eval;
    EvalHead(p, x);
    var t, lead := Eval(p[1..], x), Mul(p[0], Pow(x, |p| - 1));
    EvalStep(p[1..], ZERO, x);
    AddZero(Mul(t, x));
    MulAdd(lead, t, x);
    MulAssoc(p[0], Pow(x, |p| - 1), x);
    PowStep(x, |p|);
    AddComm(Mul(lead, x), Mul(t, x));
    AddCancel(Mul(t, x), Mul(lead, x));
  }
}
