/** The error-correcting half of the QR decoder: syndromes, Berlekamp-Massey, the error evaluator and the repair of one
    block. Buffers of MAX_POLY coefficients hold polynomials lowest power first. */
module BlockDecoder {
  import opened GaloisField
  import opened Polynomials
  import opened ReedSolomonEncoder

  const MAX_POLY := 64

  /* ---------- polynomial operations ---------- */

  // The first n terms of a polynomial given lowest power first.
  function EvalLow(p: seq<Gf>, x: Gf, n: nat): Gf
    requires n <= |p|
  {
    if n == 0 then ZERO else Add(EvalLow(p, x, n - 1), Mul(p[n - 1], Pow(x, n - 1)))
  }

  lemma {:induction false} EvalLowAtZero(p: seq<Gf>, n: nat)
    requires 0 < n <= |p|
    ensures EvalLow(p, ZERO, n) == p[0]
  {
    hide Mul, Add;
    if n == 1 {
      assert EvalLow(p, ZERO, 0) == ZERO;
      MulOne(p[0]);
      AddZero(p[0]);
    } else {
      EvalLowAtZero(p, n - 1);
      MulZero(Pow(ZERO, n - 2));
      MulZero(p[n - 1]);
      AddZero(p[0]);
    }
  }

  // What poly_add adds to cell p.
  function AddedTerm(src: seq<Gf>, c: Gf, shift: int, p: int): Gf {
    if 0 <= p - shift < |src| then Mul(src[p - shift], c) else ZERO
  }

  // dst += c * z^shift * src, cut to the buffer
  method PolyAdd(dst: array<Gf>, src: array<Gf>, c: Gf, shift: int)
    requires dst.Length == src.Length == MAX_POLY && dst != src
    modifies dst
    ensures forall p :: 0 <= p < MAX_POLY ==> dst[p] == Add(old(dst[p]), AddedTerm(src[..], c, shift, p))
  {
    hide Mul, Add, Log, Exp;
    forall p | 0 <= p < MAX_POLY
      ensures Add(old(dst[p]), ZERO) == dst[p]
      ensures c == ZERO ==> AddedTerm(src[..], c, shift, p) == ZERO
    {
      AddZero(dst[p]);
      if 0 <= p - shift < MAX_POLY { MulZero(src[p - shift]); }
    }
    if c == ZERO {
      return;
    }
    for i := 0 to MAX_POLY
      invariant forall p :: 0 <= p < MAX_POLY && p < i + shift ==>
                  dst[p] == Add(old(dst[p]), AddedTerm(src[..], c, shift, p))
      invariant forall p :: 0 <= p < MAX_POLY && p >= i + shift ==> dst[p] == old(dst[p])
    {
      var p := i + shift;
      var v := src[i];
      if 0 <= p < MAX_POLY {
        assert AddedTerm(src[..], c, shift, p) == Mul(v, c);
        if v != ZERO {
          TableMul(v, c);
          dst[p] := Add(dst[p], Exp((Log(v) + Log(c)) % 255));
        } else {
          MulZero(c);
          AddZero(dst[p]);
        }
      }
    }
  }

  method PolyEval(s: array<Gf>, x: Gf) returns (sum: Gf)
    requires s.Length == MAX_POLY
    ensures sum == EvalLow(s[..], x, MAX_POLY)
  {
    hide Mul, Add, Log, Exp, Pow;
    if x == ZERO {
      EvalLowAtZero(s[..], MAX_POLY);
      return s[0];
    }
    sum := ZERO;
    for i := 0 to MAX_POLY
      invariant sum == EvalLow(s[..], x, i)
    {
      var c := s[i];
      if c != ZERO {
        TableTerm(c, x, i);
        sum := Add(sum, Exp((Log(c) + Log(x) * i) % 255));
      } else {
        MulZero(Pow(x, i));
        AddZero(sum);
      }
    }
  }

  // A polynomial of degree at most one.
  lemma {:induction false} EvalLowLine(p: seq<Gf>, x: Gf, n: nat)
    requires 2 <= n <= |p| && forall i :: 2 <= i < |p| ==> p[i] == ZERO
    ensures EvalLow(p, x, n) == Add(p[0], Mul(p[1], x))
  {
    hide Mul, Add;
    if n == 2 {
      assert EvalLow(p, x, 2) == Add(EvalLow(p, x, 1), Mul(p[1], Pow(x, 1)));
      assert EvalLow(p, x, 1) == Add(EvalLow(p, x, 0), Mul(p[0], Pow(x, 0)));
      assert Pow(x, 1) == Mul(ONE, x);
      MulOne(p[0]);
      MulOne(x);
      AddZero(p[0]);
    } else {
      EvalLowLine(p, x, n - 1);
      MulZero(Pow(x, n - 1));
      AddZero(EvalLow(p, x, n - 1));
    }
  }

  /* ---------- syndromes ---------- */

  method BlockSyndromes(data: array<Gf>, off: nat, bs: nat, npar: nat, s: array<Gf>) returns (nonzero: bool)
    requires off + bs <= data.Length && npar <= MAX_POLY == s.Length && s != data
    modifies s
    ensures forall i :: 0 <= i < npar ==> s[i] == Eval(data[off..off + bs], Alpha(i))
    ensures forall i :: npar <= i < MAX_POLY ==> s[i] == ZERO
    ensures nonzero <==> !IsCodeword(data[off..off + bs], npar)
  {
    hide Mul, Add, Log, Exp, Pow, Alpha, Eval;
    forall i | 0 <= i < MAX_POLY {
      s[i] := ZERO;
    }
    ghost var block := data[off..off + bs];
    nonzero := false;
    for i := 0 to npar
      invariant forall k :: 0 <= k < i ==> s[k] == Eval(block, Alpha(k))
      invariant forall k :: i <= k < MAX_POLY ==> s[k] == ZERO
      invariant nonzero <==> exists k :: 0 <= k < i && Eval(block, Alpha(k)) != ZERO
    {
      ghost var x := Alpha(i);
      assert block[bs..] == [];
      EvalEmpty(x);
      for j := 0 to bs
        invariant s[i] == Eval(block[bs - j..], x)
        invariant forall k :: 0 <= k < i ==> s[k] == Eval(block, Alpha(k))
        invariant forall k :: i < k < MAX_POLY ==> s[k] == ZERO
      {
        var c := data[off + bs - j - 1];
        ghost var rest := block[bs - j - 1..];
        assert rest[0] == c && rest[1..] == block[bs - j..];
        EvalHead(rest, x);
        PowAlpha(i, j);
        AddComm(Mul(c, Alpha(i * j)), s[i]);
        if c != ZERO {
          TableMulAlpha(c, i * j);
          s[i] := Add(s[i], Exp((Log(c) + i * j) % 255));
        } else {
          MulZero(Alpha(i * j));
          AddZero(s[i]);
        }
      }
      assert block[0..] == block;
      if s[i] != ZERO {
        nonzero := true;
      }
    }
  }

  lemma EvalEmpty(x: Gf) ensures Eval([], x) == ZERO {}

  /* ---------- Berlekamp-Massey ---------- */

  // The first k terms of sum c[i] * s[n-i].
  function Conv(c: seq<Gf>, s: seq<Gf>, n: nat, k: nat): Gf
    requires k <= n + 1 && k <= |c| && n < |s|
  {
    if k == 0 then ZERO else Add(Conv(c, s, n, k - 1), Mul(c[k - 1], s[n - (k - 1)]))
  }

  lemma ConvStep(c: seq<Gf>, s: seq<Gf>, n: nat, k: nat)
    requires k <= n < |s| && k < |c|
    ensures Conv(c, s, n, 0) == ZERO
    ensures Conv(c, s, n, k + 1) == Add(Conv(c, s, n, k), Mul(c[k], s[n - k]))
  {
  }

  // The discrepancy of the connection polynomial c at position n.
  function Disc(c: seq<Gf>, s: seq<Gf>, n: nat): Gf
    requires n < |c| && n < |s|
  {
    Conv(c, s, n, n + 1)
  }

  // c has constant term one, degree at most l, and predicts s[l..n].
  predicate Connects(c: seq<Gf>, s: seq<Gf>, l: nat, n: nat)
    requires |c| == |s| && n <= |s|
  {
    && c != [] && c[0] == ONE
    && (forall i :: l < i < |c| ==> c[i] == ZERO)
    && (forall k :: l <= k < n ==> Disc(c, s, k) == ZERO)
  }

  // What is kept of the polynomial in use before the last length change, at position q (-1 if there was none).
  predicate Backup(B: seq<Gf>, s: seq<Gf>, l: nat, q: int, b: Gf)
    requires |B| == |s| && -1 <= q < |s|
  {
    && b != ZERO
    && (forall i :: l < i < |B| ==> B[i] == ZERO)
    && (forall k :: l <= k < q ==> Disc(B, s, k) == ZERO)
    && (q >= 0 ==> Disc(B, s, q) == b)
  }

  lemma {:induction false} ConvBeyond(c: seq<Gf>, s: seq<Gf>, n: nat, l: nat, k: nat)
    requires l + 1 <= k <= n + 1 && k <= |c| && n < |s|
    requires forall i :: l < i < |c| ==> c[i] == ZERO
    ensures Conv(c, s, n, k) == Conv(c, s, n, l + 1)
  {
    hide Mul, Add;
    if k > l + 1 {
      ConvBeyond(c, s, n, l, k - 1);
      MulZero(s[n - (k - 1)]);
      AddZero(Conv(c, s, n, k - 1));
    }
  }

  // Adding t * z^m * B to c adds t times a shifted discrepancy.
  lemma {:induction false} ConvUpdate(c: seq<Gf>, c': seq<Gf>, B: seq<Gf>, s: seq<Gf>, t: Gf, m: nat, n: nat, k: nat)
    requires |c| == |c'| == |B| == |s| && n < |s| && k <= n + 1
    requires forall p :: 0 <= p < |c| ==> c'[p] == Add(c[p], AddedTerm(B, t, m, p))
    ensures Conv(c', s, n, k) ==
            Add(Conv(c, s, n, k), if k <= m then ZERO else Mul(t, Conv(B, s, n - m, k - m)))
  {
    hide Mul, Add;
    if k == 0 {
      AddZero(ZERO);
    } else {
      ConvUpdate(c, c', B, s, t, m, n, k - 1);
      var v := s[n - (k - 1)];
      MulAdd(c[k - 1], AddedTerm(B, t, m, k - 1), v);
      if k <= m {
        AddZero(c[k - 1]);
        AddZero(Conv(c, s, n, k - 1));
        AddZero(Conv(c, s, n, k));
      } else {
        var u := Conv(B, s, n - m, k - 1 - m);
        assert Conv(B, s, n - m, k - m) == Add(u, Mul(B[k - 1 - m], v));
        MulAdd(u, Mul(B[k - 1 - m], v), t);
        MulComm(B[k - 1 - m], t);
        MulAssoc(t, B[k - 1 - m], v);
        MulZero(t);
        var old_ := if k - 1 <= m then ZERO else Mul(t, u);
        assert old_ == Mul(t, u);
        AddSwap(Conv(c, s, n, k - 1), old_, Mul(c[k - 1], v), Mul(Mul(t, B[k - 1 - m]), v));
      }
    }
  }

  // The polynomial after a correction at position n predicts one symbol more.
  lemma UpdateConnects(c: seq<Gf>, c': seq<Gf>, B: seq<Gf>, s: seq<Gf>, d: Gf, b: Gf, t: Gf, m: nat, n: nat, l: nat, l': nat)
    requires |c| == |c'| == |B| == |s| && n < |s| && 1 <= m <= n + 1 && l <= n - m + 1
    requires Connects(c, s, l, n) && Disc(c, s, n) == d
    requires Backup(B, s, n - m + 1 - l, n - m, b) && Mul(t, b) == d
    requires forall p :: 0 <= p < |c| ==> c'[p] == Add(c[p], AddedTerm(B, t, m, p))
    requires l' >= l && l' >= n + 1 - l
    ensures Connects(c', s, l', n + 1)
  {
    hide Mul, Add;
    AddZero(c[0]);
    forall i | l' < i < |c'| ensures c'[i] == ZERO {
      AddZero(ZERO);
      MulZero(t);
    }
    forall k | l' <= k < n + 1 ensures Disc(c', s, k) == ZERO {
      ConvUpdate(c, c', B, s, t, m, k, k + 1);
      AddSelf(d);
      AddZero(ZERO);
      MulZero(t);
      if k == n {
        assert Disc(B, s, n - m) == b;
        assert Disc(c', s, n) == Add(d, Mul(t, b));
      } else {
        assert Disc(c, s, k) == ZERO;
        if k >= m {
          assert Disc(B, s, k - m) == ZERO;
          assert Disc(c', s, k) == Add(ZERO, Mul(t, ZERO));
        }
      }
    }
  }

  // After a length change the old polynomial becomes the backup.
  lemma ConnectsBackup(c: seq<Gf>, s: seq<Gf>, l: nat, n: nat)
    requires |c| == |s| && n < |s| && Connects(c, s, l, n) && Disc(c, s, n) != ZERO
    ensures Backup(c, s, l, n, Disc(c, s, n))
  {
  }

  lemma ConnectsMore(c: seq<Gf>, s: seq<Gf>, l: nat, n: nat)
    requires |c| == |s| && n < |s| && Connects(c, s, l, n) && Disc(c, s, n) == ZERO
    ensures Connects(c, s, l, n + 1)
  {
  }

  // The syndromes of a single error of value e at locator x.
  predicate Geometric(s: seq<Gf>, n: nat, e: Gf, x: Gf) {
    n <= |s| && forall k :: 0 <= k < n ==> s[k] == Mul(e, Pow(x, k))
  }

  lemma GeometricDisc(c: seq<Gf>, s: seq<Gf>, n: nat, e: Gf, x: Gf)
    requires 1 <= n < |s| && n < |c| && c[0] == ONE && (forall i :: 1 < i < |c| ==> c[i] == ZERO)
    requires Geometric(s, n + 1, e, x) && e != ZERO
    ensures Disc(c, s, n) == Add(s[n], Mul(c[1], s[n - 1]))
    ensures c[1] == x ==> Disc(c, s, n) == ZERO
    ensures n == 1 && Disc(c, s, 1) == ZERO ==> c[1] == x
  {
    hide Mul, Add, Pow;
    ConvBeyond(c, s, n, 1, n + 1);
    assert Conv(c, s, n, 1) == Add(Conv(c, s, n, 0), Mul(c[0], s[n]));
    assert Conv(c, s, n, 2) == Add(Conv(c, s, n, 1), Mul(c[1], s[n - 1]));
    assert Conv(c, s, n, 0) == ZERO;
    MulOne(s[n]);
    AddZero(s[n]);
    PowStep(x, n);
    MulAssoc(e, Pow(x, n - 1), x);
    MulComm(x, s[n - 1]);
    AddSelf(s[n]);
    AddZeroIsEqual(s[n], Mul(c[1], s[n - 1]));
    if n == 1 && Disc(c, s, 1) == ZERO {
      MulOne(e);
      MulComm(x, e);
      MulCancel(c[1], x, e);
    }
  }

  /** For every syndrome sequence, sigma is a connection polynomial of it: constant term one, degree at most l, and
      sum sigma[i] * s[k-i] vanishes for every k from l up to N. For the syndromes of one error it is 1 + x z. */
  method BerlekampMassey(s: array<Gf>, N: nat, sigma: array<Gf>, ghost e: Gf, ghost x: Gf) returns (ghost l: nat)
    requires s.Length == sigma.Length == MAX_POLY && N <= MAX_POLY && s != sigma
    modifies sigma
    ensures l <= N && Connects(sigma[..], s[..], l, N)
    ensures N >= 2 && e != ZERO && Geometric(s[..], N, e, x) ==> sigma[..] == [ONE, x] + Zeros(MAX_POLY - 2)
  {
    hide Mul, Add, Log, Exp, Pow, Connects, Backup, Disc, Conv, Geometric, AddedTerm;
    var C := new Gf[MAX_POLY](_ => ZERO);
    var B := new Gf[MAX_POLY](_ => ZERO);
    var L, m, b := 0, 1, ONE;
    B[0] := ONE;
    C[0] := ONE;
    ghost var syn := s[..];
    ghost var single := e != ZERO && Geometric(syn, N, e, x);
    InitialState(C[..], syn);
    assert B[..] == C[..];
    for n := 0 to N
      invariant s[..] == syn
      invariant 0 <= L <= n && 1 <= m <= n + 1 && L <= n - m + 1
      invariant Connects(C[..], syn, L, n)
      invariant Backup(B[..], syn, n - m + 1 - L, n - m, b)
      invariant single && n >= 1 ==> L == 1
    {
      ghost var c0 := C[..];
      ConnectsShape(c0, syn, L, n);
      var d := Discrepancy(C, s, n, L);
      var mult := Exp((255 - Log(b) + Log(d)) % 255);
      if single { SingleErrorStep(c0, syn, L, N, n, e, x); }
      if d == ZERO {
        ConnectsMore(c0, syn, L, n);
        m := m + 1;
      } else if L * 2 <= n {
        var T := new Gf[MAX_POLY](i requires 0 <= i < MAX_POLY reads C => C[i]);
        assert T[..] == c0;
        BackupNonZero(B[..], syn, n - m + 1 - L, n - m, b);
        TableDiv(d, b);
        PolyAdd(C, B, mult, m);
        ghost var c1 := C[..];
        UpdateConnects(c0, c1, B[..], syn, d, b, mult, m, n, L, n + 1 - L);
        ConnectsBackup(c0, syn, L, n);
        forall i | 0 <= i < MAX_POLY {
          B[i] := T[i];
        }
        assert B[..] == c0 && C[..] == c1;
        L := n + 1 - L;
        b := d;
        m := 1;
      } else {
        BackupNonZero(B[..], syn, n - m + 1 - L, n - m, b);
        TableDiv(d, b);
        PolyAdd(C, B, mult, m);
        UpdateConnects(c0, C[..], B[..], syn, d, b, mult, m, n, L, L);
        m := m + 1;
      }
    }
    ghost var c := C[..];
    forall i | 0 <= i < MAX_POLY {
      sigma[i] := C[i];
    }
    assert sigma[..] == c && s[..] == syn;
    l := L;
    if N >= 2 && single { SingleErrorLocator(c, syn, N, e, x); }
  }

  lemma InitialState(c: seq<Gf>, s: seq<Gf>)
    requires |c| == |s| == MAX_POLY && c[0] == ONE && forall i :: 0 < i < MAX_POLY ==> c[i] == ZERO
    ensures Connects(c, s, 0, 0) && Backup(c, s, 0, -1, ONE)
  {
  }

  lemma ConnectsShape(c: seq<Gf>, s: seq<Gf>, l: nat, n: nat)
    requires |c| == |s| && n <= |s| && Connects(c, s, l, n)
    ensures c[0] == ONE && forall i :: l < i < |c| ==> c[i] == ZERO
  {
  }

  lemma BackupNonZero(B: seq<Gf>, s: seq<Gf>, l: nat, q: int, b: Gf)
    requires |B| == |s| && -1 <= q < |s| && Backup(B, s, l, q, b)
    ensures b != ZERO
  {
  }

  // One error makes the register length one at the first syndrome and never changes it again.
  lemma SingleErrorStep(c: seq<Gf>, s: seq<Gf>, l: nat, N: nat, n: nat, e: Gf, x: Gf)
    requires |c| == |s| && n < N <= |s| && Connects(c, s, l, n)
    requires e != ZERO && Geometric(s, N, e, x) && (n >= 1 ==> l == 1)
    ensures n == 0 ==> Disc(c, s, 0) != ZERO
    ensures n >= 2 ==> Disc(c, s, n) == ZERO
  {
    hide Mul, Add, Pow, Conv;
    if n == 0 {
      GeometricFirst(c, s, e, x);
    } else if n >= 2 {
      GeometricDisc(c, s, 1, e, x);
      GeometricDisc(c, s, n, e, x);
    }
  }

  lemma SingleErrorLocator(c: seq<Gf>, s: seq<Gf>, N: nat, e: Gf, x: Gf)
    requires |c| == |s| && 2 <= N <= |s| && Connects(c, s, 1, N)
    requires e != ZERO && Geometric(s, N, e, x)
    ensures c == [ONE, x] + Zeros(|c| - 2)
  {
    hide Mul, Add, Pow, Conv;
    GeometricDisc(c, s, 1, e, x);
  }

  lemma GeometricFirst(c: seq<Gf>, s: seq<Gf>, e: Gf, x: Gf)
    requires |c| == |s| > 0 && c[0] == ONE && Geometric(s, 1, e, x) && e != ZERO
    ensures Disc(c, s, 0) != ZERO
  {
    hide Mul, Add;
    assert Conv(c, s, 0, 1) == Add(Conv(c, s, 0, 0), Mul(c[0], s[0]));
    MulOne(s[0]);
    MulOne(e);
    AddZero(s[0]);
  }

  method Discrepancy(C: array<Gf>, s: array<Gf>, n: nat, L: nat) returns (d: Gf)
    requires C.Length == s.Length == MAX_POLY && L <= n < MAX_POLY
    requires C[0] == ONE && forall i :: L < i < MAX_POLY ==> C[i] == ZERO
    ensures d == Disc(C[..], s[..], n)
  {
    hide Mul, Add, Log, Exp;
    d := s[n];
    MulOne(s[n]);
    AddZero(s[n]);
    assert Conv(C[..], s[..], n, 0) == ZERO;
    for i := 1 to L + 1
      invariant d == Conv(C[..], s[..], n, i)
    {
      if C[i] != ZERO && s[n - i] != ZERO {
        TableMul(C[i], s[n - i]);
        d := Add(d, Exp((Log(C[i]) + Log(s[n - i])) % 255));
      } else {
        MulZero(C[i]);
        MulZero(s[n - i]);
        AddZero(d);
      }
    }
    ConvBeyond(C[..], s[..], n, L, n + 1);
  }

  /* ---------- the error evaluator ---------- */

  // omega = sigma * (s[1] + s[2] z + ...), cut to npar coefficients
  method ElocPoly(omega: array<Gf>, s: array<Gf>, sigma: array<Gf>, npar: nat)
    requires omega.Length == s.Length == sigma.Length == MAX_POLY && npar < MAX_POLY
    requires omega != s && omega != sigma
    modifies omega
    ensures forall k :: 0 <= k < npar ==> omega[k] == Disc(sigma[..], s[1..], k)
    ensures forall k :: npar <= k < MAX_POLY ==> omega[k] == ZERO
  {
    hide Mul, Add, Log, Exp, Conv;
    ghost var c, t := sigma[..], s[1..];
    forall k | 0 <= k < npar ensures Conv(c, t, k, 0) == ZERO { ConvStep(c, t, k, 0); }
    forall i | 0 <= i < MAX_POLY {
      omega[i] := ZERO;
    }
    for i := 0 to npar
      invariant sigma[..] == c && s[1..] == t
      invariant forall k :: 0 <= k < npar ==> omega[k] == Conv(c, t, k, if k < i then k + 1 else i)
      invariant forall k :: npar <= k < MAX_POLY ==> omega[k] == ZERO
    {
      var a := sigma[i];
      if a == ZERO {
        forall k | i <= k < npar ensures Conv(c, t, k, i + 1) == Conv(c, t, k, i) {
          ConvStep(c, t, k, i);
          MulZero(t[k - i]);
          AddZero(Conv(c, t, k, i));
        }
        continue;
      }
      var j := 0;
      while j + 1 < MAX_POLY && i + j < npar
        invariant 0 <= j && i + j <= npar
        invariant sigma[..] == c && s[1..] == t
        invariant forall k :: 0 <= k < npar ==>
                    omega[k] == Conv(c, t, k, if k < i then k + 1 else if k < i + j then i + 1 else i)
        invariant forall k :: npar <= k < MAX_POLY ==> omega[k] == ZERO
      {
        var b := s[j + 1];
        assert t[j] == b;
        ConvStep(c, t, i + j, i);
        if b != ZERO {
          TableMul(a, b);
          omega[i + j] := Add(omega[i + j], Exp((Log(a) + Log(b)) % 255));
        } else {
          MulZero(a);
          AddZero(omega[i + j]);
        }
        j := j + 1;
      }
    }
  }

  /* ---------- repairing a block ---------- */

  // received and sent agree everywhere but perhaps at p.
  predicate OneOff(received: seq<Gf>, sent: seq<Gf>, p: nat) {
    && p < |received| == |sent|
    && forall i :: 0 <= i < |sent| && i != p ==> received[i] == sent[i]
  }

  lemma EvalOneOff(r: seq<Gf>, c: seq<Gf>, p: nat, x: Gf)
    requires OneOff(r, c, p)
    ensures Eval(r, x) == Add(Eval(c, x), Mul(Add(r[p], c[p]), Pow(x, |r| - 1 - p)))
  {
    hide Mul, Add, Pow, Eval;
    var w := Pow(x, |r| - 1 - p);
    var head, tail := r[..p], r[p + 1..];
    assert r == (head + [r[p]]) + tail && c == (head + [c[p]]) + tail;
    EvalAppend(head + [r[p]], tail, x);
    EvalAppend(head + [c[p]], tail, x);
    EvalStep(head, r[p], x);
    EvalStep(head, c[p], x);
    var h := Mul(Eval(head, x), x);
    MulAdd(h, r[p], w);
    MulAdd(h, c[p], w);
    MulAdd(r[p], c[p], w);
    OneOffSum(Mul(h, w), Mul(r[p], w), Mul(c[p], w), Eval(tail, x));
  }

  lemma OneOffSum(h: Gf, r: Gf, c: Gf, t: Gf)
    ensures Add(Add(h, r), t) == Add(Add(Add(h, c), t), Add(r, c))
  {
  }

  // One wrong symbol makes the syndromes geometric, with the locator naming its distance from the end.
  lemma SingleErrorSyndromes(r: seq<Gf>, c: seq<Gf>, p: nat, npar: nat, s: seq<Gf>)
    requires OneOff(r, c, p) && IsCodeword(c, npar) && npar <= |s|
    requires forall i :: 0 <= i < npar ==> s[i] == Eval(r, Alpha(i))
    ensures Geometric(s, npar, Add(r[p], c[p]), Alpha(|r| - 1 - p))
  {
    hide Mul, Add, Pow, Eval, Alpha;
    var e, d := Add(r[p], c[p]), |r| - 1 - p;
    forall i | 0 <= i < npar ensures s[i] == Mul(e, Pow(Alpha(d), i)) {
      EvalOneOff(r, c, p, Alpha(i));
      AddZero(Mul(e, Pow(Alpha(i), d)));
      PowAlpha(i, d);
      PowAlpha(d, i);
      assert i * d == d * i;
    }
  }

  // The evaluator polynomial of one error is the constant e * x.
  lemma SingleErrorOmega(omega: seq<Gf>, s: seq<Gf>, sigma: seq<Gf>, npar: nat, e: Gf, x: Gf)
    requires |omega| == |s| == |sigma| == MAX_POLY && 2 <= npar <= MAX_POLY && e != ZERO && x != ZERO
    requires Geometric(s, npar, e, x) && sigma == [ONE, x] + Zeros(MAX_POLY - 2)
    requires forall k :: 0 <= k < npar - 1 ==> omega[k] == Disc(sigma, s[1..], k)
    requires forall k :: npar - 1 <= k < MAX_POLY ==> omega[k] == ZERO
    ensures omega == [Mul(e, x)] + Zeros(MAX_POLY - 1)
  {
    hide Mul, Add, Conv;
    var t, e' := s[1..], Mul(e, x);
    forall k | 0 <= k < npar - 1 ensures t[k] == Mul(e', Pow(x, k)) {
      assert s[k + 1] == Mul(e, Mul(Pow(x, k), x));
      MulComm(Pow(x, k), x);
      MulAssoc(e, x, Pow(x, k));
    }
    MulNonZero(e, x);
    forall k | 1 <= k < MAX_POLY ensures omega[k] == ZERO {
      if k < npar - 1 { GeometricDisc(sigma, t, k, e', x); }
    }
    FirstDisc(sigma, t);
    assert t[0] == Mul(e', Pow(x, 0));
    MulOne(e');
  }

  lemma FirstDisc(c: seq<Gf>, t: seq<Gf>)
    requires c != [] && t != [] && c[0] == ONE
    ensures Disc(c, t, 0) == t[0]
  {
    hide Mul, Add;
    assert Conv(c, t, 0, 1) == Add(Conv(c, t, 0, 0), Mul(c[0], t[0]));
    MulOne(t[0]);
    AddZero(t[0]);
  }

  // The root search stops at the wrong symbol and nowhere else.
  lemma LocatorRoot(sigma: seq<Gf>, d: nat, i: nat)
    requires d < 255 && i < 255 && sigma == [ONE, Alpha(d)] + Zeros(MAX_POLY - 2)
    ensures EvalLow(sigma, Exp(255 - i), MAX_POLY) == ZERO <==> i == d
  {
    hide Mul, Add, Alpha, Exp;
    EvalLowLine(sigma, Exp(255 - i), MAX_POLY);
    ExpIsAlpha(255 - i);
    MulAlpha(d, 255 - i);
    AlphaZero();
    AddZeroIsEqual(ONE, Alpha(d + 255 - i));
    if i <= d {
      AlphaPeriod(d - i);
      if Alpha(d - i) == ONE { AlphaInjective(d - i, 0); }
    } else if Alpha(255 - (i - d)) == ONE {
      AlphaInjective(255 - (i - d), 0);
    }
  }

  lemma ErrorValue(deriv: seq<Gf>, omega: seq<Gf>, e: Gf, x: Gf, xinv: Gf)
    requires e != ZERO && x != ZERO
    requires deriv == [x] + Zeros(MAX_POLY - 1) && omega == [Mul(e, x)] + Zeros(MAX_POLY - 1)
    ensures EvalLow(deriv, xinv, MAX_POLY) == x && EvalLow(omega, xinv, MAX_POLY) == Mul(e, x)
    ensures Exp((255 - Log(x) + Log(Mul(e, x))) % 255) == e
  {
    hide Mul, Add, Exp, Log;
    EvalLowLine(deriv, xinv, MAX_POLY);
    EvalLowLine(omega, xinv, MAX_POLY);
    MulZero(xinv);
    AddZero(x);
    AddZero(Mul(e, x));
    MulNonZero(e, x);
    TableDiv(Mul(e, x), x);
    MulCancel(Exp((255 - Log(x) + Log(Mul(e, x))) % 255), e, x);
  }

  /** Whatever the block, success means a codeword; and a block that differs from a codeword in at most one symbol is
      turned back into that codeword, as soon as there are two parity symbols. */
  method CorrectBlock(data: array<Gf>, off: nat, bs: nat, dw: nat, ghost sent: seq<Gf>, ghost p: nat) returns (ok: bool)
    requires off + bs <= data.Length && dw <= bs <= 255 && bs - dw <= MAX_POLY
    modifies data
    ensures forall k :: 0 <= k < data.Length && !(off <= k < off + bs) ==> data[k] == old(data[k])
    ensures ok ==> IsCodeword(data[off..off + bs], bs - dw)
    ensures bs - dw >= 2 && IsCodeword(sent, bs - dw) && OneOff(old(data[off..off + bs]), sent, p)
            ==> ok && data[off..off + bs] == sent
  {
    hide Mul, Add, Log, Exp, Pow, Alpha, Eval, EvalLow, Disc, IsCodeword, Connects, Geometric, SingleErrorPolys;
    var npar := bs - dw;
    var s := new Gf[MAX_POLY];
    ghost var received := data[off..off + bs];
    ghost var repairable := npar >= 2 && IsCodeword(sent, npar) && OneOff(received, sent, p);
    var nonzero := BlockSyndromes(data, off, bs, npar, s);
    if !nonzero {
      if repairable { CodewordUnique(received, sent, p, npar); }
      return true;
    }
    NoParityIsCodeword(received);
    ghost var d := if repairable then bs - 1 - p else 0;
    ghost var e := if repairable then Add(received[p], sent[p]) else ZERO;
    if repairable {
      SingleErrorSyndromes(received, sent, p, npar, s[..]);
      AddZeroIsEqual(received[p], sent[p]);
      assert received[p] == sent[p] ==> received == sent;
    }
    var sigma, deriv, omega := ErrorPolys(s, npar, e, d);
    SearchErrors(data, off, bs, sigma, deriv, omega, if repairable then sent else [], p);
    nonzero := BlockSyndromes(data, off, bs, npar, s);
    ok := !nonzero;
  }

  // Locator, its derivative and the evaluator, from the syndromes.
  method ErrorPolys(s: array<Gf>, npar: nat, ghost e: Gf, ghost d: nat)
    returns (sigma: array<Gf>, deriv: array<Gf>, omega: array<Gf>)
    requires s.Length == MAX_POLY && 1 <= npar <= MAX_POLY
    ensures fresh(sigma) && fresh(deriv) && fresh(omega) && sigma.Length == deriv.Length == omega.Length == MAX_POLY
    ensures npar >= 2 && e != ZERO && Geometric(s[..], npar, e, Alpha(d)) ==>
      SingleErrorPolys(sigma[..], deriv[..], omega[..], d, e)
  {
    hide Mul, Add, Log, Exp, Pow, Alpha, Disc, Connects, Geometric;
    sigma := new Gf[MAX_POLY];
    deriv := new Gf[MAX_POLY];
    omega := new Gf[MAX_POLY];
    ghost var syn := s[..];
    ghost var l := BerlekampMassey(s, npar, sigma, e, Alpha(d));
    ghost var c := sigma[..];
    forall i | 0 <= i < MAX_POLY {
      deriv[i] := if i % 2 == 0 && i + 1 < MAX_POLY then sigma[i + 1] else ZERO;
    }
    ElocPoly(omega, s, sigma, npar - 1);
    assert s[..] == syn && s[1..] == syn[1..] && sigma[..] == c;
    if npar >= 2 && e != ZERO && Geometric(syn, npar, e, Alpha(d)) {
      AlphaNonZero(d);
      SingleErrorOmega(omega[..], syn, c, npar, e, Alpha(d));
      assert deriv[..] == [Alpha(d)] + Zeros(MAX_POLY - 1);
    }
  }

  lemma NoParityIsCodeword(c: seq<Gf>) ensures IsCodeword(c, 0) {}

  // The three polynomials of an error at distance d from the end that turned the symbol c into r.
  predicate SingleErrorPolys(sigma: seq<Gf>, deriv: seq<Gf>, omega: seq<Gf>, d: nat, e: Gf) {
    && sigma == [ONE, Alpha(d)] + Zeros(MAX_POLY - 2)
    && deriv == [Alpha(d)] + Zeros(MAX_POLY - 1)
    && omega == [Mul(e, Alpha(d))] + Zeros(MAX_POLY - 1)
  }

  // The search over all positions of a block for roots of the locator, patching the symbol at each.
  method SearchErrors(data: array<Gf>, off: nat, bs: nat, sigma: array<Gf>, deriv: array<Gf>, omega: array<Gf>,
                      ghost sent: seq<Gf>, ghost p: nat)
    requires off + bs <= data.Length && bs <= 255
    requires sigma.Length == deriv.Length == omega.Length == MAX_POLY
    requires data != sigma && data != deriv && data != omega
    modifies data
    ensures forall k :: 0 <= k < data.Length && !(off <= k < off + bs) ==> data[k] == old(data[k])
    ensures var received := old(data[off..off + bs]);
            OneOff(received, sent, p) && received[p] != sent[p] &&
            SingleErrorPolys(sigma[..], deriv[..], omega[..], bs - 1 - p, Add(received[p], sent[p]))
            ==> data[off..off + bs] == sent
  {
    hide Mul, Add, Log, Exp, Pow, Alpha, Eval, EvalLow;
    ghost var received := data[off..off + bs];
    ghost var single := OneOff(received, sent, p) && received[p] != sent[p] &&
      SingleErrorPolys(sigma[..], deriv[..], omega[..], bs - 1 - p, Add(received[p], sent[p]));
    ghost var d := if single then bs - 1 - p else 0;
    ghost var e := if single then Add(received[p], sent[p]) else ZERO;
    ghost var g, h, o := sigma[..], deriv[..], omega[..];
    for i := 0 to bs
      invariant sigma[..] == g && deriv[..] == h && omega[..] == o
      invariant forall k :: 0 <= k < data.Length && !(off <= k < off + bs) ==> data[k] == old(data[k])
      invariant single ==> data[off..off + bs] == if i <= d then received else sent
    {
      var xinv := Exp(255 - i);
      var root := PolyEval(sigma, xinv);
      if single { LocatorRoot(g, d, i); }
      if root == ZERO {
        var sdx := PolyEval(deriv, xinv);
        var omegax := PolyEval(omega, xinv);
        var error := Exp((255 - Log(sdx) + Log(omegax)) % 255);
        if single {
          AddZeroIsEqual(received[p], sent[p]);
          AlphaNonZero(d);
          ErrorValue(h, o, e, Alpha(d), xinv);
          RepairSymbol(received[p], sent[p]);
          assert data[off + bs - i - 1] == data[off..off + bs][p];
        }
        data[off + bs - i - 1] := Add(data[off + bs - i - 1], error);
        assert single ==> data[off..off + bs] == sent;
      }
    }
  }

  lemma RepairSymbol(r: Gf, c: Gf) ensures Add(r, Add(r, c)) == c {}

  // Codewords with two parity symbols never differ in just one place.
  lemma CodewordUnique(r: seq<Gf>, c: seq<Gf>, p: nat, npar: nat)
    requires npar >= 1 && IsCodeword(r, npar) && IsCodeword(c, npar) && OneOff(r, c, p)
    ensures r == c
  {
    hide Mul, Add, Pow, Eval, Alpha;
    var e, d := Add(r[p], c[p]), |r| - 1 - p;
    assert Eval(r, Alpha(0)) == ZERO && Eval(c, Alpha(0)) == ZERO;
    EvalOneOff(r, c, p, Alpha(0));
    PowAlpha(0, d);
    AlphaZero();
    MulOne(e);
    AddZero(e);
    AddZeroIsEqual(r[p], c[p]);
  }
}
