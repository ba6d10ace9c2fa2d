/** Arithmetic modulo the order L of the curve's base point: Barrett reduction, Montgomery reduction and the inversion
    loop, on arrays of 32-bit words. */
module ScalarModL {
  import opened Arithmetic
  import opened Bytes
  import opened Words32

  const ELL := 0x10000000_00000000_00000000_00000000_14def9de_a2f79cd6_5812631a_5cf5d3ed
  const R256 := 0x1_00000000_00000000_00000000_00000000_00000000_00000000_00000000_00000000

  const L_WORDS: seq<int> := [
    0x5cf5d3ed, 0x5812631a, 0xa2f79cd6, 0x14def9de, 0x00000000, 0x00000000, 0x00000000, 0x10000000]

  // floor(2^512 / L)
  const BARRETT: seq<int> := [
    0x0a2c131b, 0xed9ce5a3, 0x086329a7, 0x2106215d, 0xffffffeb, 0xffffffff, 0xffffffff, 0xffffffff, 0xf]
  const BARRETT_NUM := 0xf_ffffffff_ffffffff_ffffffff_ffffffeb_2106215d_086329a7_ed9ce5a3_0a2c131b

  /* ---------- constants ---------- */

  lemma NumPair(w: seq<int>, a: seq<int>, b: seq<int>)
    requires w == a + b
    ensures Num(w) == Num(a) + PowB(|a|) * Num(b)
  {
    NumAppend(a, b);
  }

  lemma Num4(a: int, b: int, c: int, d: int)
    ensures Num([a, b, c, d]) == a + b * B + c * (B * B) + d * (B * B * B)
    ensures PowB(4) == B * B * B * B
  {
    hide Num, PowB;
    NumEmpty([], []);
    PowBStep(0);
    PowBStep(1);
    PowBStep(2);
    PowBStep(3);
    NumSnoc([], a);
    NumSnoc([a], b);
    NumSnoc([a, b], c);
    NumSnoc([a, b, c], d);
    assert [] + [a] == [a] && [a] + [b] == [a, b] && [a, b] + [c] == [a, b, c] && [a, b, c] + [d] == [a, b, c, d];
  }

  lemma TimesPow8(k: int)
    ensures k * PowB(8) == k * R256
  {
    Powers();
  }

  lemma Powers()
    ensures PowB(8) == R256 && PowB(16) == R256 * R256
  {
    Num4(0, 0, 0, 0);
    PowBAdd(4, 4);
    PowBAdd(8, 8);
  }

  lemma LValue()
    ensures |L_WORDS| == 8 && IsWords(L_WORDS) && Num(L_WORDS) == ELL
  {
    var a, b := [0x5cf5d3ed, 0x5812631a, 0xa2f79cd6, 0x14def9de], [0x00000000, 0x00000000, 0x00000000, 0x10000000];
    NumPair(L_WORDS, a, b);
    Num4(0x5cf5d3ed, 0x5812631a, 0xa2f79cd6, 0x14def9de);
    Num4(0x00000000, 0x00000000, 0x00000000, 0x10000000);
  }

  lemma BarrettValue()
    ensures |BARRETT| == 9 && IsWords(BARRETT) && Num(BARRETT) == BARRETT_NUM
    ensures BARRETT_NUM * ELL <= R256 * R256 < BARRETT_NUM * ELL + ELL
  {
    var a, b := [0x0a2c131b, 0xed9ce5a3, 0x086329a7, 0x2106215d], [0xffffffeb, 0xffffffff, 0xffffffff, 0xffffffff];
    assert BARRETT == (a + b) + [0xf];
    NumSnoc(a + b, 0xf);
    NumPair(a + b, a, b);
    Num4(0x0a2c131b, 0xed9ce5a3, 0x086329a7, 0x2106215d);
    Num4(0xffffffeb, 0xffffffff, 0xffffffff, 0xffffffff);
    Powers();
  }

  /* ---------- conditional subtraction ---------- */

  // 1 if x >= L, by the carry of x + ~L + 1
  method IsAboveL(x: seq<int>) returns (above: int)
    requires |x| == 8 && IsWords(x)
    ensures above == if Num(x) >= ELL then 1 else 0
  {
    hide Num, PowB;
    LValue();
    NumComplement(L_WORDS);
    Powers();
    var out, carry := AddCarry(x, Complement(L_WORDS), 1);
    NumBound(out);
    NumBound(x);
    above := carry;
  }

  method RemoveL(x: seq<int>) returns (r: seq<int>)
    requires |x| == 8 && IsWords(x)
    ensures |r| == 8 && IsWords(r) && Num(r) == if Num(x) >= ELL then Num(x) - ELL else Num(x)
  {
    hide Num, PowB;
    LValue();
    NumComplement(L_WORDS);
    Powers();
    var above := IsAboveL(x);
    var masked := if above == 1 then Complement(L_WORDS) else [0, 0, 0, 0, 0, 0, 0, 0];
    if above == 0 { NumZeros(masked); }
    var carry;
    r, carry := AddCarry(x, masked, above);
    NumBound(r);
    NumBound(x);
  }

  /* ---------- product modulo 2^256 ---------- */

  // p[..8] = a * b modulo 2^256; p[..8] is zero before, and the rows are cut at eight words
  method MulLow(p: array<int>, a: seq<int>, b: seq<int>) returns (ghost q: int)
    requires p.Length >= 8 && |a| == |b| == 8 && IsWords(p[..]) && IsWords(a) && IsWords(b)
    requires forall i :: 0 <= i < 8 ==> p[i] == 0
    modifies p
    ensures IsWords(p[..]) && p[8..] == old(p[8..])
    ensures Num(p[..8]) + q * PowB(8) == Num(a) * Num(b)
  {
    hide Num, PowB;
    q := 0;
    NumZeros(p[..8]);
    NumEmpty(a[..0], a[..0]);
    for i := 0 to 8
      invariant IsWords(p[..]) && p[8..] == old(p[8..])
      invariant Num(p[..8]) + q * PowB(8) == Num(a[..i]) * Num(b)
    {
      ghost var low, mid := p[..i], p[i..8];
      assert p[..8] == low + mid;
      var carry := MulAddRow(p, i, a[i], b, 8 - i);
      assert i + (8 - i) == 8;
      ghost var mid' := p[i..8];
      assert p[..8] == low + mid';
      assert a[..i + 1] == a[..i] + [a[i]] && b == b[..8 - i] + b[8 - i..];
      LowRow(low, mid, mid', carry, a[..i], a[i], b[..8 - i], b[8 - i..], b, q, q + carry + a[i] * Num(b[8 - i..]));
      q := q + carry + a[i] * Num(b[8 - i..]);
    }
    assert a[..8] == a;
  }

  lemma LowRow(low: seq<int>, mid: seq<int>, mid': seq<int>, carry: int, as_: seq<int>, a: int,
               bl: seq<int>, bh: seq<int>, b: seq<int>, q: int, q': int)
    requires q' == q + carry + a * Num(bh)
    requires |low| == |as_| && |mid| == |mid'| == |bl| && |low| + |mid| == 8 && b == bl + bh
    requires Num(mid') + carry * PowB(|mid|) == Num(mid) + a * Num(bl)
    requires Num(low + mid) + q * PowB(8) == Num(as_) * Num(b)
    ensures Num(low + mid') + q' * PowB(8) == Num(as_ + [a]) * Num(b)
  {
    hide Num, PowB;
    var x, z, xz := PowB(|low|), PowB(|mid|), PowB(8);
    var nl, nm, nm', na, nbl, nbh, nb := Num(low), Num(mid), Num(mid'), Num(as_), Num(bl), Num(bh), Num(b);
    var lm, lm', na' := Num(low + mid), Num(low + mid'), Num(as_ + [a]);
    assert xz == x * z by { PowBAdd(|low|, |mid|); }
    assert nb == nbl + z * nbh by { NumAppend(bl, bh); }
    assert lm == nl + x * nm by { NumAppend(low, mid); }
    assert lm' == nl + x * nm' by { NumAppend(low, mid'); }
    assert na' == na + x * a by { NumSnoc(as_, a); }
    LowArith(x, z, xz, nl, nm, nm', carry, na, a, nbl, nbh, nb, q, lm, lm', na', q');
  }

  lemma LowArith(x: int, z: int, xz: int, low: int, mid: int, mid': int, carry: int, na: int, a: int, bl: int, bh: int, b: int,
                 q: int, lm: int, lm': int, na': int, q': int)
    requires q' == q + carry + a * bh
    requires xz == x * z && b == bl + z * bh && mid' + carry * z == mid + a * bl && lm + q * xz == na * b
    requires lm == low + x * mid && lm' == low + x * mid' && na' == na + x * a
    ensures lm' + q' * xz == na' * b
  {
    calc {
      lm' + q' * xz;
      low + x * mid' + (q + carry + a * bh) * xz;
      low + x * mid' + q * xz + carry * xz + a * bh * xz;
      { assert carry * xz == x * (carry * z); assert a * bh * xz == x * (a * (z * bh)); }
      low + x * (mid' + carry * z) + q * xz + x * (a * (z * bh));
      low + x * (mid + a * bl) + q * xz + x * (a * (z * bh));
      (low + x * mid + q * xz) + x * (a * bl) + x * (a * (z * bh));
      na * b + x * (a * (bl + z * bh));
      na * b + (x * a) * b;
      (na + x * a) * b;
      na' * b;
    }
  }

  /* ---------- Barrett reduction ---------- */

  // The estimated quotient is at most one too small: 0 <= x - q L < 2 L.
  lemma BarrettBound(x: int, q: int, f: int)
    requires 0 <= x < R256 * R256 && x * BARRETT_NUM == q * (R256 * R256) + f && 0 <= f < R256 * R256
    ensures 0 <= x - q * ELL < 2 * ELL
  {
    BarrettValue();
    var N, rem := R256 * R256, R256 * R256 - BARRETT_NUM * ELL;
    var d := x - q * ELL;
    assert d * N == ELL * f + x * rem by { BarrettArith(x, q, f, N, BARRETT_NUM, ELL, rem); }
    MulBound(x, rem, N - 1, ELL - 1);
    assert 0 <= d * N < 2 * ELL * N;
    SignFromProduct(d, N, 2 * ELL);
  }

  lemma BarrettArith(x: int, q: int, f: int, N: int, r: int, l: int, rem: int)
    requires N == r * l + rem && x * r == q * N + f
    ensures (x - q * l) * N == l * f + x * rem
  {
    calc {
      (x - q * l) * N;
      x * N - q * l * N;
      { assert x * N == x * (r * l + rem); }
      (x * r) * l + x * rem - q * l * N;
      (q * N + f) * l + x * rem - q * l * N;
      l * f + x * rem;
    }
  }

  lemma SignFromProduct(d: int, n: int, bound: int)
    requires n > 0 && 0 <= d * n < bound * n
    ensures 0 <= d < bound
  {
    if d < 0 { MulMono(n, d, -1); }
    if d >= bound { MulMono(n, bound, d); }
  }

  // xr = x * r, the product with the Barrett constant
  method BarrettProduct(xr: array<int>, x: seq<int>)
    requires xr.Length == 25 && |x| == 16 && IsWords(x) && forall i :: 0 <= i < 25 ==> xr[i] == 0
    modifies xr
    ensures IsWords(xr[..]) && Num(xr[..]) == Num(BARRETT) * Num(x)
  {
    hide Num, PowB;
    BarrettValue();
    NumZeros(xr[..16]);
    NumEmpty(x[..0], x[..0]);
    assert BARRETT[..0] == [];
    for i := 0 to 9
      invariant IsWords(xr[..])
      invariant Num(xr[..i + 16]) == Num(BARRETT[..i]) * Num(x) + 0
    {
      ghost var low, mid := xr[..i], xr[i..i + 16];
      assert xr[..i + 16] == low + mid;
      var carry := MulAddRow(xr, i, BARRETT[i], x, 16);
      ghost var mid' := xr[i..i + 16];
      xr[i + 16] := carry;
      assert xr[..i + 17] == (low + mid') + [carry] by { assert xr[..i] == low; assert xr[i..i + 16] == mid'; }
      assert x[..16] == x && BARRETT[..i + 1] == BARRETT[..i] + [BARRETT[i]];
      ProductRow(low, mid, mid', carry, BARRETT[..i], BARRETT[i], Num(x), 0);
    }
    assert xr[..25] == xr[..] && BARRETT[..9] == BARRETT;
  }

  // x modulo L, for every x below 2^512
  method ModL(x: seq<int>) returns (reduced: seq<int>)
    requires |x| == 16 && IsWords(x)
    ensures |reduced| == 8 && IsWords(reduced) && Num(reduced) == Num(x) % ELL
  {
    hide Num, PowB;
    var xr := new int[25](_ => 0);
    BarrettProduct(xr, x);
    ghost var product := xr[..];
    LValue();
    forall i | 0 <= i < 8 {
      xr[i] := 0;
    }
    var quotient := xr[16..24];
    assert quotient == product[16..24] && xr[8..] == product[8..];
    assert IsWords(xr[..]);
    ghost var q2 := MulLow(xr, quotient, L_WORDS);
    var low := xr[..8];
    var out, carry := AddCarry(x[..8], Complement(low), 1);
    NumComplement(low);
    BarrettResult(x, product, low, out, carry, q2);
    reduced := RemoveL(out);
    ReduceOnce(Num(x), Num(product[16..]), Num(out));
  }

  // The eight words computed are x - q L.
  lemma BarrettResult(x: seq<int>, product: seq<int>, low: seq<int>, out: seq<int>, carry: int, q2: int)
    requires |x| == 16 && IsWords(x) && |product| == 25 && IsWords(product) && Num(product) == Num(BARRETT) * Num(x)
    requires |low| == 8 && IsWords(low) && Num(low) + q2 * PowB(8) == Num(product[16..24]) * ELL
    requires |out| == 8 && IsWords(out) && Num(out) + carry * PowB(8) == Num(x[..8]) + (PowB(8) - 1 - Num(low)) + 1
    ensures Num(out) == Num(x) - Num(product[16..]) * ELL && 0 <= Num(out) < 2 * ELL
  {
    hide Num, PowB;
    var q, ql, qh := Num(product[16..]), Num(product[16..24]), product[24];
    QuotientEstimate(x, product);
    Halves(x);
    QuotientHalves(product);
    NumBound(out);
    Powers();
    TimesPow8(q2);
    TimesPow8(carry);
    OutArith(Num(out), carry, Num(x[..8]), Num(x[8..]), Num(low), q2, ql, qh, Num(x), q);
  }

  lemma Halves(x: seq<int>)
    requires |x| == 16
    ensures Num(x) == Num(x[..8]) + R256 * Num(x[8..])
  {
    hide Num, PowB;
    assert x == x[..8] + x[8..];
    NumAppend(x[..8], x[8..]);
    TimesPow8(Num(x[8..]));
  }

  lemma QuotientHalves(product: seq<int>)
    requires |product| == 25
    ensures Num(product[16..]) == Num(product[16..24]) + R256 * product[24]
  {
    hide Num, PowB;
    assert product[16..] == product[16..24] + [product[24]];
    NumSnoc(product[16..24], product[24]);
    TimesPow8(product[24]);
  }

  lemma QuotientEstimate(x: seq<int>, product: seq<int>)
    requires |x| == 16 && IsWords(x) && |product| == 25 && IsWords(product) && Num(product) == Num(BARRETT) * Num(x)
    ensures 0 <= Num(x) - Num(product[16..]) * ELL < 2 * ELL
  {
    hide Num, PowB;
    Powers();
    BarrettValue();
    NumBound(x);
    NumBound(product[..16]);
    assert product == product[..16] + product[16..];
    NumAppend(product[..16], product[16..]);
    BarrettBound(Num(x), Num(product[16..]), Num(product[..16]));
  }

  lemma OutArith(out: int, carry: int, xl: int, xh: int, low: int, q2: int, ql: int, qh: int, x: int, q: int)
    requires x == xl + R256 * xh && q == ql + R256 * qh && low + q2 * R256 == ql * ELL
    requires out + carry * R256 == xl + (R256 - 1 - low) + 1 && 0 <= out < R256
    requires 0 <= x - q * ELL < 2 * ELL
    ensures out == x - q * ELL
  {
    var k := 1 - carry + q2 - xh + qh * ELL;
    assert out == (x - q * ELL) + R256 * k;
    if k >= 1 { MulMono(R256, 1, k); } else if k <= -1 { MulMono(R256, k, -1); }
  }

  lemma ReduceOnce(x: int, q: int, d: int)
    requires d == x - q * ELL && 0 <= d < 2 * ELL
    ensures x % ELL == if d >= ELL then d - ELL else d
  {
    if d >= ELL { DivModUnique(x, ELL, q + 1, d - ELL); } else { DivModUnique(x, ELL, q, d); }
  }

  // (a * b + c) modulo L
  method MulAdd(a: seq<int>, b: seq<int>, c: seq<int>) returns (r: seq<int>)
    requires |a| == |b| == |c| == 8 && IsWords(a) && IsWords(b) && IsWords(c)
    ensures |r| == 8 && IsWords(r) && Num(r) == (Num(a) * Num(b) + Num(c)) % ELL
  {
    hide Num, PowB;
    var p := new int[16](i => if 0 <= i < 8 then c[i] else 0);
    assert p[..8] == c;
    Multiply(p, a, b);
    r := ModL(p[..]);
  }

  method EddsaMulAdd(a: seq<byte>, b: seq<byte>, c: seq<byte>) returns (r: seq<byte>)
    requires |a| == |b| == |c| == 32
    ensures |r| == 32 && Le(r) == (Le(a) * Le(b) + Le(c)) % ELL
  {
    hide Num, PowB, Le, Pow256;
    LoadIsNum(a);
    LoadIsNum(b);
    LoadIsNum(c);
    var w := MulAdd(LoadWords(a), LoadWords(b), LoadWords(c));
    StoreIsNum(w);
    r := StoreWords(w);
  }

  /* ---------- Montgomery reduction ---------- */

  // -1/L modulo 2^256
  const MONT_K: seq<int> := [
    0x12547e1b, 0xd2b51da3, 0xfdba84ff, 0xb1a206f2, 0xffa36bea, 0x14e75438, 0x6fe91836, 0x9db6c6f2]
  const MONT_NUM := 0x9db6c6f2_6fe91836_14e75438_ffa36bea_b1a206f2_fdba84ff_d2b51da3_12547e1b

  // (k L + 1) / 2^256, and 1 / 2^256 modulo L
  const MONT_Q := (MONT_NUM * ELL + 1) / R256
  const R_INVERSE := 0x9db6c6f_26fe9183_614e7543_8ffa36be_b7f5c66a_973f754c_c766cca4_3d5f0d24

  lemma MontValue()
    ensures |MONT_K| == 8 && IsWords(MONT_K) && Num(MONT_K) == MONT_NUM
    ensures MONT_NUM * ELL + 1 == R256 * MONT_Q
  {
    var a, b := [0x12547e1b, 0xd2b51da3, 0xfdba84ff, 0xb1a206f2], [0xffa36bea, 0x14e75438, 0x6fe91836, 0x9db6c6f2];
    NumPair(MONT_K, a, b);
    Num4(0x12547e1b, 0xd2b51da3, 0xfdba84ff, 0xb1a206f2);
    Num4(0xffa36bea, 0x14e75438, 0x6fe91836, 0x9db6c6f2);
  }

  // x / 2^256 modulo L, for every x below L * 2^256
  method Redc(x: seq<int>) returns (u: seq<int>)
    requires |x| == 16 && IsWords(x) && Num(x) < ELL * R256
    ensures |u| == 8 && IsWords(u) && 0 <= Num(u) < ELL && (Num(u) * R256) % ELL == Num(x) % ELL
  {
    hide Num, PowB;
    MontValue();
    LValue();
    var s := new int[8](_ => 0);
    ghost var q := MulLow(s, x[..8], MONT_K);
    assert s[..8] == s[..];
    var t := new int[16](_ => 0);
    NumZeros(t[..8]);
    Multiply(t, s[..], L_WORDS);
    var sum, carry := AddCarry(t[..], x, 0);
    var high := sum[8..];
    RedcExact(x, s[..], q, sum, carry);
    u := RemoveL(high);
    RedcCongruent(Num(x), Num(s[..]), Num(high), Num(u));
  }

  // x + s L is a multiple of 2^256 below 2 L * 2^256, so nothing is lost.
  lemma RedcExact(x: seq<int>, s: seq<int>, q: int, sum: seq<int>, carry: int)
    requires |x| == 16 && IsWords(x) && Num(x) < ELL * R256 && |s| == 8 && IsWords(s)
    requires Num(s) + q * PowB(8) == Num(x[..8]) * MONT_NUM
    requires |sum| == 16 && IsWords(sum) && 0 <= carry <= 1 && Num(sum) + carry * PowB(16) == Num(s) * ELL + Num(x) + 0
    ensures Num(sum[8..]) * R256 == Num(s) * ELL + Num(x) && 0 <= Num(sum[8..]) < 2 * ELL
  {
    hide Num, PowB;
    MontValue();
    Halves(x);
    Halves(sum);
    NumBound(x);
    NumBound(sum);
    NumBound(sum[..8]);
    NumBound(s);
    Powers();
    TimesPow8(q);
    RedcHalves(Num(x), Num(x[..8]), Num(x[8..]), Num(s), q, Num(sum), Num(sum[..8]), Num(sum[8..]), carry);
  }

  lemma RedcHalves(x: int, xl: int, xh: int, s: int, q: int, sum: int, lo: int, hi: int, carry: int)
    requires 0 <= x < ELL * R256 && x == xl + R256 * xh && 0 <= s < R256 && s + q * R256 == xl * MONT_NUM
    requires sum == lo + R256 * hi && 0 <= lo < R256 && 0 <= sum && 0 <= carry <= 1
    requires sum + carry * (R256 * R256) == s * ELL + x && MONT_NUM * ELL + 1 == R256 * MONT_Q
    ensures hi * R256 == s * ELL + x && 0 <= hi < 2 * ELL
  {
    var total, m := s * ELL + x, xl * MONT_Q - q * ELL + xh;
    assert 0 <= total < 2 * ELL * R256;
    assert carry == 0;
    RedcArith(s, q, xl, xh);
    DivModUnique(total, R256, m, 0);
    DivModUnique(total, R256, hi, lo);
    SignFromProduct(hi, R256, 2 * ELL);
  }

  lemma RedcArith(s: int, q: int, xl: int, xh: int)
    requires s + q * R256 == xl * MONT_NUM && MONT_NUM * ELL + 1 == R256 * MONT_Q
    ensures s * ELL + (xl + R256 * xh) == R256 * (xl * MONT_Q - q * ELL + xh)
  {
    hide *;
    calc {
      s * ELL + (xl + R256 * xh);
      (xl * MONT_NUM - q * R256) * ELL + xl + R256 * xh;
      xl * (MONT_NUM * ELL + 1) - R256 * (q * ELL) + R256 * xh;
      xl * (R256 * MONT_Q) - R256 * (q * ELL) + R256 * xh;
      R256 * (xl * MONT_Q - q * ELL + xh);
    }
  }

  lemma RedcCongruent(x: int, s: int, hi: int, u: int)
    requires hi * R256 == s * ELL + x && (u == hi || u == hi - ELL)
    ensures (u * R256) % ELL == x % ELL
  {
    if u == hi {
      ModShift(x, s, ELL);
    } else {
      assert u * R256 == x + ELL * (s - R256);
      ModShift(x, s - R256, ELL);
    }
  }

  /* ---------- inversion ---------- */

  // 2^256 modulo L: one in Montgomery form
  const MONT_ONE: seq<int> := [
    0x8d98951d, 0xd6ec3174, 0x737dcf70, 0xc6ef5bf4, 0xfffffffe, 0xffffffff, 0xffffffff, 0x0fffffff]

  // L - 2, four bytes at a time
  const LM2_LOW: seq<byte> :=
    [0xeb, 0xd3, 0xf5, 0x5c] + [0x1a, 0x63, 0x12, 0x58] + [0xd6, 0x9c, 0xf7, 0xa2] + [0xde, 0xf9, 0xde, 0x14]
  const LM2_HIGH: seq<byte> :=
    [0x00, 0x00, 0x00, 0x00] + [0x00, 0x00, 0x00, 0x00] + [0x00, 0x00, 0x00, 0x00] + [0x00, 0x00, 0x00, 0x10]
  const LM2: seq<byte> := LM2_LOW + LM2_HIGH

  lemma OneValue()
    ensures |MONT_ONE| == 8 && IsWords(MONT_ONE) && 0 <= Num(MONT_ONE) < ELL && Num(MONT_ONE) == R256 % ELL
  {
    var a, b := [0x8d98951d, 0xd6ec3174, 0x737dcf70, 0xc6ef5bf4], [0xfffffffe, 0xffffffff, 0xffffffff, 0x0fffffff];
    NumPair(MONT_ONE, a, b);
    Num4(0x8d98951d, 0xd6ec3174, 0x737dcf70, 0xc6ef5bf4);
    Num4(0xfffffffe, 0xffffffff, 0xffffffff, 0x0fffffff);
  }

  lemma Le16(a: seq<byte>, b: seq<byte>, c: seq<byte>, d: seq<byte>)
    requires |a| == |b| == |c| == |d| == 4
    ensures Le(a + b + c + d) == Load32(a) + B * Load32(b) + (B * B) * Load32(c) + (B * B * B) * Load32(d)
    ensures Pow256(16) == B * B * B * B
  {
    hide Le, Load32, Pow256;
    LeLoad32(a);
    LeLoad32(b);
    LeLoad32(c);
    LeLoad32(d);
    LeAppend(a, b);
    LeAppend(a + b, c);
    LeAppend(a + b + c, d);
    Pow256Add(4, 4);
    Pow256Add(8, 4);
    Pow256Add(12, 4);
  }

  lemma Lm2Value()
    ensures |LM2| == 32 && Le(LM2) == ELL - 2
  {
    hide Le, Pow256;
    Le16([0xeb, 0xd3, 0xf5, 0x5c], [0x1a, 0x63, 0x12, 0x58], [0xd6, 0x9c, 0xf7, 0xa2], [0xde, 0xf9, 0xde, 0x14]);
    Le16([0x00, 0x00, 0x00, 0x00], [0x00, 0x00, 0x00, 0x00], [0x00, 0x00, 0x00, 0x00], [0x00, 0x00, 0x00, 0x10]);
    LeAppend(LM2_LOW, LM2_HIGH);
  }

  // 2^256 can be cancelled modulo L.
  lemma CancelR(u: int, v: int)
    requires (u * R256) % ELL == (v * R256) % ELL
    ensures u % ELL == v % ELL
  {
    ModMul(u * R256, v * R256, R_INVERSE, R_INVERSE, ELL);
    RInverse(u);
    RInverse(v);
  }

  lemma RInverse(u: int)
    ensures (u * R256 * R_INVERSE) % ELL == u % ELL
  {
    var k := R256 * R_INVERSE / ELL;
    assert R256 * R_INVERSE == 1 + ELL * k;
    assert u * R256 * R_INVERSE == u + ELL * (k * u) by {
      MulAssoc(u, R256, R_INVERSE);
      RInverseArith(u, ELL, k);
    }
    ModShift(u, k * u, ELL);
  }

  lemma RInverseArith(u: int, l: int, k: int) ensures u * (1 + l * k) == u + l * (k * u) {}

  // What one multiplication in Montgomery form does: m = a R and n = b R give u = a b R.
  lemma MontProduct(m: int, n: int, u: int, a: int, b: int)
    requires m % ELL == (a * R256) % ELL && n % ELL == (b * R256) % ELL && (u * R256) % ELL == (m * n) % ELL
    ensures u % ELL == (a * b * R256) % ELL
  {
    ModMul(m, a * R256, n, b * R256, ELL);
    assert (a * R256) * (b * R256) == (a * b * R256) * R256 by { MontArith(a, b, R256); }
    CancelR(u, a * b * R256);
  }

  lemma MontArith(a: int, b: int, r: int) ensures (a * r) * (b * r) == (a * b * r) * r {}

  // The product of two reduced numbers is small enough for the reduction.
  lemma ProductBelow(m: int, n: int)
    requires 0 <= m < ELL && 0 <= n < ELL
    ensures m * n < ELL * R256
  {
    MulBound(m, n, ELL - 1, ELL - 1);
  }

  method MontMul(a: seq<int>, b: seq<int>) returns (u: seq<int>)
    requires |a| == |b| == 8 && IsWords(a) && IsWords(b) && 0 <= Num(a) < ELL && 0 <= Num(b) < ELL
    ensures |u| == 8 && IsWords(u) && 0 <= Num(u) < ELL && (Num(u) * R256) % ELL == (Num(a) * Num(b)) % ELL
  {
    hide Num, PowB;
    var product := new int[16](_ => 0);
    NumZeros(product[..8]);
    Multiply(product, a, b);
    ProductBelow(Num(a), Num(b));
    u := Redc(product[..]);
  }

  // crypto_eddsa_trim_scalar
  function Trim(s: seq<byte>): (t: seq<byte>)
    requires |s| == 32
    ensures |t| == 32
  {
    s[0 := s[0] / 8 * 8][31 := s[31] % 64 + 64]
  }

  // Exponent bits, most significant first: e' = 2 e + bit.
  lemma ExponentStep(i: nat)
    requires i < 256
    ensures (ELL - 2) / Pow2(i) == 2 * ((ELL - 2) / Pow2(i + 1)) + ScalarBit(LM2, i)
  {
    hide Pow2, Le, ScalarBit;
    Lm2Value();
    BitOfNumber(LM2, i);
    Pow2Add(i, 1);
    PowersOfTwo();
    DivDiv(ELL - 2, Pow2(i), 2);
  }

  lemma TopIsZero()
    ensures (ELL - 2) / Pow2(253) == 0 && (ELL - 2) / Pow2(0) == ELL - 2
  {
    hide Pow2, Pow256;
    Le16([0, 0, 0, 0], [0, 0, 0, 0], [0, 0, 0, 0], [0, 0, 0, 0]);
    Pow256IsPow2(16);
    Pow2Add(128, 128);
    Pow2Add(253, 3);
    PowersOfTwo();
    assert 8 * Pow2(253) == R256;
    ModSmall(ELL - 2, Pow2(253));
    DivModUnique(ELL - 2, Pow2(253), 0, ELL - 2);
  }

  // The invariant of the inversion loop: m holds s^e in Montgomery form.
  predicate Holds(m: seq<int>, s: int, e: nat) {
    |m| == 8 && IsWords(m) && 0 <= Num(m) < ELL && Num(m) % ELL == (IntPow(s, e) * R256) % ELL
  }

  lemma HoldsProduct(m: seq<int>, n: seq<int>, u: seq<int>, s: int, e: nat, f: nat)
    requires Holds(m, s, e) && Holds(n, s, f) && |u| == 8 && IsWords(u) && 0 <= Num(u) < ELL
    requires (Num(u) * R256) % ELL == (Num(m) * Num(n)) % ELL
    ensures Holds(u, s, e + f)
  {
    hide Num, IntPow, IsWords;
    MontProduct(Num(m), Num(n), Num(u), IntPow(s, e), IntPow(s, f));
    IntPowAdd(s, e, f);
  }

  /** The inversion of a scalar: its (L-2)-th power modulo L, by square and multiply in Montgomery form. */
  method InverseModL(privateKey: seq<byte>) returns (inverse: seq<byte>)
    requires |privateKey| == 32
    ensures |inverse| == 32 && Le(inverse) == IntPow(Le(Trim(privateKey)), ELL - 2) % ELL
  {
    hide Num, PowB, Le, Pow2, ScalarBit, Holds;
    var scalar := Trim(privateKey);
    ghost var s := Le(scalar);
    var mScl := ToMontgomery(scalar);
    var mInv := MONT_ONE;
    OneHolds(s);
    TopIsZero();
    Lm2Value();
    var i := 253;
    while i > 0
      invariant 0 <= i <= 253 && Holds(mInv, s, (ELL - 2) / Pow2(i))
    {
      i := i - 1;
      ExponentStep(i);
      ghost var e := (ELL - 2) / Pow2(i + 1);
      HoldsFacts(mInv, s, e);
      HoldsFacts(mScl, s, 1);
      var square := MontMul(mInv, mInv);
      HoldsProduct(mInv, mInv, square, s, e, e);
      mInv := square;
      if ScalarBit(LM2, i) == 1 {
        HoldsFacts(square, s, e + e);
        mInv := MontMul(square, mScl);
        HoldsProduct(square, mScl, mInv, s, e + e, 1);
      }
    }
    inverse := FromMontgomery(mInv, s, ELL - 2);
  }

  lemma HoldsFacts(m: seq<int>, s: int, e: nat)
    requires Holds(m, s, e)
    ensures |m| == 8 && IsWords(m) && 0 <= Num(m) < ELL && Num(m) % ELL == (IntPow(s, e) * R256) % ELL
  {
  }

  lemma OneHolds(s: int)
    ensures Holds(MONT_ONE, s, 0)
  {
    hide Num;
    OneValue();
    ModSmall(R256 % ELL, ELL);
  }

  // scalar * 2^256 modulo L
  method ToMontgomery(scalar: seq<byte>) returns (m: seq<int>)
    requires |scalar| == 32
    ensures Holds(m, Le(scalar), 1)
  {
    hide Num, PowB, Le, Pow256, IntPow;
    var zeros := [0, 0, 0, 0, 0, 0, 0, 0];
    LoadIsNum(scalar);
    NumZeros(zeros);
    NumAppend(zeros, LoadWords(scalar));
    Powers();
    m := ModL(zeros + LoadWords(scalar));
    IntPowOne(Le(scalar));
    ModSmall(Num(m), ELL);
  }

  lemma IntPowOne(x: int) ensures IntPow(x, 1) == x { assert IntPow(x, 0) == 1; }

  method FromMontgomery(m: seq<int>, ghost s: int, ghost e: nat) returns (r: seq<byte>)
    requires Holds(m, s, e)
    ensures |r| == 32 && Le(r) == IntPow(s, e) % ELL
  {
    hide Num, PowB, Le, IntPow;
    var zeros := [0, 0, 0, 0, 0, 0, 0, 0];
    NumZeros(zeros);
    NumAppend(m, zeros);
    var u := Redc(m + zeros);
    CancelR(Num(u), IntPow(s, e));
    ModSmall(Num(u), ELL);
    StoreIsNum(u);
    r := StoreWords(u);
  }
}
