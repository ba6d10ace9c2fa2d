/** Multi-word arithmetic on little-endian sequences of 32-bit words. */
module Words32 {
  import opened Arithmetic
  import opened Bytes

  function PowB(n: nat): (p: nat)
    ensures p > 0
  {
    if n == 0 then 1 else PowB(n - 1) * B
  }

  lemma PowBStep(n: nat) ensures PowB(n + 1) == PowB(n) * B {}

  predicate IsWords(w: seq<int>) { forall i :: 0 <= i < |w| ==> 0 <= w[i] < B }

  function Num(w: seq<int>): int {
    if w == [] then 0 else Num(w[..|w| - 1]) + PowB(|w| - 1) * w[|w| - 1]
  }

  lemma NumSnoc(w: seq<int>, d: int)
    ensures Num(w + [d]) == Num(w) + PowB(|w|) * d
  {
    assert (w + [d])[..|w|] == w;
  }

  lemma {:induction false} NumBound(w: seq<int>)
    requires IsWords(w)
    ensures 0 <= Num(w) < PowB(|w|)
  {
    if w != [] {
      var n := |w| - 1;
      NumBound(w[..n]);
      WordBound(PowB(n), w[n]);
    }
  }

  lemma WordBound(x: int, d: int)
    requires x > 0 && 0 <= d < B
    ensures 0 <= x * d <= x * B - x
  {
    MulMono(x, 0, d);
    MulMono(x, d, B - 1);
  }

  lemma {:induction false} PowBAdd(m: nat, n: nat)
    ensures PowB(m + n) == PowB(m) * PowB(n)
  {
    if n > 0 {
      PowBAdd(m, n - 1);
      MulAssoc(PowB(m), PowB(n - 1), B);
    }
  }

  lemma {:induction false} NumAppend(a: seq<int>, b: seq<int>)
    ensures Num(a + b) == Num(a) + PowB(|a|) * Num(b)
  {
    if b == [] {
      assert a + b == a;
    } else {
      var n := |b| - 1;
      assert a + b == (a + b[..n]) + [b[n]];
      NumSnoc(a + b[..n], b[n]);
      NumAppend(a, b[..n]);
      PowBAdd(|a|, n);
      MulAssoc(PowB(|a|), PowB(n), b[n]);
      MulDistribute(PowB(|a|), Num(b[..n]), PowB(n) * b[n]);
    }
  }

  lemma MulDistribute(x: int, a: int, b: int)
    ensures x * (a + b) == x * a + x * b
  {
  }

  lemma {:induction false} NumZeros(w: seq<int>)
    requires forall i :: 0 <= i < |w| ==> w[i] == 0
    ensures Num(w) == 0
  {
    if w != [] { NumZeros(w[..|w| - 1]); }
  }

  // One word of a multiply-accumulate row.
  lemma RowArith(nd: int, nw: int, nb: int, x: int, y: int, c: int, p: int, b: int, m: int, d: int, c': int)
    requires c + p + m * b == c' * B + d && nd + c * x == nw + m * nb && y == x * B
    ensures (nd + x * d) + c' * y == (nw + x * p) + m * (nb + x * b)
  {
    calc {
      (nd + x * d) + c' * y;
      (nd + x * d) + c' * (x * B);
      nd + x * (c' * B + d);
      nd + x * (c + p + m * b);
      (nd + c * x) + x * p + x * (m * b);
      (nw + m * nb) + x * p + m * (x * b);
    }
  }

  lemma RowSums(nd: int, nw: int, nb: int, x: int, y: int, c: int, p: int, b: int, m: int, d: int, c': int, nd': int, nw': int, nb': int)
    requires c + p + m * b == c' * B + d && nd + c * x == nw + m * nb && y == x * B
    requires nd' == nd + x * d && nw' == nw + x * p && nb' == nb + x * b
    ensures nd' + c' * y == nw' + m * nb'
  {
    RowArith(nd, nw, nb, x, y, c, p, b, m, d, c');
  }

  // p[off..off+n] += m * b, word by word, with the carry out returned; no 64-bit overflow.
  method MulAddRow(p: array<int>, off: nat, m: int, b: seq<int>, n: nat) returns (carry: int)
    requires off + n <= p.Length && n <= |b| && IsWords(p[..]) && IsWords(b) && 0 <= m < B
    modifies p
    ensures IsWords(p[..]) && 0 <= carry < B
    ensures p[..off] == old(p[..off]) && p[off + n..] == old(p[off + n..])
    ensures Num(p[off..off + n]) + carry * PowB(n) == old(Num(p[off..off + n])) + m * Num(b[..n])
  {
    hide Num, PowB;
    carry := 0;
    ghost var p0 := p[..];
    NumEmpty(p[off..off], b[..0]);
    for j := 0 to n
      invariant IsWords(p[..]) && 0 <= carry < B
      invariant p[..off] == p0[..off] && p[off + j..] == p0[off + j..]
      invariant Num(p[off..off + j]) + carry * PowB(j) == Num(p0[off..off + j]) + m * Num(b[..j])
    {
      ghost var c, done := carry, p[off..off + j];
      assert p[off + j] == p0[off + j] by { assert p[off + j..][0] == p0[off + j..][0]; }
      MulBound(m, b[j], B - 1, B - 1);
      var total := carry + p[off + j] + m * b[j];
      assert total < B * B;
      p[off + j] := total % B;
      carry := total / B;
      assert p[off..off + j + 1] == done + [total % B];
      assert p0[off..off + j + 1] == p0[off..off + j] + [p0[off + j]] && b[..j + 1] == b[..j] + [b[j]];
      assert p[off + j + 1..] == p0[off + j..][1..];
      RowAdvance(done, p0[off..off + j], p0[off + j], b[..j], b[j], m, c, total, total % B, carry);
    }
  }

  lemma NumEmpty(a: seq<int>, b: seq<int>)
    requires a == [] && b == []
    ensures Num(a) == 0 && Num(b) == 0 && PowB(0) == 1
  {
  }

  lemma NumSnocAt(w: seq<int>, d: int, x: int)
    requires x == PowB(|w|)
    ensures Num(w + [d]) == Num(w) + x * d
  {
    hide Num, PowB;
    NumSnoc(w, d);
  }

  lemma RowAdvance(done: seq<int>, was: seq<int>, p: int, bs: seq<int>, b: int, m: int, c: int, total: int, d: int, c': int)
    requires |done| == |was| == |bs| && total == c' * B + d && total == c + p + m * b
    requires Num(done) + c * PowB(|done|) == Num(was) + m * Num(bs)
    ensures Num(done + [d]) + c' * PowB(|done| + 1) == Num(was + [p]) + m * Num(bs + [b])
  {
    hide *;
    var x := PowB(|done|);
    NumSnocAt(done, d, x);
    NumSnocAt(was, p, x);
    NumSnocAt(bs, b, x);
    PowBStep(|done|);
    RowSums(Num(done), Num(was), Num(bs), x, PowB(|done| + 1), c, p, b, m, d, c', Num(done + [d]), Num(was + [p]), Num(bs + [b]));
  }

  /* ---------- addition with carry ---------- */

  // out = x + y + carry over n words, and the carry out
  method AddCarry(x: seq<int>, y: seq<int>, carryIn: int) returns (out: seq<int>, carry: int)
    requires |x| == |y| && IsWords(x) && IsWords(y) && 0 <= carryIn <= 1
    ensures |out| == |x| && IsWords(out) && 0 <= carry <= 1
    ensures Num(out) + carry * PowB(|x|) == Num(x) + Num(y) + carryIn
  {
    hide Num, PowB;
    out, carry := [], carryIn;
    NumEmpty(x[..0], y[..0]);
    for i := 0 to |x|
      invariant |out| == i && IsWords(out) && 0 <= carry <= 1
      invariant Num(out) + carry * PowB(i) == Num(x[..i]) + Num(y[..i]) + carryIn
    {
      var total := carry + x[i] + y[i];
      AddAdvance(out, x[..i], x[i], y[..i], y[i], carryIn, carry, total % B, total / B);
      assert x[..i + 1] == x[..i] + [x[i]] && y[..i + 1] == y[..i] + [y[i]];
      out := out + [total % B];
      carry := total / B;
    }
    assert x[..|x|] == x && y[..|x|] == y;
  }

  lemma AddAdvance(out: seq<int>, xs: seq<int>, a: int, ys: seq<int>, b: int, k: int, c: int, d: int, c': int)
    requires |out| == |xs| == |ys| && c + a + b == c' * B + d
    requires Num(out) + c * PowB(|out|) == Num(xs) + Num(ys) + k
    ensures Num(out + [d]) + c' * PowB(|out| + 1) == Num(xs + [a]) + Num(ys + [b]) + k
  {
    hide Num, PowB;
    NumSnoc(out, d);
    NumSnoc(xs, a);
    NumSnoc(ys, b);
    PowBStep(|out|);
    AddArith(Num(out), Num(xs) + Num(ys) + k, PowB(|out|), PowB(|out| + 1), a, b, c, d, c');
  }

  lemma AddArith(no: int, ns: int, x: int, y: int, a: int, b: int, c: int, d: int, c': int)
    requires c + a + b == c' * B + d && no + c * x == ns && y == x * B
    ensures (no + x * d) + c' * y == ns + x * a + x * b
  {
    calc {
      (no + x * d) + c' * y;
      (no + x * d) + c' * (x * B);
      no + x * (c' * B + d);
      no + x * (c + a + b);
      (no + c * x) + x * a + x * b;
    }
  }

  // The words of 2^(32 n) - 1 - w.
  function Complement(w: seq<int>): (c: seq<int>)
    ensures |c| == |w| && (IsWords(w) ==> IsWords(c))
  {
    seq(|w|, i requires 0 <= i < |w| => B - 1 - w[i])
  }

  lemma {:induction false} NumComplement(w: seq<int>)
    ensures Num(Complement(w)) == PowB(|w|) - 1 - Num(w)
  {
    if w != [] {
      var n := |w| - 1;
      assert Complement(w)[..n] == Complement(w[..n]);
      NumComplement(w[..n]);
      ComplementArith(PowB(n), w[n]);
    }
  }

  lemma ComplementArith(x: int, d: int)
    ensures x * (B - 1 - d) == x * B - x - x * d
  {
  }

  /* ---------- full product ---------- */

  predicate UpperZero(p: seq<int>)
    requires |p| == 16
  {
    forall i :: 8 <= i < 16 ==> p[i] == 0
  }

  lemma {:induction false} NumZeroIff(w: seq<int>)
    requires IsWords(w)
    ensures Num(w) == 0 <==> forall i :: 0 <= i < |w| ==> w[i] == 0
  {
    hide PowB;
    if w != [] {
      var n := |w| - 1;
      NumZeroIff(w[..n]);
      NumBound(w[..n]);
      WordBound(PowB(n), w[n]);
      if w[n] != 0 { MulMono(PowB(n), 1, w[n]); }
      assert forall i :: 0 <= i < n ==> w[i] == w[..n][i];
    }
  }

  // The lower half is the whole number only while the upper half is zero.
  lemma UpperCounts(p: seq<int>)
    requires |p| == 16 && IsWords(p)
    ensures Num(p) == Num(p[..8]) <==> UpperZero(p)
  {
    hide Num, PowB;
    var upper := p[8..];
    assert p == p[..8] + upper;
    NumAppend(p[..8], upper);
    NumZeroIff(upper);
    NumBound(upper);
    if Num(upper) != 0 { MulMono(PowB(8), 1, Num(upper)); }
    assert forall i :: 8 <= i < 16 ==> p[i] == upper[i - 8];
    assert forall i :: 0 <= i < 8 ==> upper[i] == p[i + 8];
  }

  /** p = a * b + p over eight words each; the upper half of p is overwritten, not
      added to. */
  method Multiply(p: array<int>, a: seq<int>, b: seq<int>)
    requires p.Length == 16 && |a| == |b| == 8 && IsWords(p[..]) && IsWords(a) && IsWords(b)
    modifies p
    ensures IsWords(p[..]) && Num(p[..]) == Num(a) * Num(b) + old(Num(p[..8]))
    ensures Num(p[..]) == Num(a) * Num(b) + old(Num(p[..])) <==> old(UpperZero(p[..]))
  {
    hide Num, PowB, UpperZero;
    UpperCounts(p[..]);
    ghost var p0 := Num(p[..8]);
    NumEmpty(a[..0], a[..0]);
    for i := 0 to 8
      invariant IsWords(p[..])
      invariant Num(p[..i + 8]) == Num(a[..i]) * Num(b) + p0
    {
      ghost var low, mid := p[..i], p[i..i + 8];
      assert p[..i + 8] == low + mid;
      var carry := MulAddRow(p, i, a[i], b, 8);
      ghost var mid' := p[i..i + 8];
      p[i + 8] := carry;
      assert p[..i + 9] == (low + mid') + [carry] by { assert p[..i] == low; assert p[i..i + 8] == mid'; }
      assert b[..8] == b && a[..i + 1] == a[..i] + [a[i]];
      ProductRow(low, mid, mid', carry, a[..i], a[i], Num(b), p0);
    }
    assert p[..16] == p[..] && a[..8] == a;
  }

  /** With 2^256 in p and zero factors, nothing is left of p. */
  method MultiplyForgets() returns (was: int, now: int)
    ensures was == PowB(8) && now == 0
  {
    hide Num, PowB;
    var zero := seq(8, i => 0);
    var p := new int[16](i => if i == 8 then 1 else 0);
    was := Num(p[..]);
    OneWord(p[..]);
    NumZeros(zero);
    NumZeros(p[..8]);
    Multiply(p, zero, zero);
    now := Num(p[..]);
  }

  lemma OneWord(p: seq<int>)
    requires |p| == 16 && forall i :: 0 <= i < 16 ==> p[i] == if i == 8 then 1 else 0
    ensures Num(p) == PowB(8)
  {
    hide Num, PowB;
    assert p == (p[..8] + [1]) + p[9..];
    NumAppend(p[..8] + [1], p[9..]);
    NumSnoc(p[..8], 1);
    NumZeros(p[..8]);
    NumZeros(p[9..]);
  }

  lemma ProductRow(low: seq<int>, mid: seq<int>, mid': seq<int>, carry: int, as_: seq<int>, a: int, nb: int, p0: int)
    requires |low| == |as_| && |mid| == |mid'|
    requires Num(mid') + carry * PowB(|mid|) == Num(mid) + a * nb
    requires Num(low + mid) == Num(as_) * nb + p0
    ensures Num((low + mid') + [carry]) == Num(as_ + [a]) * nb + p0
  {
    hide *;
    var x, z := PowB(|low|), PowB(|mid|);
    NumAppend(low, mid);
    NumAppend(low, mid');
    NumSnoc(low + mid', carry);
    NumSnoc(as_, a);
    PowBAdd(|low|, |mid|);
    ProductArith(x, z, PowB(|low| + |mid|), Num(low), Num(mid), Num(mid'), carry, Num(as_), a, nb, p0, Num(as_ + [a]));
  }

  lemma ProductArith(x: int, z: int, xz: int, low: int, mid: int, mid': int, carry: int, na: int, a: int, nb: int, p0: int,
                     na': int)
    requires xz == x * z && mid' + carry * z == mid + a * nb && low + x * mid == na * nb + p0 && na' == na + x * a
    ensures low + x * mid' + xz * carry == na' * nb + p0
  {
    calc {
      low + x * mid' + xz * carry;
      low + x * mid' + (x * z) * carry;
      low + x * (mid' + carry * z);
      low + x * (mid + a * nb);
      (low + x * mid) + x * (a * nb);
      (na * nb + p0) + (x * a) * nb;
      (na + x * a) * nb + p0;
      na' * nb + p0;
    }
  }

  /* ---------- bytes and words ---------- */

  // load32_le_buf
  function LoadWords(b: seq<byte>): (w: seq<int>)
    requires |b| % 4 == 0
    ensures |w| == |b| / 4 && IsWords(w)
  {
    seq(|b| / 4, i requires 0 <= i < |b| / 4 => Load32(b[4 * i..4 * i + 4]))
  }

  // store32_le_buf
  function StoreWords(w: seq<int>): (b: seq<byte>)
    requires IsWords(w)
    ensures |b| == 4 * |w|
  {
    if w == [] then [] else StoreWords(w[..|w| - 1]) + Store32(w[|w| - 1])
  }

  lemma LoadSnoc(head: seq<byte>, tail: seq<byte>)
    requires |head| % 4 == 0 && |tail| == 4
    ensures LoadWords(head + tail) == LoadWords(head) + [Load32(tail)]
  {
    hide Load32;
    var b := head + tail;
    forall i | 0 <= i < |head| / 4 ensures LoadWords(b)[i] == LoadWords(head)[i] {
      assert b[4 * i..4 * i + 4] == head[4 * i..4 * i + 4];
    }
    assert b[|head|..|head| + 4] == tail;
  }

  // One more word, as words and as bytes.
  lemma LoadStep(head: seq<byte>, tail: seq<byte>)
    requires |head| % 4 == 0 && |tail| == 4
    requires Num(LoadWords(head)) == Le(head) && PowB(|head| / 4) == Pow256(|head|)
    ensures Num(LoadWords(head + tail)) == Le(head + tail) && PowB(|head| / 4 + 1) == Pow256(|head| + 4)
  {
    hide *;
    LoadSnoc(head, tail);
    NumSnoc(LoadWords(head), Load32(tail));
    LeAppend(head, tail);
    LeLoad32(tail);
    Pow256Add(|head|, 4);
    PowBStep(|head| / 4);
  }

  lemma {:induction false} LoadIsNum(b: seq<byte>)
    requires |b| % 4 == 0
    ensures Num(LoadWords(b)) == Le(b) && PowB(|b| / 4) == Pow256(|b|)
  {
    if b == [] {
      assert LoadWords(b) == [];
    } else {
      hide *;
      var n := |b| - 4;
      assert b == b[..n] + b[n..];
      LoadIsNum(b[..n]);
      LoadStep(b[..n], b[n..]);
    }
  }

  lemma {:induction false} StoreIsNum(w: seq<int>)
    requires IsWords(w)
    ensures Le(StoreWords(w)) == Num(w)
  {
    hide Num, PowB, Le, Pow256, Load32, Store32, LoadWords;
    if w == [] {
      assert LoadWords([]) == [];
      LoadIsNum([]);
    } else {
      var n := |w| - 1;
      StoreIsNum(w[..n]);
      assert w == w[..n] + [w[n]];
      NumSnoc(w[..n], w[n]);
      LeAppend(StoreWords(w[..n]), Store32(w[n]));
      LeLoad32(Store32(w[n]));
      LoadIsNum(StoreWords(w[..n]));
    }
  }
}
