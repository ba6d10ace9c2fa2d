/** Bytes, and the little-endian numbers they spell. */
module Bytes {
  import opened Arithmetic

  type byte = b: int | 0 <= b < 256

  const B := 0x1_0000_0000   // one 32-bit word

  function Le(b: seq<byte>): (n: nat) {
    if b == [] then 0 else (b[0] as int) + 256 * Le(b[1..])
  }

  // 2^(8 n)
  function Pow256(n: nat): (p: nat)
    ensures p > 0
  {
    if n == 0 then 1 else 256 * Pow256(n - 1)
  }

  function Load32(b: seq<byte>): (n: nat)
    requires |b| == 4
    ensures n < B
  {
    (b[0] as int) + 0x100 * (b[1] as int) + 0x10000 * (b[2] as int) + 0x1000000 * (b[3] as int)
  }

  function Store32(n: nat): (b: seq<byte>)
    requires n < B
    ensures |b| == 4 && Load32(b) == n
  {
    var n1 := n / 0x100;
    var n2 := n1 / 0x100;
    [n % 0x100, n1 % 0x100, n2 % 0x100, n2 / 0x100]
  }

  lemma {:induction false} LeAppend(a: seq<byte>, b: seq<byte>)
    ensures Le(a + b) == Le(a) + Pow256(|a|) * Le(b)
  {
    if a == [] {
      assert a + b == b;
    } else {
      assert (a + b)[1..] == a[1..] + b;
      LeAppend(a[1..], b);
      MulAssoc(256, Pow256(|a| - 1), Le(b));
    }
  }

  lemma {:induction false} LeBound(b: seq<byte>)
    ensures Le(b) < Pow256(|b|)
  {
    if b != [] { LeBound(b[1..]); }
  }

  lemma LeLoad32(b: seq<byte>)
    requires |b| == 4
    ensures Le(b) == Load32(b) && Pow256(4) == B
  {
    assert Le(b[3..]) == b[3] as int + 256 * Le(b[4..]);
    assert b[2..][1..] == b[3..] && b[1..][1..] == b[2..] && b[3..][1..] == b[4..] && Le(b[4..]) == 0;
    assert Le(b[2..]) == b[2] as int + 256 * Le(b[3..]);
    assert Le(b[1..]) == b[1] as int + 256 * Le(b[2..]);
    assert Pow256(1) == 256 && Pow256(2) == 256 * Pow256(1) && Pow256(3) == 256 * Pow256(2) && Pow256(4) == 256 * Pow256(3);
  }

  lemma {:induction false} Pow256Add(m: nat, n: nat)
    ensures Pow256(m + n) == Pow256(m) * Pow256(n)
  {
    if m > 0 {
      Pow256Add(m - 1, n);
      MulAssoc(256, Pow256(m - 1), Pow256(n));
    }
  }

  // Bit i of a little-endian number; positions below zero read as 0.
  function ScalarBit(s: seq<byte>, i: int): (b: nat)
    requires i < 8 * |s|
    ensures b <= 1
  {
    if i < 0 then 0 else (s[i / 8] as int) / Pow2(i % 8) % 2
  }

  lemma {:induction false} Pow256IsPow2(n: nat)
    ensures Pow256(n) == Pow2(8 * n)
  {
    if n > 0 {
      Pow256IsPow2(n - 1);
      Pow2Add(8, 8 * (n - 1));
      PowersOfTwo();
    }
  }

  lemma PowersOfTwo()
    ensures Pow2(0) == 1 && Pow2(1) == 2 && Pow2(2) == 4 && Pow2(3) == 8 && Pow2(4) == 16
    ensures Pow2(5) == 32 && Pow2(6) == 64 && Pow2(7) == 128 && Pow2(8) == 256
  {
    assert Pow2(1) == 2 * Pow2(0) && Pow2(2) == 2 * Pow2(1) && Pow2(3) == 2 * Pow2(2) && Pow2(4) == 2 * Pow2(3);
    assert Pow2(5) == 2 * Pow2(4) && Pow2(6) == 2 * Pow2(5) && Pow2(7) == 2 * Pow2(6) && Pow2(8) == 2 * Pow2(7);
  }

  lemma ByteBit(b: int, hi: int, r: nat)
    requires 0 <= b < 256 && hi >= 0 && r < 8
    ensures (b + 256 * hi) / Pow2(r) % 2 == b / Pow2(r) % 2
  {
    hide Pow2;
    assert Pow2(r) * (2 * Pow2(7 - r)) == 256 by {
      Pow2Add(r, 7 - r);
      PowersOfTwo();
    }
    BitAbove(b, hi, Pow2(r), Pow2(7 - r));
  }

  lemma BitAbove(b: int, hi: int, p: int, m: int)
    requires p > 0 && p * (2 * m) == 256
    ensures (b + 256 * hi) / p % 2 == b / p % 2
  {
    var k, t := b / p, b % p;
    assert (b + 256 * hi) / p == k + 2 * (m * hi) by { ShiftedByte(b, hi, p, m, k, t); }
    assert (k + 2 * (m * hi)) % 2 == k % 2 by { ModShift(k, m * hi, 2); }
  }

  lemma ShiftedByte(b: int, hi: int, p: int, m: int, k: int, t: int)
    requires p > 0 && p * (2 * m) == 256 && b == p * k + t && 0 <= t < p
    ensures (b + 256 * hi) / p == k + 2 * (m * hi)
  {
    calc {
      b + 256 * hi;
      (p * k + t) + (p * (2 * m)) * hi;
      p * (k + 2 * (m * hi)) + t;
    }
    DivModUnique(b + 256 * hi, p, k + 2 * (m * hi), t);
  }

  // Dropping the low bytes.
  lemma BytesAbove(s: seq<byte>, q: nat)
    requires q < |s|
    ensures Le(s) / Pow256(q) == s[q] as int + 256 * Le(s[q + 1..])
  {
    hide Le, Pow256;
    var lo, tail := s[..q], s[q..];
    assert s == lo + tail && tail[1..] == s[q + 1..];
    LeAppend(lo, tail);
    LeBound(lo);
    LeHead(tail);
    DivModUnique(Le(s), Pow256(q), Le(tail), Le(lo));
  }

  // The bit read from its byte is the bit of the number.
  lemma BitOfNumber(s: seq<byte>, i: nat)
    requires i < 8 * |s|
    ensures ScalarBit(s, i) == Le(s) / Pow2(i) % 2
  {
    hide Le, Pow2, Pow256;
    var q, r := i / 8, i % 8;
    BytesAbove(s, q);
    Pow256IsPow2(q);
    Pow2Add(8 * q, r);
    DivDiv(Le(s), Pow256(q), Pow2(r));
    ByteBit(s[q], Le(s[q + 1..]), r);
  }

  lemma LeHead(s: seq<byte>)
    requires s != []
    ensures Le(s) == s[0] as int + 256 * Le(s[1..])
  {
  }
}
