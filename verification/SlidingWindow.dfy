/** Signed sliding-window recoding of scalars, left to right, as the signature check uses it for two scalars at once. */
module SlidingWindow {
  import opened Arithmetic
  import opened Bytes

  /* ---------- what the bits of a scalar are worth ---------- */

  function BitAt(s: seq<byte>, i: int): (b: nat)
    requires |s| == 32 && i < 256
    ensures b <= 1
  {
    ScalarBit(s, i)
  }

  // The value of the bits below c.
  function Low(s: seq<byte>, c: int): int
    requires |s| == 32 && c <= 256
    decreases c
  {
    if c <= 0 then 0 else Low(s, c - 1) + BitAt(s, c - 1) * Pow2(c - 1)
  }

  lemma {:induction false} LowIsMod(s: seq<byte>, c: nat)
    requires |s| == 32 && c <= 256
    ensures Low(s, c) == Le(s) % Pow2(c)
  {
    if c > 0 {
      hide Pow2, Le, BitAt, Low;
      LowIsMod(s, c - 1);
      BitIs(s, c - 1);
      Pow2Step(c - 1);
      LowStep(s, c);
      SplitBit(Le(s), Pow2(c - 1), Pow2(c));
    }
  }

  lemma BitIs(s: seq<byte>, i: nat)
    requires |s| == 32 && i < 256
    ensures BitAt(s, i) == Le(s) / Pow2(i) % 2
  {
    BitOfNumber(s, i);
  }

  lemma Pow2Step(n: nat) ensures Pow2(n + 1) == 2 * Pow2(n) && Pow2(0) == 1 {}

  lemma LowStep(s: seq<byte>, c: nat)
    requires |s| == 32 && 0 < c <= 256
    ensures Low(s, c) == Low(s, c - 1) + BitAt(s, c - 1) * Pow2(c - 1)
  {
  }

  lemma SplitBit(x: int, p: int, p2: int)
    requires p > 0 && p2 == 2 * p
    ensures x % p2 == x % p + x / p % 2 * p
  {
    var q, r := x / p, x % p;
    var k, b := q / 2, q % 2;
    assert x == p2 * k + (b * p + r) by { SplitArith(p, p2, k, b, r); }
    assert 0 <= b * p + r < p2 by { if b == 1 { assert b * p == p; } else { assert b * p == 0; } }
    DivModUnique(x, p2, k, b * p + r);
  }

  lemma SplitArith(p: int, p2: int, k: int, b: int, r: int)
    requires p2 == 2 * p
    ensures p * (2 * k + b) + r == p2 * k + (b * p + r)
  {
  }

  // The signed value of the positions c, c-1, ..., 0 when each counts the bit below minus its own.
  function Signed(s: seq<byte>, c: int): int
    requires |s| == 32 && c < 256
  {
    if c < 0 then 0 else Low(s, c) - BitAt(s, c) * Pow2(c)
  }

  // Above the top bit the signed value is the scalar.
  lemma SignedTop(s: seq<byte>, c: nat)
    requires |s| == 32 && c < 256 && BitAt(s, c) == 0 && Le(s) < Pow2(c)
    ensures Signed(s, c) == Le(s)
  {
    hide Le, Pow2;
    LowIsMod(s, c);
    ModSmall(Le(s), Pow2(c));
  }

  // Two equal neighbouring bits are worth nothing.
  lemma SignedSkip(s: seq<byte>, c: nat)
    requires |s| == 32 && c < 256 && BitAt(s, c) == BitAt(s, c - 1)
    ensures Signed(s, c) == Signed(s, c - 1)
  {
    hide BitAt;
    if c > 0 { Pow2Step(c - 1); } else { BitBelow(s); }
  }

  lemma BitBelow(s: seq<byte>)
    requires |s| == 32
    ensures BitAt(s, -1) == 0
  {
  }

  /* ---------- one window ---------- */

  // sum of bit(m + j) * 2^j for j < n
  function Chunk(s: seq<byte>, m: int, n: nat): int
    requires |s| == 32 && m + n <= 256
  {
    if n == 0 then 0 else Chunk(s, m, n - 1) + BitAt(s, m + n - 1) * Pow2(n - 1)
  }

  lemma {:induction false} ChunkIsLow(s: seq<byte>, m: nat, n: nat)
    requires |s| == 32 && m + n <= 256
    ensures Chunk(s, m, n) * Pow2(m) == Low(s, m + n) - Low(s, m)
  {
    hide BitAt, Pow2;
    if n > 0 {
      ChunkIsLow(s, m, n - 1);
      Pow2Add(n - 1, m);
      var b := BitAt(s, m + n - 1);
      ChunkArith(Chunk(s, m, n - 1), b, Pow2(n - 1), Pow2(m), Pow2(m + n - 1));
    }
  }

  lemma ChunkArith(c: int, b: int, x: int, p: int, xp: int)
    requires xp == x * p
    ensures (c + b * x) * p == c * p + b * xp
  {
    assert (c + b * x) * p == c * p + b * (x * p);
  }

  // The digit value computed for the window of w positions from i down.
  function WindowValue(s: seq<byte>, i: nat, w: nat): int
    requires |s| == 32 && i < 256 && 1 <= w <= i + 1
  {
    0 - BitAt(s, i) * Pow2(w - 1) + Chunk(s, i - (w - 1), w - 1) + BitAt(s, i - w)
  }

  // A window is worth exactly the positions it covers.
  lemma WindowIsSigned(s: seq<byte>, i: nat, w: nat)
    requires |s| == 32 && i < 256 && 1 <= w <= i + 1
    ensures Signed(s, i) == WindowValue(s, i, w) * Pow2(i - (w - 1)) + Signed(s, i - w)
  {
    hide BitAt, Pow2, Chunk;
    var m := i - (w - 1);
    ChunkIsLow(s, m, w - 1);
    Pow2Add(w - 1, m);
    WindowArith(BitAt(s, i), Pow2(w - 1), Chunk(s, m, w - 1), BitAt(s, m - 1), Pow2(m), Pow2(i));
    if m > 0 { Pow2Step(m - 1); } else { BitBelow(s); }
  }

  lemma WindowArith(b: int, x: int, c: int, d: int, p: int, xp: int)
    requires xp == x * p
    ensures (0 - b * x + c + d) * p == 0 - b * xp + c * p + d * p
  {
    assert (0 - b * x + c + d) * p == 0 - b * (x * p) + c * p + d * p;
  }

  lemma {:induction false} ChunkBound(s: seq<byte>, m: int, n: nat)
    requires |s| == 32 && m + n <= 256
    ensures 0 <= Chunk(s, m, n) <= Pow2(n) - 1
    ensures n > 0 && BitAt(s, m + n - 1) == 1 ==> Chunk(s, m, n) >= Pow2(n - 1)
    ensures n > 0 && BitAt(s, m + n - 1) == 0 ==> Chunk(s, m, n) <= Pow2(n - 1) - 1
  {
    hide BitAt;
    if n > 0 { ChunkBound(s, m, n - 1); }
  }

  // A window that starts at a change of bits is not empty and fits its width.
  lemma WindowBound(s: seq<byte>, i: nat, w: nat)
    requires |s| == 32 && i < 256 && 1 <= w <= i + 1 && BitAt(s, i) != BitAt(s, i - 1)
    ensures WindowValue(s, i, w) != 0 && 0 - Pow2(w - 1) <= WindowValue(s, i, w) <= Pow2(w - 1)
  {
    hide BitAt, Chunk;
    ChunkBound(s, i - (w - 1), w - 1);
    if w == 1 {
      assert Chunk(s, i, 0) == 0 by { ChunkEmpty(s, i); }
      assert i - w == i - 1;
    } else {
      Pow2Step(w - 2);
      assert i - (w - 1) + (w - 1) - 1 == i - 1;
    }
  }

  lemma ChunkEmpty(s: seq<byte>, m: int)
    requires |s| == 32 && m <= 256
    ensures Chunk(s, m, 0) == 0
  {
  }

  /* ---------- the lowest set bit ---------- */

  // v & (~v + 1) on the low byte, then its position from three masks
  function Lsb(v: int): bv8
    requires -16 <= v <= 16
  {
    var u := (if v < 0 then v + 256 else v) as bv8;
    u & (!u + 1)
  }

  function ShiftOf(v: int): (s: nat)
    requires -16 <= v <= 16
    ensures s <= 7
  {
    var lsb := Lsb(v);
    (if lsb & 0xAA != 0 then 1 else 0) + (if lsb & 0xCC != 0 then 2 else 0) + (if lsb & 0xF0 != 0 then 4 else 0)
  }

  predicate ShiftsToOdd(v: int, s: nat) {
    v % Pow2(s) == 0 && v / Pow2(s) % 2 == 1
  }

  lemma ShiftPositive(v: int)
    requires 1 <= v <= 16
    ensures ShiftOf(v) <= 4 && ShiftsToOdd(v, ShiftOf(v))
  {
    PowersOfTwo();
    match v {
      case 1 => case 2 => case 3 => case 4 => case 5 => case 6 => case 7 => case 8 =>
      case 9 => case 10 => case 11 => case 12 => case 13 => case 14 => case 15 => case _ =>
    }
  }

  lemma ShiftNegative(v: int)
    requires -16 <= v <= -1
    ensures ShiftOf(v) <= 4 && ShiftsToOdd(v, ShiftOf(v))
  {
    PowersOfTwo();
    if v == -1 { assert ShiftOf(-1) == 0; }
    else if v == -2 { assert ShiftOf(-2) == 1; }
    else if v == -3 { assert ShiftOf(-3) == 0; }
    else if v == -4 { assert ShiftOf(-4) == 2; }
    else if v == -5 { assert ShiftOf(-5) == 0; }
    else if v == -6 { assert ShiftOf(-6) == 1; }
    else if v == -7 { assert ShiftOf(-7) == 0; }
    else if v == -8 { assert ShiftOf(-8) == 3; }
    else if v == -9 { assert ShiftOf(-9) == 0; }
    else if v == -10 { assert ShiftOf(-10) == 1; }
    else if v == -11 { assert ShiftOf(-11) == 0; }
    else if v == -12 { assert ShiftOf(-12) == 2; }
    else if v == -13 { assert ShiftOf(-13) == 0; }
    else if v == -14 { assert ShiftOf(-14) == 1; }
    else if v == -15 { assert ShiftOf(-15) == 0; }
    else { assert ShiftOf(-16) == 4; }
  }

  lemma {:induction false} Pow2Mono(a: nat, b: nat)
    requires a <= b
    ensures Pow2(a) <= Pow2(b)
  {
    if a < b { Pow2Mono(a, b - 1); }
  }

  // The odd digit left after the shift fits the window and its table.
  lemma DigitBound(v: int, w: nat, width: nat)
    requires 1 <= w <= width && 2 <= width <= 5 && v != 0 && 0 - Pow2(w - 1) <= v <= Pow2(w - 1)
    ensures -16 <= v <= 16 && ShiftOf(v) <= w - 1
    ensures var d := v / Pow2(ShiftOf(v)); d * Pow2(ShiftOf(v)) == v && d % 2 == 1 && 0 - Pow2(width - 1) < d < Pow2(width - 1)
  {
    hide ShiftOf, Pow2;
    PowersOfTwo();
    Pow2Mono(w - 1, width - 1);
    Pow2Mono(width - 1, 4);
    if v > 0 { ShiftPositive(v); } else { ShiftNegative(v); }
    var s := ShiftOf(v);
    ExactQuotient(v, Pow2(s));
    DigitSize(v / Pow2(s), Pow2(s), v, Pow2(w - 1));
    Pow2Reflects(s, w - 1);
    DigitStrict(v / Pow2(s), w, width);
  }

  lemma ExactQuotient(v: int, p: int)
    requires p > 0 && v % p == 0 && v != 0
    ensures v == p * (v / p) && v / p * p == v && v / p != 0
  {
  }

  lemma Pow2Reflects(a: nat, b: nat)
    requires Pow2(a) <= Pow2(b)
    ensures a <= b
  {
    if b < a {
      Pow2Step(b);
      Pow2Mono(b + 1, a);
    }
  }

  lemma DigitSize(d: int, p: int, v: int, b: int)
    requires p > 0 && v == p * d && d != 0 && 0 - b <= v <= b
    ensures p <= b && 0 - b <= d <= b
  {
    if d > 0 {
      MulMono(p, 1, d);
      MulMono(d, 1, p);
    } else {
      MulMono(p, d, -1);
      MulMono(0 - d, 1, p);
      assert (0 - d) * p == 0 - v;
    }
  }

  lemma DigitStrict(d: int, w: nat, width: nat)
    requires d % 2 == 1 && 1 <= w <= width && 2 <= width
    requires 0 - Pow2(w - 1) <= d <= Pow2(w - 1)
    ensures 0 - Pow2(width - 1) < d < Pow2(width - 1)
  {
    Pow2Mono(w - 1, width - 1);
    Pow2Step(width - 2);
  }

  /* ---------- the recoder ---------- */

  // The step a scalar starts at: one above its top bit.
  function TopCheck(scalar: seq<byte>, i: nat): (c: nat)
    requires |scalar| == 32 && i <= 252
    ensures 1 <= c <= i + 1
  {
    if i == 0 || BitAt(scalar, i) != 0 then i + 1 else TopCheck(scalar, i - 1)
  }

  lemma {:induction false} TopCheckIsTop(scalar: seq<byte>, i: nat)
    requires |scalar| == 32 && i <= 252 && Le(scalar) < Pow2(i + 1)
    ensures Le(scalar) < Pow2(TopCheck(scalar, i)) && BitAt(scalar, TopCheck(scalar, i)) == 0
  {
    hide Le, Pow2, BitAt;
    if i == 0 || BitAt(scalar, i) != 0 {
      BitIs(scalar, i + 1);
      DivModUnique(Le(scalar), Pow2(i + 1), 0, Le(scalar));
    } else {
      LowIsMod(scalar, i + 1);
      LowIsMod(scalar, i);
      ModSmall(Le(scalar), Pow2(i + 1));
      LowStep(scalar, i + 1);
      ModRange(Le(scalar), Pow2(i));
      TopCheckIsTop(scalar, i - 1);
    }
  }

  lemma ModRange(a: int, m: int)
    requires m > 0
    ensures 0 <= a % m < m
  {
  }

  // What a digit contributes at a position.
  function Shifted(digit: int, k: nat): int { digit * Pow2(k) }

  lemma ShiftedZero(k: nat)
    ensures Shifted(0, k) == 0
  {
  }

  // The entry that holds the odd multiple of a point.
  function TableIndex(digit: int): int { (if digit < 0 then 0 - digit else digit) / 2 }

  class Slide {
    var nextIndex: int   // position of the next signed digit
    var nextDigit: int
    var nextCheck: int   // a byte; 255 once the last position has been passed

    // What the positions i, i-1, ..., 0 still have to contribute.
    ghost function Remaining(scalar: seq<byte>, i: int): int
      requires |scalar| == 32 && i < 256
      requires nextCheck == 255 || 0 <= nextCheck <= i
      reads this
    {
      (if 0 <= nextIndex <= i then Shifted(nextDigit, nextIndex) else 0)
      + (if nextCheck == 255 then 0 else Signed(scalar, nextCheck))
    }

    // Ready for step i: no window is open beyond it.
    ghost predicate Ready(width: nat, i: int)
      requires width >= 1
      reads this
    {
      && (nextCheck == 255 || 0 <= nextCheck <= i)
      && (nextIndex >= 0 ==> nextDigit % 2 == 1 && 0 - Pow2(width - 1) < nextDigit < Pow2(width - 1))
      && (0 <= nextIndex <= i ==> nextCheck == 255 || nextCheck < nextIndex)
    }

    constructor (scalar: seq<byte>)
      requires |scalar| == 32 && Le(scalar) < Pow2(253)
      ensures 1 <= nextCheck <= 253 && forall width, i :: width >= 1 && nextCheck <= i ==> Ready(width, i)
      ensures forall i :: nextCheck <= i < 256 ==> Remaining(scalar, i) == Le(scalar)
    {
      hide Le, Pow2, BitAt;
      var i := 252;
      while i > 0 && BitAt(scalar, i) == 0
        invariant 0 <= i <= 252 && TopCheck(scalar, 252) == TopCheck(scalar, i)
      {
        i := i - 1;
      }
      nextCheck := i + 1;
      nextIndex := -1;
      nextDigit := -1;
      TopCheckIsTop(scalar, 252);
      SignedTop(scalar, i + 1);
    }

    // Looks for the next digit when position i is due; what remains is worth the same.
    method Check(width: nat, i: nat, scalar: seq<byte>)
      requires |scalar| == 32 && 2 <= width <= 5 && i <= 253 && Ready(width, i) && nextCheck == i
      modifies this
      ensures Ready(width, i) && nextCheck != i
      ensures Remaining(scalar, i) == old(Remaining(scalar, i))
    {
      hide Pow2, BitAt, Signed, WindowValue, Chunk, ShiftOf, Shifted;
      SignedBelow(scalar);
      if BitAt(scalar, i) == BitAt(scalar, i - 1) {
        SignedSkip(scalar, i);
        nextCheck := (nextCheck - 1) % 256;
      } else {
        var w := if width < i + 1 then width else i + 1;
        nextIndex, nextDigit := Open(scalar, i, w, width);
        nextCheck := (nextCheck - w) % 256;
      }
    }

    // The digit of a window, and its position.
    method Open(scalar: seq<byte>, i: nat, w: nat, width: nat) returns (at: int, digit: int)
      requires |scalar| == 32 && 2 <= width <= 5 && i <= 253 && BitAt(scalar, i) != BitAt(scalar, i - 1)
      requires w == if width < i + 1 then width else i + 1
      ensures i - w < at <= i && digit % 2 == 1 && 0 - Pow2(width - 1) < digit < Pow2(width - 1)
      ensures Shifted(digit, at) + Signed(scalar, i - w) == Signed(scalar, i)
    {
      hide Pow2, BitAt, Signed, WindowValue, Chunk, ShiftOf, Shifted;
      var v := Window(scalar, i, w);
      OpenWindow(scalar, i, w, width);
      var s := ShiftOf(v);
      at, digit := i - (w - 1) + s, v / Pow2(s);
    }

    /** The digit of position i. Together with what remains it is worth what remained before; a nonzero digit is odd and
        below 2^(width-1) in size, so that it names one of the 2^(width-2) points of its table. */
    method Step(width: nat, i: nat, scalar: seq<byte>) returns (digit: int)
      requires |scalar| == 32 && 2 <= width <= 5 && i <= 253 && Ready(width, i)
      modifies this
      ensures Ready(width, i - 1)
      ensures Shifted(digit, i) + Remaining(scalar, i - 1) == old(Remaining(scalar, i))
      ensures digit == 0 || (digit % 2 == 1 && 0 - Pow2(width - 1) < digit < Pow2(width - 1))
      ensures 0 <= TableIndex(digit) < Pow2(width - 2)
    {
      hide Pow2, BitAt, Signed, Shifted;
      ShiftedZero(i);
      if i == nextCheck {
        Check(width, i, scalar);
      }
      digit := if i == nextIndex then nextDigit else 0;
      Pow2Step(width - 2);
    }

    method Window(scalar: seq<byte>, i: nat, w: nat) returns (v: int)
      requires |scalar| == 32 && i <= 253 && 1 <= w <= i + 1
      ensures v == WindowValue(scalar, i, w)
    {
      hide Pow2, BitAt;
      v := 0 - BitAt(scalar, i) * Pow2(w - 1);
      ghost var v0 := v;
      ChunkEmpty(scalar, i - (w - 1));
      for j := 0 to w - 1
        invariant v == v0 + Chunk(scalar, i - (w - 1), j)
      {
        v := v + BitAt(scalar, i - (w - 1) + j) * Pow2(j);
      }
      v := v + BitAt(scalar, i - w);
    }
  }

  // The digit of a window, at the position of its lowest bit.
  lemma OpenWindow(scalar: seq<byte>, i: nat, w: nat, width: nat)
    requires |scalar| == 32 && 2 <= width <= 5 && i <= 253 && BitAt(scalar, i) != BitAt(scalar, i - 1)
    requires w == if width < i + 1 then width else i + 1
    ensures var v := WindowValue(scalar, i, w);
      && -16 <= v <= 16
      && (var s := ShiftOf(v);
          var d, at := v / Pow2(s), i - (w - 1) + s;
          && i - w < at <= i && d % 2 == 1 && 0 - Pow2(width - 1) < d < Pow2(width - 1)
          && Shifted(d, at) + Signed(scalar, i - w) == Signed(scalar, i))
  {
    hide Pow2, BitAt, Signed, WindowValue, Chunk, ShiftOf;
    var v := WindowValue(scalar, i, w);
    WindowIsSigned(scalar, i, w);
    WindowBound(scalar, i, w);
    DigitBound(v, w, width);
    var s := ShiftOf(v);
    Pow2Add(s, i - (w - 1));
    ShiftedDigit(v / Pow2(s), Pow2(s), Pow2(i - (w - 1)), v, Pow2(i - (w - 1) + s));
  }

  lemma SignedBelow(s: seq<byte>)
    requires |s| == 32
    ensures Signed(s, -1) == 0
  {
  }

  lemma ShiftedDigit(d: int, x: int, p: int, v: int, xp: int)
    requires xp == x * p && d * x == v
    ensures d * xp == v * p
  {
    MulAssoc(d, x, p);
  }

  /** The ladder of the signature check, with the two points replaced by their coefficients: doubling and adding the
      digits ends with exactly the two scalars, and every table index is in range. */
  method Ladder(h: seq<byte>, s: seq<byte>) returns (hSum: int, sSum: int)
    requires |h| == |s| == 32 && Le(h) < Pow2(253) && Le(s) < Pow2(253)
    ensures hSum == Le(h) && sSum == Le(s)
  {
    hide Pow2, Le, Signed;
    var hSlide := new Slide(h);
    var sSlide := new Slide(s);
    var i := if hSlide.nextCheck > sSlide.nextCheck then hSlide.nextCheck else sSlide.nextCheck;
    hSum, sSum := 0, 0;
    PowersOfTwo();
    while i >= 0
      invariant -1 <= i <= 253 && hSlide != sSlide
      invariant hSlide.Ready(3, i) && sSlide.Ready(5, i)
      invariant hSum * Pow2(i + 1) + hSlide.Remaining(h, i) == Le(h)
      invariant sSum * Pow2(i + 1) + sSlide.Remaining(s, i) == Le(s)
    {
      var hDigit := hSlide.Step(3, i, h);
      var sDigit := sSlide.Step(5, i, s);
      Pow2Step(i);
      LadderArith(hSum, hDigit, Pow2(i), Pow2(i + 1));
      LadderArith(sSum, sDigit, Pow2(i), Pow2(i + 1));
      hSum := 2 * hSum + hDigit;
      sSum := 2 * sSum + sDigit;
      assert TableIndex(hDigit) < 2 && TableIndex(sDigit) < 8;
      i := i - 1;
    }
    NothingLeft(hSlide, h);
    NothingLeft(sSlide, s);
  }

  lemma LadderArith(sum: int, digit: int, p: int, p2: int)
    requires p2 == 2 * p
    ensures (2 * sum + digit) * p == sum * p2 + digit * p
  {
  }

  lemma NothingLeft(slide: Slide, scalar: seq<byte>)
    requires |scalar| == 32 && (slide.nextCheck == 255 || 0 <= slide.nextCheck <= -1)
    ensures slide.Remaining(scalar, -1) == 0 && Pow2(0) == 1
  {
  }
}
