/** GF(2^8) as both halves of the QR code use it: the encoder multiplies with the Russian-peasant loop,
    the decoder adds logarithms. `Mul` is the peasant product; every other way of multiplying is proved equal to it. */
module GfBits {
  import opened GfTables

  // Multiplication by x, modulo x^8 + x^4 + x^3 + x^2 + 1.
  // The bit shifted out comes back as 0x1d = 1 + 4 + 8 + 16.
  function XTime(z: bv8): bv8 {
    (z << 1) ^ (z >> 7) ^ ((z >> 7) << 2) ^ ((z >> 7) << 3) ^ ((z >> 7) << 4)
  }

  // The bits of y from k upward, and bit k itself.
  function Top(y: bv8, k: nat): bv8
    requires k <= 8
  {
    if k == 8 then 0 else y >> k
  }

  function Bit(y: bv8, k: nat): bool
    requires k < 8
  {
    Top(y, k) & 1 == 1
  }

  // The product of x and the bits 7..k of y, most significant bit first.
  function MulBits(x: bv8, y: bv8, k: nat): bv8
    requires k <= 8
    decreases 8 - k
  {
    if k == 8 then 0 else if Bit(y, k) then XTime(MulBits(x, y, k + 1)) ^ x else XTime(MulBits(x, y, k + 1))
  }

  function Mul(x: bv8, y: bv8): bv8 {
    MulBits(x, y, 0)
  }

  // The powers of the generator 0x02.
  function Alpha(n: nat): bv8 {
    if n == 0 then 1 else XTime(Alpha(n - 1))
  }

  /* ---------- the tables ---------- */

  // Cell i+1 of the two tables: the next power of the generator, and each other's inverse.
  predicate CellOk(i: int)
    requires 0 <= i < 255
  {
    && ExpTable(i + 1) == XTime(ExpTable(i))
    && LogTable(ExpTable(i + 1) as int) as int == i + 1
    && ExpTable(LogTable(i + 1) as int) as int == i + 1
  }

  predicate CellsOk(a: int, b: int)
    requires 0 <= a <= b <= 255
    decreases b - a
  {
    a == b || (CellOk(a) && CellsOk(a + 1, b))
  }

  lemma Cells0() ensures CellsOk(0, 8) {}
  lemma Cells8() ensures CellsOk(8, 16) {}
  lemma Cells16() ensures CellsOk(16, 24) {}
  lemma Cells24() ensures CellsOk(24, 32) {}
  lemma Cells32() ensures CellsOk(32, 40) {}
  lemma Cells40() ensures CellsOk(40, 48) {}
  lemma Cells48() ensures CellsOk(48, 56) {}
  lemma Cells56() ensures CellsOk(56, 64) {}
  lemma Cells64() ensures CellsOk(64, 72) {}
  lemma Cells72() ensures CellsOk(72, 80) {}
  lemma Cells80() ensures CellsOk(80, 88) {}
  lemma Cells88() ensures CellsOk(88, 96) {}
  lemma Cells96() ensures CellsOk(96, 104) {}
  lemma Cells104() ensures CellsOk(104, 112) {}
  lemma Cells112() ensures CellsOk(112, 120) {}
  lemma Cells120() ensures CellsOk(120, 128) {}
  lemma Cells128() ensures CellsOk(128, 136) {}
  lemma Cells136() ensures CellsOk(136, 144) {}
  lemma Cells144() ensures CellsOk(144, 152) {}
  lemma Cells152() ensures CellsOk(152, 160) {}
  lemma Cells160() ensures CellsOk(160, 168) {}
  lemma Cells168() ensures CellsOk(168, 176) {}
  lemma Cells176() ensures CellsOk(176, 184) {}
  lemma Cells184() ensures CellsOk(184, 192) {}
  lemma Cells192() ensures CellsOk(192, 200) {}
  lemma Cells200() ensures CellsOk(200, 208) {}
  lemma Cells208() ensures CellsOk(208, 216) {}
  lemma Cells216() ensures CellsOk(216, 224) {}
  lemma Cells224() ensures CellsOk(224, 232) {}
  lemma Cells232() ensures CellsOk(232, 240) {}
  lemma Cells240() ensures CellsOk(240, 248) {}
  lemma Cells248() ensures CellsOk(248, 255) {}

  lemma Quarter0(a: int, b: int)
    requires 0 <= a < 64 && a % 8 == 0 && b == (if a == 248 then 255 else a + 8)
    ensures CellsOk(a, b)
  {
    hide *;
    match a {
      case 0 => Cells0();
      case 8 => Cells8();
      case 16 => Cells16();
      case 24 => Cells24();
      case 32 => Cells32();
      case 40 => Cells40();
      case 48 => Cells48();
      case _ => Cells56();
    }
  }

  lemma Quarter1(a: int, b: int)
    requires 64 <= a < 128 && a % 8 == 0 && b == (if a == 248 then 255 else a + 8)
    ensures CellsOk(a, b)
  {
    hide *;
    match a {
      case 64 => Cells64();
      case 72 => Cells72();
      case 80 => Cells80();
      case 88 => Cells88();
      case 96 => Cells96();
      case 104 => Cells104();
      case 112 => Cells112();
      case _ => Cells120();
    }
  }

  lemma Quarter2(a: int, b: int)
    requires 128 <= a < 192 && a % 8 == 0 && b == (if a == 248 then 255 else a + 8)
    ensures CellsOk(a, b)
  {
    hide *;
    match a {
      case 128 => Cells128();
      case 136 => Cells136();
      case 144 => Cells144();
      case 152 => Cells152();
      case 160 => Cells160();
      case 168 => Cells168();
      case 176 => Cells176();
      case _ => Cells184();
    }
  }

  lemma Quarter3(a: int, b: int)
    requires 192 <= a < 256 && a % 8 == 0 && b == (if a == 248 then 255 else a + 8)
    ensures CellsOk(a, b)
  {
    hide *;
    match a {
      case 192 => Cells192();
      case 200 => Cells200();
      case 208 => Cells208();
      case 216 => Cells216();
      case 224 => Cells224();
      case 232 => Cells232();
      case 240 => Cells240();
      case _ => Cells248();
    }
  }

  lemma {:induction false} CellsAt(a: int, b: int, i: int)
    requires 0 <= a <= i < b <= 255 && CellsOk(a, b)
    ensures CellOk(i)
    decreases i - a
  {
    hide CellOk;
    if a < i { CellsAt(a + 1, b, i); }
  }

  lemma TablesOk(i: int)
    requires 0 <= i < 255
    ensures ExpTable(i + 1) == XTime(ExpTable(i))
    ensures LogTable(ExpTable(i + 1) as int) as int == i + 1
    ensures ExpTable(LogTable(i + 1) as int) as int == i + 1
  {
    hide ExpTable, LogTable, XTime, CellsOk;
    var a := i / 8 * 8;
    var b := if a == 248 then 255 else a + 8;
    if a < 64 { Quarter0(a, b); } else if a < 128 { Quarter1(a, b); } else if a < 192 { Quarter2(a, b); } else { Quarter3(a, b); }
    CellsAt(a, b, i);
  }

  // The exponent table holds the powers of the generator, whose order divides 255.
  lemma {:induction false} ExpIsAlpha(i: nat)
    requires i <= 255
    ensures ExpTable(i) == Alpha(i)
  {
    if i > 0 {
      ExpIsAlpha(i - 1);
      TablesOk(i - 1);
    }
  }

  /* ---------- the field laws ---------- */

  lemma XTimeLinear(a: bv8, b: bv8)
    ensures XTime(a ^ b) == XTime(a) ^ XTime(b)
    ensures XTime(0) == 0
  {
  }

  lemma MulBitsStep(x: bv8, y: bv8, k: nat)
    requires k <= 8
    ensures k == 8 ==> MulBits(x, y, k) == 0
    ensures k < 8 && Bit(y, k) ==> MulBits(x, y, k) == XTime(MulBits(x, y, k + 1)) ^ x
    ensures k < 8 && !Bit(y, k) ==> MulBits(x, y, k) == XTime(MulBits(x, y, k + 1))
  {
    hide XTime, Bit;
  }

  lemma {:induction false} MulBitsLinear(x: bv8, x': bv8, y: bv8, k: nat)
    requires k <= 8
    ensures MulBits(x ^ x', y, k) == MulBits(x, y, k) ^ MulBits(x', y, k)
    decreases 8 - k
  {
    hide *;
    MulBitsStep(x, y, k);
    MulBitsStep(x', y, k);
    MulBitsStep(x ^ x', y, k);
    if k < 8 {
      MulBitsLinear(x, x', y, k + 1);
      XTimeLinear(MulBits(x, y, k + 1), MulBits(x', y, k + 1));
    }
  }

  lemma {:induction false} MulBitsXTime(x: bv8, y: bv8, k: nat)
    requires k <= 8
    ensures MulBits(XTime(x), y, k) == XTime(MulBits(x, y, k))
    decreases 8 - k
  {
    hide *;
    MulBitsStep(x, y, k);
    MulBitsStep(XTime(x), y, k);
    XTimeLinear(0, 0);
    if k < 8 {
      MulBitsXTime(x, y, k + 1);
      XTimeLinear(XTime(MulBits(x, y, k + 1)), x);
    }
  }

  lemma TopStep(y: bv8, k: nat)
    requires k < 8
    ensures Bit(y, k) ==> XTime(Top(y, k + 1)) ^ 1 == Top(y, k)
    ensures !Bit(y, k) ==> XTime(Top(y, k + 1)) == Top(y, k)
    ensures Top(y, 8) == 0 && Top(y, 0) == y
  {
  }

  lemma {:induction false} MulOneBits(y: bv8, k: nat)
    requires k <= 8
    ensures MulBits(1, y, k) == Top(y, k)
    decreases 8 - k
  {
    hide *;
    MulBitsStep(1, y, k);
    if k < 8 {
      MulOneBits(y, k + 1);
      TopStep(y, k);
    } else {
      TopStep(y, 0);
    }
  }

  lemma MulOne(y: bv8)
    ensures Mul(1, y) == y
  {
    MulOneBits(y, 0);
    TopStep(y, 0);
  }

  lemma {:induction false} MulBitsZero(x: bv8, y: bv8, k: nat)
    requires k <= 8 && (x == 0 || y == 0)
    ensures MulBits(x, y, k) == 0
    decreases 8 - k
  {
    if k < 8 { MulBitsZero(x, y, k + 1); }
  }

  lemma MulZero(x: bv8)
    ensures Mul(x, 0) == 0 && Mul(0, x) == 0
  {
    MulBitsZero(x, 0, 0);
    MulBitsZero(0, x, 0);
  }

  // alpha^i * alpha^j == alpha^(i+j)
  lemma {:induction false} MulAlpha(i: nat, j: nat)
    ensures Mul(Alpha(i), Alpha(j)) == Alpha(i + j)
  {
    if i == 0 {
      MulOne(Alpha(j));
    } else {
      MulAlpha(i - 1, j);
      MulBitsXTime(Alpha(i - 1), Alpha(j), 0);
    }
  }

  lemma {:induction false} AlphaPeriod(n: nat)
    ensures Alpha(n + 255) == Alpha(n)
  {
    if n == 0 { ExpIsAlpha(255); } else { AlphaPeriod(n - 1); }
  }

  // Every nonzero element is a power of the generator, and the logarithm table names the power.
  lemma LogIsLog(c: bv8)
    requires c != 0
    ensures Alpha(LogTable(c as int) as int) == c
  {
    hide ExpTable, LogTable, XTime, Alpha;
    TablesOk(c as int - 1);
    var l := LogTable(c as int) as int;
    assert ExpTable(l) as int == c as int;
    ExpIsAlpha(l);
  }

  lemma AlphaLog(i: nat)
    requires i < 255
    ensures LogTable(Alpha(i) as int) as int == if i == 0 then 255 else i
  {
    if i == 0 {
    } else {
      hide *;
      ExpIsAlpha(i);
      TablesOk(i - 1);
    }
  }

  lemma MulAddLeft(x: bv8, x': bv8, y: bv8)
    ensures Mul(x ^ x', y) == Mul(x, y) ^ Mul(x', y)
  {
    hide MulBits;
    MulBitsLinear(x, x', y, 0);
  }

  lemma XTimeNonZero(z: bv8)
    requires z != 0
    ensures XTime(z) != 0
  {
  }

  lemma {:induction false} AlphaNonZero(n: nat)
    ensures Alpha(n) != 0
  {
    hide XTime;
    if n > 0 {
      AlphaNonZero(n - 1);
      XTimeNonZero(Alpha(n - 1));
    }
  }
}
