/** GF(2^8) as an abstract field. Codewords are elements of this type; `Add` is the exclusive or of the source and
    `Mul` the product that GfBits proves equal to table multiplication. */
module GaloisField {
  import GfBits
  import GfTables

  datatype Gf = Gf(v: bv8)

  const ZERO := Gf(0)
  const ONE := Gf(1)

  function Add(a: Gf, b: Gf): Gf { Gf(a.v ^ b.v) }

  function Mul(a: Gf, b: Gf): Gf { Gf(GfBits.Mul(a.v, b.v)) }

  // The powers of the generator.
  function Alpha(n: nat): Gf { Gf(GfBits.Alpha(n)) }

  function Pow(x: Gf, n: nat): Gf {
    if n == 0 then ONE else Mul(Pow(x, n - 1), x)
  }

  // The decoder's two tables.
  function Exp(i: nat): Gf
    requires i < 256
  {
    Gf(GfTables.ExpTable(i))
  }

  function Log(c: Gf): (l: nat)
    ensures l <= 255
  {
    GfTables.LogTable(c.v as int) as int
  }

  /* ---------- field laws ---------- */

  lemma AddZero(a: Gf) ensures Add(a, ZERO) == a && Add(ZERO, a) == a {}

  lemma AddSelf(a: Gf) ensures Add(a, a) == ZERO {}

  lemma AddCancel(a: Gf, b: Gf) ensures Add(Add(a, b), b) == a {}

  lemma AddComm(a: Gf, b: Gf) ensures Add(a, b) == Add(b, a) {}

  lemma AddAssoc(a: Gf, b: Gf, c: Gf) ensures Add(Add(a, b), c) == Add(a, Add(b, c)) {}

  lemma AddSwap(a: Gf, b: Gf, c: Gf, d: Gf) ensures Add(Add(a, b), Add(c, d)) == Add(Add(a, c), Add(b, d)) {}

  lemma AddZeroIsEqual(a: Gf, b: Gf) ensures Add(a, b) == ZERO <==> a == b {}

  lemma MulZero(x: Gf)
    ensures Mul(x, ZERO) == ZERO && Mul(ZERO, x) == ZERO
  {
    hide GfBits.Mul;
    GfBits.MulZero(x.v);
  }

  lemma MulOneLeft(x: Gf)
    ensures Mul(ONE, x) == x
  {
    hide GfBits.Mul;
    GfBits.MulOne(x.v);
  }

  lemma MulAddLeft(x: Gf, x': Gf, y: Gf)
    ensures Mul(Add(x, x'), y) == Add(Mul(x, y), Mul(x', y))
  {
    hide GfBits.Mul;
    GfBits.MulAddLeft(x.v, x'.v, y.v);
  }

  lemma MulAlpha(i: nat, j: nat)
    ensures Mul(Alpha(i), Alpha(j)) == Alpha(i + j)
  {
    hide GfBits.Mul, GfBits.Alpha;
    GfBits.MulAlpha(i, j);
  }

  lemma AlphaZero() ensures Alpha(0) == ONE {}

  lemma AlphaOne() ensures Alpha(1) == Gf(2) {}

  lemma AlphaNonZero(n: nat)
    ensures Alpha(n) != ZERO
  {
    hide GfBits.Alpha;
    GfBits.AlphaNonZero(n);
  }

  lemma AlphaPeriod(n: nat)
    ensures Alpha(n + 255) == Alpha(n)
  {
    hide GfBits.Alpha;
    GfBits.AlphaPeriod(n);
  }

  lemma {:induction false} AlphaMod(n: nat)
    ensures Alpha(n) == Alpha(n % 255)
  {
    hide Alpha;
    if n >= 255 {
      AlphaPeriod(n - 255);
      AlphaMod(n - 255);
    }
  }

  // The first 255 powers are distinct.
  lemma AlphaInjective(i: nat, j: nat)
    requires i < 255 && j < 255 && Alpha(i) == Alpha(j)
    ensures i == j
  {
    hide GfBits.Alpha;
    GfBits.AlphaLog(i);
    GfBits.AlphaLog(j);
  }

  // The exponent table holds the powers of the generator, and every nonzero element is the power its logarithm names.
  lemma ExpIsAlpha(i: nat)
    requires i <= 255
    ensures Exp(i) == Alpha(i)
  {
    hide GfTables.ExpTable, GfBits.Alpha;
    GfBits.ExpIsAlpha(i);
  }

  lemma LogIsLog(c: Gf)
    requires c != ZERO
    ensures Alpha(Log(c)) == c
  {
    hide GfTables.LogTable, GfBits.Alpha;
    GfBits.LogIsLog(c.v);
  }

  lemma MulComm(x: Gf, y: Gf)
    ensures Mul(x, y) == Mul(y, x)
  {
    hide *;
    MulZero(x);
    MulZero(y);
    if x != ZERO && y != ZERO {
      LogIsLog(x);
      LogIsLog(y);
      MulAlpha(Log(x), Log(y));
      MulAlpha(Log(y), Log(x));
    }
  }

  lemma MulAssoc(x: Gf, y: Gf, z: Gf)
    ensures Mul(Mul(x, y), z) == Mul(x, Mul(y, z))
  {
    hide *;
    if x == ZERO || y == ZERO || z == ZERO {
      MulZero(x);
      MulZero(y);
      MulZero(z);
      MulZero(Mul(y, z));
      MulZero(Mul(x, y));
    } else {
      var i, j, k := Log(x), Log(y), Log(z);
      LogIsLog(x);
      LogIsLog(y);
      LogIsLog(z);
      MulAlpha(i, j);
      MulAlpha(i + j, k);
      MulAlpha(j, k);
      MulAlpha(i, j + k);
    }
  }

  lemma MulOne(x: Gf)
    ensures Mul(x, ONE) == x && Mul(ONE, x) == x
  {
    hide *;
    MulOneLeft(x);
    MulComm(x, ONE);
  }

  lemma MulAdd(x: Gf, x': Gf, y: Gf)
    ensures Mul(Add(x, x'), y) == Add(Mul(x, y), Mul(x', y))
    ensures Mul(y, Add(x, x')) == Add(Mul(y, x), Mul(y, x'))
  {
    hide *;
    MulAddLeft(x, x', y);
    MulComm(x, y);
    MulComm(x', y);
    MulComm(Add(x, x'), y);
  }

  lemma MulNonZero(x: Gf, y: Gf)
    requires x != ZERO && y != ZERO
    ensures Mul(x, y) != ZERO
  {
    hide *;
    LogIsLog(x);
    LogIsLog(y);
    MulAlpha(Log(x), Log(y));
    AlphaNonZero(Log(x) + Log(y));
  }

  // Division is unique.
  lemma MulCancel(x: Gf, y: Gf, z: Gf)
    requires z != ZERO && Mul(x, z) == Mul(y, z)
    ensures x == y
  {
    hide *;
    MulAddLeft(x, y, z);
    AddSelf(Mul(x, z));
    AddZeroIsEqual(x, y);
    if Add(x, y) != ZERO { MulNonZero(Add(x, y), z); }
  }

  lemma {:induction false} PowAlpha(i: nat, n: nat)
    ensures Pow(Alpha(i), n) == Alpha(i * n)
  {
    hide Mul, Alpha;
    AlphaZero();
    if n > 0 {
      PowAlpha(i, n - 1);
      MulAlpha(i * (n - 1), i);
      assert i * (n - 1) + i == i * n;
    }
  }

  lemma PowStep(x: Gf, n: nat)
    ensures Pow(x, 0) == ONE
    ensures n > 0 ==> Pow(x, n) == Mul(Pow(x, n - 1), x)
  {
  }

  /* ---------- arithmetic through the tables ---------- */

  // exp[(log[c] + n) % 255] is c times the n-th power of the generator.
  lemma TableMulAlpha(c: Gf, n: nat)
    requires c != ZERO
    ensures Exp((Log(c) + n) % 255) == Mul(c, Alpha(n))
  {
    hide *;
    LogIsLog(c);
    MulAlpha(Log(c), n);
    AlphaMod(Log(c) + n);
    ExpIsAlpha((Log(c) + n) % 255);
  }

  // exp[(log[a] + log[b]) % 255] is the product of two nonzero elements.
  lemma TableMul(a: Gf, b: Gf)
    requires a != ZERO && b != ZERO
    ensures Exp((Log(a) + Log(b)) % 255) == Mul(a, b)
  {
    hide *;
    TableMulAlpha(a, Log(b));
    LogIsLog(b);
  }

  // exp[(255 - log[b] + log[d]) % 255] is the quotient of two nonzero elements.
  lemma TableDiv(d: Gf, b: Gf)
    requires d != ZERO && b != ZERO
    ensures Mul(Exp((255 - Log(b) + Log(d)) % 255), b) == d
  {
    hide *;
    var m, l := Log(b), Log(d);
    LogIsLog(b);
    LogIsLog(d);
    AlphaMod(255 - m + l);
    ExpIsAlpha((255 - m + l) % 255);
    MulAlpha(255 - m + l, m);
    AlphaPeriod(l);
  }

  // exp[(log[c] + log[x] * i) % 255] is the term c * x^i.
  lemma TableTerm(c: Gf, x: Gf, i: nat)
    requires c != ZERO && x != ZERO
    ensures Exp((Log(c) + Log(x) * i) % 255) == Mul(c, Pow(x, i))
  {
    hide *;
    TableMulAlpha(c, Log(x) * i);
    LogIsLog(x);
    PowAlpha(Log(x), i);
  }
}
