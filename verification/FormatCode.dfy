/** The two short error-correcting codes of a QR symbol: fifteen bits of format
    information and eighteen bits of version information, annexes C and D of
    ISO/IEC 18004. */
module FormatCode {
  import opened Options

  // The word with bit j alone.
  function Place(j: nat): bv32
    requires j < 18
  {
    match j
    case 0 => 0x1
    case 1 => 0x2
    case 2 => 0x4
    case 3 => 0x8
    case 4 => 0x10
    case 5 => 0x20
    case 6 => 0x40
    case 7 => 0x80
    case 8 => 0x100
    case 9 => 0x200
    case 10 => 0x400
    case 11 => 0x800
    case 12 => 0x1000
    case 13 => 0x2000
    case 14 => 0x4000
    case 15 => 0x8000
    case 16 => 0x10000
    case _ => 0x20000
  }

  predicate Bit(u: bv32, j: nat)
    requires j < 18
  {
    u & Place(j) != 0
  }

  // The lowest n bits, in order.
  function LowBits(u: bv32, n: nat): (bits: seq<bool>)
    requires n <= 18
    ensures |bits| == n && forall j :: 0 <= j < n ==> bits[j] == Bit(u, j)
  {
    seq(n, j requires 0 <= j < n => Bit(u, j))
  }

  // -------------------------------------------------------------------
  // Encoding
  // -------------------------------------------------------------------

  // The two bits that name a level, and back.
  function LevelCode(level: nat): (c: bv32)
    requires level < 4
    ensures c < 4
  {
    match level
    case 0 => 1
    case 1 => 0
    case 2 => 3
    case _ => 2
  }

  function CodedLevel(c: bv32): (level: nat)
    ensures level < 4
  {
    if c == 1 then 0 else if c == 0 then 1 else if c == 3 then 2 else 3
  }

  function MaskCode(mask: nat): (c: bv32)
    requires mask < 8
    ensures c < 8
  {
    match mask
    case 0 => 0
    case 1 => 1
    case 2 => 2
    case 3 => 3
    case 4 => 4
    case 5 => 5
    case 6 => 6
    case _ => 7
  }

  function CodedMask(c: bv32): (mask: nat)
    ensures mask < 8
  {
    if c == 0 then 0 else if c == 1 then 1 else if c == 2 then 2 else if c == 3 then 3
    else if c == 4 then 4 else if c == 5 then 5 else if c == 6 then 6 else 7
  }

  // The five data bits of a word, the level and the mask in them.
  function DataOf(u: bv32): bv32 { u >> 10 }

  function LevelOf(d: bv32): (level: nat)
    ensures level < 4
  {
    CodedLevel(d >> 3)
  }

  function MaskOf(d: bv32): (mask: nat)
    ensures mask < 8
  {
    CodedMask(d & 7)
  }

  function FormatData(level: nat, mask: nat): (d: bv32)
    requires level < 4 && mask < 8
    ensures d < 32 && LevelOf(d) == level && MaskOf(d) == mask
  {
    (LevelCode(level) << 3) | MaskCode(mask)
  }

  function Scaled(g: bv32, q: bv32): bv32 { q * g }

  function FormatStep(rem: bv32): bv32 { (rem << 1) ^ Scaled(0x537, rem >> 9) }

  function FormatRem(data: bv32, n: nat): bv32
    decreases n
  {
    if n == 0 then data else FormatStep(FormatRem(data, n - 1))
  }

  function Codeword(data: bv32): bv32 { (data << 10) | FormatRem(data, 10) }

  function FormatWord(level: nat, mask: nat): bv32
    requires level < 4 && mask < 8
  {
    Whitened(Codeword(FormatData(level, mask)))
  }

  // The fixed pattern over every format word.
  function Whitened(u: bv32): bv32 { u ^ 0x5412 }

  lemma WhitenedTwice(u: bv32)
    ensures Whitened(Whitened(u)) == u && (u < 0x8000 ==> Whitened(u) < 0x8000)
  {
  }

  /** The fifteen format bits, bit 0 first. */
  function FormatBits(level: nat, mask: nat): (bits: seq<bool>)
    requires level < 4 && mask < 8
    ensures |bits| == 15
  {
    LowBits(FormatWord(level, mask), 15)
  }

  lemma NextFormatRem(data: bv32, n: nat)
    ensures FormatRem(data, 0) == data && FormatRem(data, n + 1) == FormatStep(FormatRem(data, n))
  {
    hide FormatStep;
  }

  /** The shift register of the encoder. */
  method ComputeFormat(level: nat, mask: nat) returns (bits: bv32)
    requires level < 4 && mask < 8
    ensures bits == FormatWord(level, mask)
  {
    hide FormatStep, FormatRem;
    var data := (LevelCode(level) << 3) | MaskCode(mask);
    var rem := data;
    NextFormatRem(data, 0);
    for i := 0 to 10
      invariant rem == FormatRem(data, i)
    {
      NextFormatRem(data, i);
      rem := FormatStep(rem);
    }
    bits := Whitened((data << 10) | rem);
  }

  // -------------------------------------------------------------------
  // Checking: six syndromes over GF(16)
  // -------------------------------------------------------------------

  function Exp16(k: nat): bv8
    requires k < 15
  {
    match k
    case 0 => 0x1
    case 1 => 0x2
    case 2 => 0x4
    case 3 => 0x8
    case 4 => 0x3
    case 5 => 0x6
    case 6 => 0xc
    case 7 => 0xb
    case 8 => 0x5
    case 9 => 0xa
    case 10 => 0x7
    case 11 => 0xe
    case 12 => 0xf
    case 13 => 0xd
    case _ => 0x9
  }

  function Plus(a: bv8, b: bv8): bv8 { a ^ b }

  function Term(u: bv32, place: bv32, e: bv8): bv8 { if u & place != 0 then e else 0 }

  function Factor(i: nat, j: nat): bv8 { Exp16((i + 1) * j % 15) }

  function Syndrome(u: bv32, i: nat, n: nat): bv8
    requires n <= 15
    decreases n
  {
    if n == 0 then 0
    else Plus(Syndrome(u, i, n - 1), Term(u, Place(n - 1), Factor(i, n - 1)))
  }

  predicate Clear(u: bv32, i: nat) { Syndrome(u, i, 15) == 0 }

  predicate FormatOk(u: bv32) {
    forall i: nat :: i < 6 ==> Clear(u, i)
  }

  method FormatSyndromes(u: bv32) returns (nonzero: bool)
    ensures nonzero <==> !FormatOk(u)
  {
    hide Factor, Place, Term, Plus;
    nonzero := false;
    for i := 0 to 6
      invariant nonzero <==> !(forall k: nat :: k < i ==> Clear(u, k))
    {
      var s: bv8 := 0;
      for j := 0 to 15
        invariant s == Syndrome(u, i, j)
      {
        s := Plus(s, Term(u, Place(j), Factor(i, j)));
      }
      assert Clear(u, i) <==> s == 0;
      if s != 0 {
        nonzero := true;
      }
    }
  }

  /** A word without syndromes is taken as it is, any other is repaired first;
      `repair` flips the bits at the roots of the locator. */
  method CorrectFormat(u: bv32, repair: bv32 -> bv32) returns (r: Option<bv32>)
    ensures FormatOk(u) ==> r == Some(u)
    ensures r.Some? ==> FormatOk(r.value) && (r.value == u || r.value == repair(u))
  {
    hide FormatOk;
    var nonzero := FormatSyndromes(u);
    if !nonzero {
      return Some(u);
    }
    nonzero := FormatSyndromes(repair(u));
    r := if nonzero then None else Some(repair(u));
  }

  // -------------------------------------------------------------------
  // The code
  // -------------------------------------------------------------------

  // One step of the division by x^10 + x^8 + x^5 + x^4 + x^2 + x + 1.
  function Divided(r: bv32): bv32 { if r & 0x200 != 0 then (r << 1) ^ 0x537 else r << 1 }

  lemma DividedBelow(r: bv32)
    requires r < 0x400
    ensures Divided(r) < 0x400
  {
  }

  lemma ScaledByBit(g: bv32, q: bv32)
    requires q == 0 || q == 1
    ensures Scaled(g, q) == if q == 1 then g else 0
  {
  }

  lemma TopBit(r: bv32)
    requires r < 0x400
    ensures r >> 9 == if r & 0x200 != 0 then 1 else 0
  {
  }

  lemma StepDivides(r: bv32)
    requires r < 0x400
    ensures FormatStep(r) == Divided(r) && Divided(r) < 0x400
  {
    hide Scaled;
    TopBit(r);
    ScaledByBit(0x537, r >> 9);
    DividedBelow(r);
  }

  function Ten(d: bv32): bv32 {
    Divided(Divided(Divided(Divided(Divided(Divided(Divided(Divided(Divided(Divided(d))))))))))
  }

  lemma {:induction false} RemSteps(d: bv32, n: nat)
    requires d < 32
    ensures FormatRem(d, n) < 0x400
    ensures FormatRem(d, n + 1) == Divided(FormatRem(d, n))
  {
    hide FormatStep, Divided;
    if n > 0 {
      RemSteps(d, n - 1);
      StepDivides(FormatRem(d, n - 1));
    }
    StepDivides(FormatRem(d, n));
  }

  lemma RemIsTen(d: bv32)
    requires d < 32
    ensures FormatRem(d, 10) == Ten(d) && Codeword(d) == ((d << 10) | Ten(d))
  {
    hide FormatStep, Divided;
    RemSteps(d, 0);
    RemSteps(d, 1);
    RemSteps(d, 2);
    RemSteps(d, 3);
    RemSteps(d, 4);
    RemSteps(d, 5);
    RemSteps(d, 6);
    RemSteps(d, 7);
    RemSteps(d, 8);
    RemSteps(d, 9);
  }

  // A syndrome with its terms written out.
  function Sum15(u: bv32, e0: bv8, e1: bv8, e2: bv8, e3: bv8, e4: bv8, e5: bv8, e6: bv8, e7: bv8, e8: bv8, e9: bv8, e10: bv8, e11: bv8, e12: bv8, e13: bv8, e14: bv8): bv8 {
    Plus(Plus(Plus(Plus(Plus(Plus(Plus(Plus(Plus(Plus(Plus(Plus(Plus(Plus(Plus(0, Term(u, 0x1, e0)), Term(u, 0x2, e1)), Term(u, 0x4, e2)), Term(u, 0x8, e3)), Term(u, 0x10, e4)), Term(u, 0x20, e5)), Term(u, 0x40, e6)), Term(u, 0x80, e7)), Term(u, 0x100, e8)), Term(u, 0x200, e9)), Term(u, 0x400, e10)), Term(u, 0x800, e11)), Term(u, 0x1000, e12)), Term(u, 0x2000, e13)), Term(u, 0x4000, e14))
  }

  lemma Exps()
    ensures Exp16(0) == 1 && Exp16(1) == 2 && Exp16(2) == 4 && Exp16(3) == 8 && Exp16(4) == 3 && Exp16(5) == 6 && Exp16(6) == 12 && Exp16(7) == 11
    ensures Exp16(8) == 5 && Exp16(9) == 10 && Exp16(10) == 7 && Exp16(11) == 14 && Exp16(12) == 15 && Exp16(13) == 13 && Exp16(14) == 9
  {
  }

  lemma SyndromeStep(u: bv32, i: nat, n: nat, place: bv32)
    requires n < 15 && place == Place(n)
    ensures Syndrome(u, i, n + 1) == Plus(Syndrome(u, i, n), Term(u, place, Factor(i, n))) && Syndrome(u, i, 0) == 0
  {
    hide Plus, Term, Factor;
  }

  lemma SyndromeIs(u: bv32, i: nat)
    ensures Syndrome(u, i, 15) == Sum15(u, Factor(i, 0), Factor(i, 1), Factor(i, 2), Factor(i, 3), Factor(i, 4), Factor(i, 5), Factor(i, 6), Factor(i, 7), Factor(i, 8), Factor(i, 9), Factor(i, 10), Factor(i, 11), Factor(i, 12), Factor(i, 13), Factor(i, 14))
  {
    hide Syndrome, Term, Plus, Factor;
    SyndromeStep(u, i, 0, 0x1);
    SyndromeStep(u, i, 1, 0x2);
    SyndromeStep(u, i, 2, 0x4);
    SyndromeStep(u, i, 3, 0x8);
    SyndromeStep(u, i, 4, 0x10);
    SyndromeStep(u, i, 5, 0x20);
    SyndromeStep(u, i, 6, 0x40);
    SyndromeStep(u, i, 7, 0x80);
    SyndromeStep(u, i, 8, 0x100);
    SyndromeStep(u, i, 9, 0x200);
    SyndromeStep(u, i, 10, 0x400);
    SyndromeStep(u, i, 11, 0x800);
    SyndromeStep(u, i, 12, 0x1000);
    SyndromeStep(u, i, 13, 0x2000);
    SyndromeStep(u, i, 14, 0x4000);
  }

  function Check0(u: bv32): bv8 {
    Sum15(u, 1, 2, 4, 8, 3, 6, 12, 11, 5, 10, 7, 14, 15, 13, 9)
  }

  lemma Syndrome0(u: bv32)
    ensures Syndrome(u, 0, 15) == Check0(u)
  {
    hide Syndrome, Sum15, Exp16;
    Exps();
    SyndromeIs(u, 0);
  }

  function Check1(u: bv32): bv8 {
    Sum15(u, 1, 4, 3, 12, 5, 7, 15, 9, 2, 8, 6, 11, 10, 14, 13)
  }

  lemma Syndrome1(u: bv32)
    ensures Syndrome(u, 1, 15) == Check1(u)
  {
    hide Syndrome, Sum15, Exp16;
    Exps();
    SyndromeIs(u, 1);
  }

  function Check2(u: bv32): bv8 {
    Sum15(u, 1, 8, 12, 10, 15, 1, 8, 12, 10, 15, 1, 8, 12, 10, 15)
  }

  lemma Syndrome2(u: bv32)
    ensures Syndrome(u, 2, 15) == Check2(u)
  {
    hide Syndrome, Sum15, Exp16;
    Exps();
    SyndromeIs(u, 2);
  }

  function Check3(u: bv32): bv8 {
    Sum15(u, 1, 3, 5, 15, 2, 6, 10, 13, 4, 12, 7, 9, 8, 11, 14)
  }

  lemma Syndrome3(u: bv32)
    ensures Syndrome(u, 3, 15) == Check3(u)
  {
    hide Syndrome, Sum15, Exp16;
    Exps();
    SyndromeIs(u, 3);
  }

  function Check4(u: bv32): bv8 {
    Sum15(u, 1, 6, 7, 1, 6, 7, 1, 6, 7, 1, 6, 7, 1, 6, 7)
  }

  lemma Syndrome4(u: bv32)
    ensures Syndrome(u, 4, 15) == Check4(u)
  {
    hide Syndrome, Sum15, Exp16;
    Exps();
    SyndromeIs(u, 4);
  }

  function Check5(u: bv32): bv8 {
    Sum15(u, 1, 12, 15, 8, 10, 1, 12, 15, 8, 10, 1, 12, 15, 8, 10)
  }

  lemma Syndrome5(u: bv32)
    ensures Syndrome(u, 5, 15) == Check5(u)
  {
    hide Syndrome, Sum15, Exp16;
    Exps();
    SyndromeIs(u, 5);
  }

  lemma OkIsChecks(u: bv32)
    ensures FormatOk(u) <==> Check0(u) == 0 && Check1(u) == 0 && Check2(u) == 0 && Check3(u) == 0 && Check4(u) == 0 && Check5(u) == 0
  {
    hide Syndrome, Check0, Check1, Check2, Check3, Check4, Check5;
    Syndrome0(u);
    Syndrome1(u);
    Syndrome2(u);
    Syndrome3(u);
    Syndrome4(u);
    Syndrome5(u);
    assert Clear(u, 0) == (Check0(u) == 0) && Clear(u, 1) == (Check1(u) == 0) && Clear(u, 2) == (Check2(u) == 0);
    assert Clear(u, 3) == (Check3(u) == 0) && Clear(u, 4) == (Check4(u) == 0) && Clear(u, 5) == (Check5(u) == 0);
  }

  lemma TenChecks(d: bv32)
    requires d < 32
    ensures var u := (d << 10) | Ten(d); u < 0x8000 && u >> 10 == d && Check0(u) == 0 && Check1(u) == 0 && Check2(u) == 0
  {
  }

  lemma TenChecksMore(d: bv32)
    requires d < 32
    ensures var u := (d << 10) | Ten(d); Check3(u) == 0 && Check4(u) == 0 && Check5(u) == 0
  {
  }

  // Ten bits below the generator's degree are no codeword unless they are zero.
  lemma NoneBelow(r: bv32)
    requires r < 0x400 && Check0(r) == 0 && Check2(r) == 0 && Check4(r) == 0
    ensures r == 0
  {
  }

  lemma BitXor(u: bv32, v: bv32, j: nat)
    requires j < 18
    ensures ((u ^ v) & Place(j) != 0) == ((u & Place(j) != 0) != (v & Place(j) != 0))
  {
  }

  lemma PlusFour(a: bv8, b: bv8, c: bv8, d: bv8)
    ensures Plus(Plus(a, b), Plus(c, d)) == Plus(Plus(a, c), Plus(b, d)) && Plus(a, a) == 0 && Plus(a, 0) == a && Plus(0, a) == a
  {
  }

  lemma TermXor(u: bv32, v: bv32, j: nat, e: bv8)
    requires j < 15
    ensures Term(u ^ v, Place(j), e) == Plus(Term(u, Place(j), e), Term(v, Place(j), e))
  {
    hide Place;
    BitXor(u, v, j);
  }

  lemma {:induction false} SyndromeXor(u: bv32, v: bv32, i: nat, n: nat)
    requires n <= 15
    ensures Syndrome(u ^ v, i, n) == Plus(Syndrome(u, i, n), Syndrome(v, i, n))
  {
    hide Plus, Factor, Place, Term;
    if n == 0 {
      PlusFour(0, 0, 0, 0);
    } else {
      var e, p := Factor(i, n - 1), Place(n - 1);
      SyndromeXor(u, v, i, n - 1);
      TermXor(u, v, n - 1, e);
      PlusFour(Syndrome(u, i, n - 1), Term(u, p, e), Syndrome(v, i, n - 1), Term(v, p, e));
    }
  }

  // Codewords form a group.
  lemma OkXor(u: bv32, v: bv32)
    requires FormatOk(u) && FormatOk(v)
    ensures FormatOk(u ^ v)
  {
    hide Syndrome;
    var w := u ^ v;
    forall i: nat | i < 6 ensures Clear(w, i) {
      assert Clear(u, i) && Clear(v, i);
      SyndromeXor(u, v, i, 15);
    }
  }

  /** The encoder's words are those without syndromes: what the shift register
      appends makes every one of them vanish, */
  lemma CodewordOk(d: bv32)
    requires d < 32
    ensures Codeword(d) < 0x8000 && DataOf(Codeword(d)) == d && FormatOk(Codeword(d))
  {
    hide Codeword, Ten, FormatOk, Check0, Check1, Check2, Check3, Check4, Check5;
    RemIsTen(d);
    TenChecks(d);
    TenChecksMore(d);
    OkIsChecks(Codeword(d));
  }

  lemma SameTop(u: bv32, c: bv32)
    requires u < 0x8000 && c < 0x8000 && DataOf(c) == DataOf(u)
    ensures u ^ c < 0x400 && (u ^ c == 0 ==> u == c)
  {
  }

  lemma DataBelow(u: bv32)
    requires u < 0x8000
    ensures DataOf(u) < 32
  {
  }

  /** and no other word passes. */
  lemma OkIsCodeword(u: bv32)
    requires u < 0x8000 && FormatOk(u)
    ensures DataOf(u) < 32 && u == Codeword(DataOf(u))
  {
    hide Codeword, DataOf, FormatOk, Check0, Check1, Check2, Check3, Check4, Check5;
    DataBelow(u);
    var c := Codeword(DataOf(u));
    CodewordOk(DataOf(u));
    OkXor(u, c);
    SameTop(u, c);
    OkIsChecks(u ^ c);
    NoneBelow(u ^ c);
  }

  // -------------------------------------------------------------------
  // Distance
  // -------------------------------------------------------------------

  function One(u: bv32, place: bv32): nat { if u & place != 0 then 1 else 0 }

  // How many of the lowest n bits are set.
  function Weight(u: bv32, n: nat): nat
    requires n <= 18
    decreases n
  {
    if n == 0 then 0 else Weight(u, n - 1) + One(u, Place(n - 1))
  }

  lemma {:induction false} WeightXor(u: bv32, v: bv32, n: nat)
    requires n <= 18
    ensures Weight(u ^ v, n) <= Weight(u, n) + Weight(v, n)
  {
    hide Place;
    if n > 0 {
      WeightXor(u, v, n - 1);
      BitXor(u, v, n - 1);
    }
  }

  lemma WeightStep(u: bv32, n: nat)
    requires n < 18
    ensures Weight(u, n + 1) == Weight(u, n) + One(u, Place(n)) && Weight(u, 0) == 0
  {
    hide One;
  }

  function Ones15(u: bv32): nat {
    One(u, Place(0)) + One(u, Place(1)) + One(u, Place(2)) + One(u, Place(3)) + One(u, Place(4)) + One(u, Place(5)) + One(u, Place(6)) + One(u, Place(7)) + One(u, Place(8)) + One(u, Place(9)) + One(u, Place(10)) + One(u, Place(11)) + One(u, Place(12)) + One(u, Place(13)) + One(u, Place(14))
  }

  function Ones18(u: bv32): nat { Ones15(u) + One(u, Place(15)) + One(u, Place(16)) + One(u, Place(17)) }

  lemma WeightIsOnes(u: bv32)
    ensures Weight(u, 15) == Ones15(u) && Weight(u, 18) == Ones18(u)
  {
    hide Weight, One;
    WeightStep(u, 0);
    WeightStep(u, 1);
    WeightStep(u, 2);
    WeightStep(u, 3);
    WeightStep(u, 4);
    WeightStep(u, 5);
    WeightStep(u, 6);
    WeightStep(u, 7);
    WeightStep(u, 8);
    WeightStep(u, 9);
    WeightStep(u, 10);
    WeightStep(u, 11);
    WeightStep(u, 12);
    WeightStep(u, 13);
    WeightStep(u, 14);
    WeightStep(u, 15);
    WeightStep(u, 16);
    WeightStep(u, 17);
  }

  lemma OnesTen(d: bv32)
    requires d < 32
    ensures d != 0 ==> Ones15((d << 10) | Ten(d)) >= 7
  {
  }

  // A codeword that is not zero has seven bits.
  lemma OkWeight(w: bv32)
    requires w < 0x8000 && w != 0 && FormatOk(w)
    ensures Weight(w, 15) >= 7
  {
    hide FormatOk, Weight, Ten, Codeword, Ones15, DataOf;
    OkIsCodeword(w);
    var d := DataOf(w);
    RemIsTen(d);
    ZeroWord();
    OnesTen(d);
    WeightIsOnes(w);
  }

  lemma XorBelow(u: bv32, v: bv32)
    requires u < 0x8000 && v < 0x8000
    ensures u ^ v < 0x8000 && (u != v ==> u ^ v != 0)
  {
  }

  /** Different format words differ in at least seven bits, */
  lemma FormatDistance(u: bv32, v: bv32)
    requires u < 0x8000 && v < 0x8000 && FormatOk(u) && FormatOk(v) && u != v
    ensures Weight(u ^ v, 15) >= 7
  {
    hide FormatOk, Weight;
    OkXor(u, v);
    XorBelow(u, v);
    OkWeight(u ^ v);
  }

  lemma ZeroWord()
    ensures Codeword(0) == 0
  {
    RemIsTen(0);
  }

  /** so that at most one of them is within three bits of what was read. */
  lemma RepairUnambiguous(read: bv32, u: bv32, v: bv32)
    requires u < 0x8000 && v < 0x8000 && FormatOk(u) && FormatOk(v)
    requires Weight(read ^ u, 15) <= 3 && Weight(read ^ v, 15) <= 3
    ensures u == v
  {
    hide FormatOk, Weight;
    WeightXor(read ^ u, read ^ v, 15);
    assert (read ^ u) ^ (read ^ v) == u ^ v;
    if u != v { FormatDistance(u, v); }
  }

  // -------------------------------------------------------------------
  // The version
  // -------------------------------------------------------------------

  function VersionStep(rem: bv32): bv32 { (rem << 1) ^ Scaled(0x1F25, rem >> 11) }

  function VersionRem(data: bv32, n: nat): bv32
    decreases n
  {
    if n == 0 then data else VersionStep(VersionRem(data, n - 1))
  }

  function VersionWord(version: nat): bv32
    requires version <= 40
  {
    WithRemainder(version as bv32)
  }

  function VersionBits(version: nat): (bits: seq<bool>)
    requires version <= 40
    ensures |bits| == 18
  {
    LowBits(VersionWord(version), 18)
  }

  function WithRemainder(data: bv32): bv32 { (data << 12) | VersionRem(data, 12) }

  method ComputeVersion(version: nat) returns (bits: bv32)
    requires version <= 40
    ensures bits == VersionWord(version)
  {
    bits := AppendRemainder(version as bv32);
  }

  lemma NextVersionRem(data: bv32, n: nat)
    ensures VersionRem(data, 0) == data && VersionRem(data, n + 1) == VersionStep(VersionRem(data, n))
  {
    hide VersionStep;
  }

  method AppendRemainder(data: bv32) returns (bits: bv32)
    ensures bits == WithRemainder(data)
  {
    hide VersionStep, VersionRem, WithRemainder;
    var rem := data;
    NextVersionRem(data, 0);
    for i := 0 to 12
      invariant rem == VersionRem(data, i)
    {
      NextVersionRem(data, i);
      rem := VersionStep(rem);
    }
    bits := (data << 12) | rem;
    RemainderAppended(data, rem);
  }

  lemma RemainderAppended(data: bv32, rem: bv32)
    requires rem == VersionRem(data, 12)
    ensures (data << 12) | rem == WithRemainder(data)
  {
    hide VersionStep, VersionRem;
  }

  // One step of the division by x^12 + x^11 + x^10 + x^9 + x^8 + x^5 + x^2 + 1.
  function Reduced(r: bv32): bv32 { if r & 0x800 != 0 then (r << 1) ^ 0x1F25 else r << 1 }

  lemma TopBit12(r: bv32)
    requires r < 0x1000
    ensures r >> 11 == if r & 0x800 != 0 then 1 else 0
  {
  }

  lemma ReducedBelow(r: bv32)
    requires r < 0x1000
    ensures Reduced(r) < 0x1000
  {
  }

  lemma StepReduces(r: bv32)
    requires r < 0x1000
    ensures VersionStep(r) == Reduced(r) && Reduced(r) < 0x1000
  {
    hide Scaled;
    TopBit12(r);
    ScaledByBit(0x1F25, r >> 11);
    ReducedBelow(r);
  }

  lemma {:induction false} VersionSteps(d: bv32, n: nat)
    requires d < 64
    ensures VersionRem(d, n) < 0x1000
    ensures VersionRem(d, n + 1) == Reduced(VersionRem(d, n))
  {
    hide VersionStep, Reduced;
    if n > 0 {
      VersionSteps(d, n - 1);
      StepReduces(VersionRem(d, n - 1));
    }
    StepReduces(VersionRem(d, n));
  }

  function Twelve(d: bv32): bv32 {
    Reduced(Reduced(Reduced(Reduced(Reduced(Reduced(Reduced(Reduced(Reduced(Reduced(Reduced(Reduced(d))))))))))))
  }

  lemma RemIsTwelve(d: bv32)
    requires d < 64
    ensures VersionRem(d, 12) == Twelve(d)
  {
    hide VersionStep, Reduced;
    VersionSteps(d, 0);
    VersionSteps(d, 1);
    VersionSteps(d, 2);
    VersionSteps(d, 3);
    VersionSteps(d, 4);
    VersionSteps(d, 5);
    VersionSteps(d, 6);
    VersionSteps(d, 7);
    VersionSteps(d, 8);
    VersionSteps(d, 9);
    VersionSteps(d, 10);
    VersionSteps(d, 11);
  }

  // Long division of the word by the generator leaves nothing.
  function Cut(u: bv32, top: bv32, g: bv32): bv32 { if u & top != 0 then u ^ g else u }

  predicate Divisible(u: bv32) {
    Cut(Cut(Cut(Cut(Cut(Cut(u, 0x20000, 0x3E4A0), 0x10000, 0x1F250), 0x8000, 0xF928), 0x4000, 0x7C94), 0x2000, 0x3E4A), 0x1000, 0x1F25) == 0
  }

  lemma TwelveDivides(d: bv32)
    requires d < 64
    ensures var u := (d << 12) | Twelve(d); u < 0x40000 && u >> 12 == d && Divisible(u)
  {
  }

  lemma OnesTwelveLow(d: bv32)
    requires 0 < d < 32
    ensures Ones18((d << 12) | Twelve(d)) >= 8
  {
  }

  lemma OnesTwelveHigh(d: bv32)
    requires 32 <= d < 64
    ensures Ones18((d << 12) | Twelve(d)) >= 8
  {
  }

  lemma OnesTwelve(d: bv32)
    requires 0 < d < 64
    ensures Ones18((d << 12) | Twelve(d)) >= 8
  {
    hide Ones18, Twelve;
    if d < 32 { OnesTwelveLow(d); } else { OnesTwelveHigh(d); }
  }

  lemma VersionBelow(version: nat)
    requires version <= 40
    ensures version as bv32 < 64
  {
  }

  /** The version's number, followed by what makes the word a multiple of the
      generator. */
  lemma VersionWordOk(version: nat)
    requires version <= 40
    ensures var u := VersionWord(version);
      && u < 0x40000 && u >> 12 == version as bv32 && Divisible(u)
      && (version > 0 ==> Weight(u, 18) >= 8)
  {
    hide VersionRem, Twelve, Divisible, Weight, Ones18;
    VersionBelow(version);
    var d := version as bv32;
    RemIsTwelve(d);
    TwelveDivides(d);
    WeightIsOnes(VersionWord(version));
    if version > 0 { OnesTwelve(d); }
  }

  // -------------------------------------------------------------------
  // Reading a word, bit by bit
  // -------------------------------------------------------------------

  function Push(w: bv32, bit: bool): bv32 { (w << 1) | (if bit then 1 else 0) }

  // The word of the first n bits, the highest first.
  function FromBits(bits: seq<bool>, n: nat): bv32
    requires n <= |bits|
  {
    if n == 0 then 0 else Push(FromBits(bits, n - 1), bits[n - 1])
  }

  lemma PushStep(bits: seq<bool>, n: nat)
    requires n < |bits|
    ensures FromBits(bits, n + 1) == Push(FromBits(bits, n), bits[n]) && FromBits(bits, 0) == 0
  {
    hide Push;
  }

  lemma FifteenBits(bits: seq<bool>)
    requires |bits| == 15
    ensures FromBits(bits, 15) == Push(Push(Push(Push(Push(Push(Push(Push(Push(Push(Push(Push(Push(Push(Push(0, bits[0]), bits[1]), bits[2]), bits[3]), bits[4]), bits[5]), bits[6]), bits[7]), bits[8]), bits[9]), bits[10]), bits[11]), bits[12]), bits[13]), bits[14])
  {
    hide Push, FromBits;
    PushStep(bits, 0);
    PushStep(bits, 1);
    PushStep(bits, 2);
    PushStep(bits, 3);
    PushStep(bits, 4);
    PushStep(bits, 5);
    PushStep(bits, 6);
    PushStep(bits, 7);
    PushStep(bits, 8);
    PushStep(bits, 9);
    PushStep(bits, 10);
    PushStep(bits, 11);
    PushStep(bits, 12);
    PushStep(bits, 13);
    PushStep(bits, 14);
  }

  lemma Assembled(w: bv32)
    requires w < 0x8000
    ensures Push(Push(Push(Push(Push(Push(Push(Push(Push(Push(Push(Push(Push(Push(Push(0, w & 0x4000 != 0), w & 0x2000 != 0), w & 0x1000 != 0), w & 0x800 != 0), w & 0x400 != 0), w & 0x200 != 0), w & 0x100 != 0), w & 0x80 != 0), w & 0x40 != 0), w & 0x20 != 0), w & 0x10 != 0), w & 0x8 != 0), w & 0x4 != 0), w & 0x2 != 0), w & 0x1 != 0) == w
  {
  }

  // Bits from the highest down, as the decoder reads them.
  function Descending(w: bv32): (bits: seq<bool>)
    ensures |bits| == 15 && forall k :: 0 <= k < 15 ==> bits[k] == Bit(w, 14 - k)
  {
    seq(15, k requires 0 <= k < 15 => Bit(w, 14 - k))
  }

  lemma ReadsBack(w: bv32)
    requires w < 0x8000
    ensures FromBits(Descending(w), 15) == w
  {
    hide Push, FromBits;
    FifteenBits(Descending(w));
    Assembled(w);
  }

  // Fifteen bits make a word below 2^15.
  lemma FifteenBelow(bits: seq<bool>)
    requires |bits| == 15
    ensures FromBits(bits, 15) < 0x8000
  {
    hide FromBits;
    FifteenBits(bits);
  }

  // The pattern comes off again.
  lemma FormatWordIs(level: nat, mask: nat)
    requires level < 4 && mask < 8
    ensures var d := FormatData(level, mask);
      && FormatWord(level, mask) < 0x8000 && Whitened(FormatWord(level, mask)) == Codeword(d)
      && FormatOk(Codeword(d)) && DataOf(Codeword(d)) == d
  {
    hide Codeword, FormatOk, FormatData, Whitened, DataOf, LevelOf, MaskOf;
    CodewordOk(FormatData(level, mask));
    WhitenedTwice(Codeword(FormatData(level, mask)));
  }

  // Five bits are a level and a mask.
  lemma DataIs(d: bv32)
    requires d < 32
    ensures FormatData(LevelOf(d), MaskOf(d)) == d
  {
  }

  /** What a successful check leaves is the word of the level and the mask read
      off it. */
  lemma OkIsFormat(u: bv32)
    requires u < 0x8000 && FormatOk(u)
    ensures FormatWord(LevelOf(DataOf(u)), MaskOf(DataOf(u))) == Whitened(u)
  {
    hide Codeword, FormatOk, FormatData, LevelOf, MaskOf, DataOf, Whitened;
    OkIsCodeword(u);
    DataIs(DataOf(u));
  }
}
