/** Where the encoder puts the alignment patterns, and why the decoder has to use
    the same list. */
module AlignmentCentres {
  import opened SymbolGeometry
  import opened Arithmetic

  function Count(version: nat): nat { version / 7 + 2 }

  function Step(version: nat): nat
    requires version >= 2
  {
    if version == 32 then 26 else (version * 4 + Count(version) * 2 + 1) / (Count(version) * 2 - 2) * 2
  }

  function Centre(version: nat, k: nat): int
    requires version >= 2
  {
    Size(version) - 7 - (Count(version) - 1 - k) * Step(version)
  }

  // The centres are evenly spaced but for the first gap.
  lemma StepBounds(version: nat)
    requires 2 <= version <= 40
    ensures Step(version) >= 5
    ensures (Count(version) - 2) * Step(version) + 11 <= Size(version) - 7
  {
    var n := Count(version);
    assert n == 2 || n == 3 || n == 4 || n == 5 || n == 6 || n == 7;
    if n == 2 {
    } else if n == 3 {
      assert Step(version) == (version * 4 + 7) / 4 * 2;
    } else if n == 4 {
      assert Step(version) == (version * 4 + 9) / 6 * 2;
    } else if n == 5 {
      assert Step(version) == (version * 4 + 11) / 8 * 2;
    } else if n == 6 {
      assert version != 32 ==> Step(version) == (version * 4 + 13) / 10 * 2;
    } else {
      assert Step(version) == (version * 4 + 15) / 12 * 2;
    }
  }

  // The list the encoder draws.
  ghost predicate EncoderCentres(version: nat, ps: seq<nat>)
    requires version >= 1
  {
    if version == 1 then ps == []
    else |ps| == Count(version) && ps[0] == 6 && forall k :: 1 <= k < |ps| ==> ps[k] == Centre(version, k)
  }

  lemma EncoderCentresUnique(version: nat, ps: seq<nat>, qs: seq<nat>)
    requires version >= 1 && EncoderCentres(version, ps) && EncoderCentres(version, qs)
    ensures ps == qs
  {
  }

  /** Centres in ascending order, the first on the timing patterns, the last but one
      clear of the version information. */
  ghost predicate Spaced(size: nat, ps: seq<nat>) {
    Listed(size, ps) && (|ps| >= 3 ==> ps[|ps| - 2] + 14 <= size) && (|ps| >= 2 ==> ps[|ps| - 1] + 7 == size)
  }

  lemma {:induction false} CentresApart(version: nat, a: nat, b: nat)
    requires 2 <= version <= 40 && 1 <= a < b < Count(version)
    ensures Centre(version, a) + 5 <= Centre(version, b)
    decreases b
  {
    hide Centre, Count, Step;
    CentreBounds(version, b);
    if a < b - 1 { CentresApart(version, a, b - 1); }
  }

  /** The list is fit for drawing and for reading. */
  lemma EncoderCentresSpaced(version: nat, ps: seq<nat>)
    requires 1 <= version <= 40 && EncoderCentres(version, ps)
    ensures Spaced(Size(version), ps) && |ps| == if version == 1 then 0 else Count(version)
  {
    hide Centre, Step, Count;
    if version > 1 {
      CountBound(version);
      forall k | 1 <= k < |ps| ensures 11 <= ps[k] <= Size(version) - 7 { CentreBounds(version, k); }
      forall a, b | 0 <= a < b < |ps| ensures ps[a] + 5 <= ps[b] {
        if a > 0 { CentresApart(version, a, b); }
      }
      CentreBounds(version, |ps| - 1);
      WideStep(version);
    }
  }

  lemma WideStep(version: nat)
    requires 2 <= version <= 40
    ensures Count(version) >= 3 ==> Step(version) >= 7
  {
    var n := Count(version);
    assert n == 2 || n == 3 || n == 4 || n == 5 || n == 6 || n == 7;
    if n == 3 {
      assert Step(version) == (version * 4 + 7) / 4 * 2;
    } else if n == 4 {
      assert Step(version) == (version * 4 + 9) / 6 * 2;
    } else if n == 5 {
      assert Step(version) == (version * 4 + 11) / 8 * 2;
    } else if n == 6 {
      assert version != 32 ==> Step(version) == (version * 4 + 13) / 10 * 2;
    } else if n == 7 {
      assert Step(version) == (version * 4 + 15) / 12 * 2;
    }
  }

  /** Counts down from the far end. */
  method AlignmentPositions(version: nat) returns (result: seq<nat>)
    requires 1 <= version <= 40
    ensures EncoderCentres(version, result)
  {
    hide Step, Count, Centre;
    if version == 1 {
      return [];
    }
    CountBound(version);
    var numAlign, step := Count(version), Step(version);
    result := [];
    var pos: int := Size(version) - 7;
    CentreBounds(version, numAlign - 1);
    for i := 0 to numAlign - 1
      invariant pos == Centre(version, numAlign - 1 - i) && |result| == i
      invariant forall k :: 0 <= k < i ==> result[k] == Centre(version, numAlign - i + k)
    {
      CentreBounds(version, numAlign - 1 - i);
      result := [pos] + result;
      pos := pos - step;
    }
    result := [6] + result;
  }

  lemma CentreBounds(version: nat, k: nat)
    requires 2 <= version <= 40 && 1 <= k < Count(version)
    ensures 11 <= Centre(version, k) <= Size(version) - 7 && Step(version) >= 5
    ensures Centre(version, k - 1) == Centre(version, k) - Step(version)
    ensures k == Count(version) - 1 ==> Centre(version, k) == Size(version) - 7
  {
    hide Step;
    StepBounds(version);
    CentreArithmetic(Size(version) - 7, Count(version), k, Step(version));
  }

  lemma CentreArithmetic(end: int, n: nat, k: nat, step: nat)
    requires 1 <= k < n && (n - 2) * step + 11 <= end
    ensures 11 <= end - (n - 1 - k) * step <= end
    ensures end - (n - 1 - (k - 1)) * step == end - (n - 1 - k) * step - step
  {
    MulMono(step, n - 1 - k, n - 2);
  }

  lemma CountBound(version: nat)
    requires 2 <= version <= 40
    ensures 2 <= Count(version) <= 7
  {
  }

  predicate Spread(ps: seq<nat>) {
    forall a, b :: 0 <= a < b < |ps| ==> ps[a] + 5 <= ps[b]
  }

  // -------------------------------------------------------------------
  // Agreement of two lists
  // -------------------------------------------------------------------

  predicate Listed(size: nat, ps: seq<nat>) {
    AlignmentOk(size, ps) && (ps != [] ==> ps[0] == 6)
  }

  predicate SameCells(version: nat, ps: seq<nat>, qs: seq<nat>) {
    forall x, y :: 0 <= x < Size(version) && 0 <= y < Size(version) ==>
      FunctionCell(version, ps, x, y) == FunctionCell(version, qs, x, y)
  }

  // Away from the other patterns only alignment patterns are function cells.
  predicate Open(x: nat, y: nat) { x >= 9 && y >= 9 }

  // On the row of the last centre every centre but the first shows.
  predicate NearCentre(ps: seq<nat>, x: nat) {
    exists a :: 1 <= a < |ps| && Distance(ps[a], x) <= 2
  }

  lemma LastRow(size: nat, ps: seq<nat>, x: nat)
    requires Listed(size, ps) && ps != [] && x >= 9
    ensures Alignment(ps, x, ps[|ps| - 1]) <==> NearCentre(ps, x)
  {
    var last := |ps| - 1;
    if NearCentre(ps, x) {
      var a :| 1 <= a < |ps| && Distance(ps[a], x) <= 2;
      assert InPattern(ps, a, last, x, ps[last]);
    }
  }

  lemma {:induction false} FirstDifference(ps: seq<nat>, qs: seq<nat>) returns (k: nat)
    requires ps != qs
    ensures k <= |ps| && k <= |qs| && ps[..k] == qs[..k]
    ensures k == |ps| || k == |qs| || ps[k] != qs[k]
    ensures k < |ps| || k < |qs|
  {
    k := 0;
    while k < |ps| && k < |qs| && ps[k] == qs[k]
      invariant k <= |ps| && k <= |qs| && ps[..k] == qs[..k]
    {
      k := k + 1;
    }
    assert k == |ps| ==> ps[..k] == ps;
    assert k == |qs| ==> qs[..k] == qs;
  }

  // A cell two before a centre of ps that qs lacks.
  lemma CellOfOne(ps: seq<nat>, qs: seq<nat>, k: nat)
    requires Spread(ps) && Spread(qs) && 1 <= k < |ps| && k <= |qs| && ps[..k] == qs[..k]
    requires (k < |qs| ==> ps[k] < qs[k]) && ps[k] >= 11
    ensures NearCentre(ps, ps[k] - 2) && !NearCentre(qs, ps[k] - 2)
  {
    assert Distance(ps[k], ps[k] - 2) <= 2;
    forall b | 1 <= b < |qs| ensures Distance(qs[b], ps[k] - 2) > 2 {
      if b < k {
        assert qs[b] == qs[..k][b] == ps[b];
      }
    }
  }

  lemma Witness(version: nat, ps: seq<nat>, qs: seq<nat>, x: nat, y: nat)
    requires 1 <= version && x < Size(version) && y < Size(version) && Open(x, y)
    requires Alignment(ps, x, y) != Alignment(qs, x, y)
    ensures !SameCells(version, ps, qs)
  {
    hide Alignment;
    assert FunctionCell(version, ps, x, y) != FunctionCell(version, qs, x, y);
  }

  lemma CornerDiffers(version: nat, ps: seq<nat>, qs: seq<nat>)
    requires 1 <= version && Listed(Size(version), ps) && Listed(Size(version), qs) && ps != []
    requires qs != [] ==> qs[|qs| - 1] < ps[|ps| - 1]
    ensures !SameCells(version, ps, qs)
  {
    var last := |ps| - 1;
    var p := ps[last] + 2;
    assert ps[0] + 5 <= ps[last];
    assert InPattern(ps, last, last, p, p);
    forall a: nat, b: nat | a < |qs| && b < |qs| ensures !InPattern(qs, a, b, p, p) {
      assert qs[a] <= qs[|qs| - 1];
    }
    assert FunctionCell(version, ps, p, p) && !FunctionCell(version, qs, p, p);
  }

  lemma RowDiffers(version: nat, ps: seq<nat>, qs: seq<nat>, k: nat)
    requires 1 <= version && Listed(Size(version), ps) && Listed(Size(version), qs) && ps != [] && qs != []
    requires ps[|ps| - 1] == qs[|qs| - 1]
    requires 1 <= k < |ps| && k <= |qs| && ps[..k] == qs[..k] && (k < |qs| ==> ps[k] < qs[k])
    ensures !SameCells(version, ps, qs)
  {
    hide Alignment;
    assert ps[0] + 5 <= ps[k];
    CellOfOne(ps, qs, k);
    LastRow(Size(version), ps, ps[k] - 2);
    LastRow(Size(version), qs, ps[k] - 2);
    assert ps[0] + 5 <= ps[|ps| - 1];
    Witness(version, ps, qs, ps[k] - 2, ps[|ps| - 1]);
  }

  /** Encoder and decoder agree on the free cells exactly when they use the same
      list of centres. */
  lemma AgreeOnlyIfSameList(version: nat, ps: seq<nat>, qs: seq<nat>)
    requires 1 <= version && Listed(Size(version), ps) && Listed(Size(version), qs)
    ensures SameCells(version, ps, qs) <==> ps == qs
  {
    hide SameCells;
    if ps == qs {
      assert SameCells(version, ps, qs) by { SameList(version, ps); }
    } else if ps == [] {
      CornerDiffers(version, qs, ps);
      Symmetric(version, ps, qs);
    } else if qs == [] || qs[|qs| - 1] < ps[|ps| - 1] {
      CornerDiffers(version, ps, qs);
    } else if ps[|ps| - 1] < qs[|qs| - 1] {
      CornerDiffers(version, qs, ps);
      Symmetric(version, ps, qs);
    } else {
      var k := FirstDifference(ps, qs);
      Symmetric(version, ps, qs);
      if k < |ps| && (k < |qs| ==> ps[k] < qs[k]) {
        RowDiffers(version, ps, qs, k);
      } else {
        RowDiffers(version, qs, ps, k);
      }
    }
  }

  lemma SameList(version: nat, ps: seq<nat>)
    ensures SameCells(version, ps, ps)
  {
  }

  lemma Symmetric(version: nat, ps: seq<nat>, qs: seq<nat>)
    ensures SameCells(version, ps, qs) == SameCells(version, qs, ps)
  {
  }

  /** Version 21: the encoder computes 94 where the decoder lists 92. */
  lemma Version21Differs()
    ensures Listed(Size(21), [6, 28, 50, 72, 94]) && Listed(Size(21), [6, 28, 50, 72, 92])
    ensures Count(21) == 5 && Centre(21, 1) == 28 && Centre(21, 2) == 50 && Centre(21, 3) == 72 && Centre(21, 4) == 94
    ensures !SameCells(21, [6, 28, 50, 72, 94], [6, 28, 50, 72, 92])
  {
    AgreeOnlyIfSameList(21, [6, 28, 50, 72, 94], [6, 28, 50, 72, 92]);
    assert [6, 28, 50, 72, 94][4] != [6, 28, 50, 72, 92][4];
  }
}
