/** How many modules of a symbol are free for codewords. */
module ModuleCount {
  import opened SymbolGeometry
  import opened AlignmentCentres
  import opened Arithmetic

  // -------------------------------------------------------------------
  // Rectangles
  // -------------------------------------------------------------------

  ghost function Strip(x0: nat, n: nat, y: nat): (s: set<Cell>)
    ensures |s| == n
    ensures forall c :: c in s <==> c.y == y && x0 <= c.x < x0 + n
  {
    if n == 0 then {} else Strip(x0, n - 1, y) + {Cell(x0 + n - 1, y)}
  }

  ghost function Rect(x0: nat, n: nat, y0: nat, m: nat): (s: set<Cell>)
    ensures |s| == n * m
    ensures forall c :: c in s <==> x0 <= c.x < x0 + n && y0 <= c.y < y0 + m
  {
    if m == 0 then {}
    else
      assert n * m == n * (m - 1) + n;
      Rect(x0, n, y0, m - 1) + Strip(x0, n, y0 + m - 1)
  }

  lemma Disjoint(a: set<Cell>, b: set<Cell>)
    requires a !! b
    ensures |a + b| == |a| + |b|
  {
  }

  lemma Disjoint3(a: set<Cell>, b: set<Cell>, c: set<Cell>)
    requires a !! b && a !! c && b !! c
    ensures |a + b + c| == |a| + |b| + |c|
  {
    Disjoint(a, b);
    Disjoint(a + b, c);
  }

  // -------------------------------------------------------------------
  // Alignment patterns, without the cells they share with the timing patterns
  // -------------------------------------------------------------------

  ghost predicate Margins(ps: seq<nat>) {
    forall a :: 0 <= a < |ps| ==> ps[a] >= 2
  }

  ghost function PatternCells(ps: seq<nat>, a: nat, b: nat): (s: set<Cell>)
    requires Margins(ps) && a < |ps| && b < |ps|
  {
    if b == 0 then Rect(ps[a] - 2, 5, ps[b] - 2, 2) + Rect(ps[a] - 2, 5, ps[b] + 1, 2)
    else if a == 0 then Rect(ps[a] - 2, 2, ps[b] - 2, 5) + Rect(ps[a] + 1, 2, ps[b] - 2, 5)
    else Rect(ps[a] - 2, 5, ps[b] - 2, 5)
  }

  lemma PatternCellsAre(size: nat, ps: seq<nat>, a: nat, b: nat)
    requires Listed(size, ps) && Margins(ps) && a < |ps| && b < |ps| && !OnFinderCorner(|ps|, a, b)
    ensures |PatternCells(ps, a, b)| == if a == 0 || b == 0 then 20 else 25
    ensures forall c :: c in PatternCells(ps, a, b) <==> InPattern(ps, a, b, c.x, c.y) && !Timing(c.x, c.y)
  {
    hide Rect;
    assert a > 0 ==> ps[0] + 5 <= ps[a];
    assert b > 0 ==> ps[0] + 5 <= ps[b];
    if b == 0 {
      Disjoint(Rect(ps[a] - 2, 5, ps[b] - 2, 2), Rect(ps[a] - 2, 5, ps[b] + 1, 2));
    } else if a == 0 {
      Disjoint(Rect(ps[a] - 2, 2, ps[b] - 2, 5), Rect(ps[a] + 1, 2, ps[b] - 2, 5));
    }
  }

  ghost function AlignmentCells(ps: seq<nat>, i: nat, j: nat): (s: set<Cell>)
    requires Margins(ps) && i <= |ps| && j <= |ps| && (i == |ps| ==> j == 0)
    decreases i, j
  {
    if j > 0 then AlignmentCells(ps, i, j - 1) + if OnFinderCorner(|ps|, i, j - 1) then {} else PatternCells(ps, i, j - 1)
    else if i > 0 then AlignmentCells(ps, i - 1, |ps|)
    else {}
  }

  function PatternCount(n: nat, i: nat, j: nat): nat
    decreases i, j
  {
    if j > 0 then PatternCount(n, i, j - 1) + (if OnFinderCorner(n, i, j - 1) then 0 else if i == 0 || j == 1 then 20 else 25)
    else if i > 0 then PatternCount(n, i - 1, n)
    else 0
  }

  // The cells drawn so far, off the timing patterns.
  ghost predicate DrawnCells(ps: seq<nat>, i: nat, j: nat, s: set<Cell>) {
    forall c :: c in s <==> AlignmentUpTo(ps, i, j, c.x, c.y) && !Timing(c.x, c.y)
  }

  lemma {:induction false} AlignmentCellsAre(size: nat, ps: seq<nat>, i: nat, j: nat)
    requires Listed(size, ps) && Margins(ps) && i <= |ps| && j <= |ps| && (i == |ps| ==> j == 0)
    ensures DrawnCells(ps, i, j, AlignmentCells(ps, i, j))
    ensures |AlignmentCells(ps, i, j)| == PatternCount(|ps|, i, j)
    decreases i, j
  {
    hide DrawnCells, PatternCells, Listed, Margins;
    if j > 0 {
      AlignmentCellsAre(size, ps, i, j - 1);
      OnePattern(size, ps, i, j - 1, AlignmentCells(ps, i, j - 1));
    } else if i > 0 {
      AlignmentCellsAre(size, ps, i - 1, |ps|);
      NextRowOfPatterns(ps, i - 1, AlignmentCells(ps, i - 1, |ps|));
    } else {
      NoPatternYet(ps);
    }
  }

  lemma OnePattern(size: nat, ps: seq<nat>, i: nat, j: nat, s: set<Cell>)
    requires Listed(size, ps) && Margins(ps) && i < |ps| && j < |ps| && DrawnCells(ps, i, j, s)
    ensures OnFinderCorner(|ps|, i, j) ==> DrawnCells(ps, i, j + 1, s + {}) && |s + {}| == |s|
    ensures !OnFinderCorner(|ps|, i, j) ==>
      && DrawnCells(ps, i, j + 1, s + PatternCells(ps, i, j))
      && |s + PatternCells(ps, i, j)| == |s| + if i == 0 || j == 0 then 20 else 25
  {
    hide AlignmentUpTo, InPattern, PatternCells, Listed, Margins, Timing, OnFinderCorner;
    forall x: nat, y: nat { AlignmentStep(ps, i, j, x, y); }
    assert s + {} == s;
    if OnFinderCorner(|ps|, i, j) {
      CornerIsEmpty(ps, i, j);
    } else {
      PatternCellsAre(size, ps, i, j);
      var more := PatternCells(ps, i, j);
      forall c | c in more ensures c !in s {
        NotYetDrawn(size, ps, i, j, c.x, c.y);
      }
      Disjoint(s, more);
    }
  }

  lemma NextRowOfPatterns(ps: seq<nat>, i: nat, s: set<Cell>)
    requires i < |ps| && DrawnCells(ps, i, |ps|, s)
    ensures DrawnCells(ps, i + 1, 0, s)
  {
    hide AlignmentUpTo, Timing;
    forall x: nat, y: nat { AlignmentRow(ps, i, x, y); }
  }

  lemma NoPatternYet(ps: seq<nat>)
    ensures DrawnCells(ps, 0, 0, {})
  {
    hide AlignmentUpTo, Timing;
    forall x: nat, y: nat { AlignmentAll(ps, x, y); }
  }

  lemma CornerIsEmpty(ps: seq<nat>, a: nat, b: nat)
    requires a < |ps| && b < |ps| && OnFinderCorner(|ps|, a, b)
    ensures forall x: nat, y: nat :: !InPattern(ps, a, b, x, y)
  {
  }

  // Patterns do not overlap.
  lemma NotYetDrawn(size: nat, ps: seq<nat>, i: nat, j: nat, x: nat, y: nat)
    requires Listed(size, ps) && i < |ps| && j < |ps| && InPattern(ps, i, j, x, y)
    ensures !AlignmentUpTo(ps, i, j, x, y)
  {
    forall a: nat, b: nat | a < |ps| && b < |ps| && (a < i || (a == i && b < j)) ensures !InPattern(ps, a, b, x, y) {
      if a < i { assert ps[a] + 5 <= ps[i]; } else { assert ps[b] + 5 <= ps[j]; }
    }
  }

  // Cells of one row of patterns.
  function RowCount(n: nat, i: nat, j: nat): int
    requires n >= 2 && i < n && j <= n
  {
    if j == 0 then 0
    else if i == 0 then (if j == n then 20 * (n - 2) else 20 * (j - 1))
    else if i == n - 1 then 25 * (j - 1)
    else 20 + 25 * (j - 1)
  }

  lemma {:induction false} RowCounted(n: nat, i: nat, j: nat)
    requires n >= 2 && i < n && j <= n
    ensures PatternCount(n, i, j) == PatternCount(n, i, 0) + RowCount(n, i, j)
  {
    if j > 0 { RowCounted(n, i, j - 1); }
  }

  lemma {:induction false} RowsCounted(n: nat, i: nat)
    requires n >= 2 && 1 <= i < n
    ensures PatternCount(n, i, 0) == 20 * (n - 2) + (i - 1) * (25 * n - 5)
  {
    RowCounted(n, i - 1, n);
    if i > 1 {
      RowsCounted(n, i - 1);
      assert (i - 1) * (25 * n - 5) == (i - 2) * (25 * n - 5) + (25 * n - 5);
    }
  }

  lemma AllPatterns(n: nat)
    requires n >= 2
    ensures PatternCount(n, n, 0) == (25 * n - 10) * n - 55
  {
    RowsCounted(n, n - 1);
    RowCounted(n, n - 1, n);
    assert (n - 2) * (25 * n - 5) == 25 * (n * n) - 55 * n + 10;
    assert (25 * n - 10) * n == 25 * (n * n) - 10 * n;
  }

  // -------------------------------------------------------------------
  // All function modules
  // -------------------------------------------------------------------

  // Finder patterns with their separators and the format information.
  ghost predicate InCorner(size: nat, x: nat, y: nat) {
    || (x <= 8 && y <= 8)
    || (size <= x + 8 && x < size && y <= 8)
    || (x <= 8 && size <= y + 8 && y < size)
  }

  // Timing patterns between the corners.
  ghost predicate OnTimingLine(size: nat, x: nat, y: nat) {
    (y == 6 && 9 <= x && x + 8 < size) || (x == 6 && 9 <= y && y + 8 < size)
  }

  ghost function Corners(size: nat): (s: set<Cell>)
    requires size >= 21
  {
    Rect(0, 9, 0, 9) + Rect(size - 8, 8, 0, 9) + Rect(0, 9, size - 8, 8)
  }

  lemma CornersAre(size: nat)
    requires size >= 21
    ensures |Corners(size)| == 225
    ensures forall c :: c in Corners(size) <==> InCorner(size, c.x, c.y)
  {
    hide InCorner, Rect;
    forall c: Cell ensures c in Corners(size) <==> InCorner(size, c.x, c.y) { CornerCell(size, c); }
    var a, b, c := Rect(0, 9, 0, 9), Rect(size - 8, 8, 0, 9), Rect(0, 9, size - 8, 8);
    assert a !! b;
    assert a !! c;
    assert b !! c;
    Disjoint3(a, b, c);
  }

  lemma CornerCell(size: nat, c: Cell)
    requires size >= 21
    ensures c in Corners(size) <==> InCorner(size, c.x, c.y)
  {
    hide Rect;
  }

  ghost function TimingLines(size: nat): (s: set<Cell>)
    requires size >= 21
    ensures |s| == 2 * (size - 17)
    ensures forall c :: c in s <==> OnTimingLine(size, c.x, c.y)
  {
    var a, b := Rect(9, size - 17, 6, 1), Rect(6, 1, 9, size - 17);
    Disjoint(a, b);
    a + b
  }

  ghost function VersionCells(version: nat, size: nat): (s: set<Cell>)
    requires size >= 21
    ensures |s| == if version >= 7 then 36 else 0
    ensures forall c :: c in s <==> VersionInfo(version, size, c.x, c.y)
  {
    if version < 7 then {}
    else
      var a, b := Rect(size - 11, 3, 0, 6), Rect(0, 6, size - 11, 3);
      Disjoint(a, b);
      a + b
  }

  ghost predicate FixedCell(version: nat, size: nat, x: nat, y: nat) {
    x < size && y < size &&
    (Timing(x, y) || Finder(size, x, y) || FormatInfo(size, x, y) || VersionInfo(version, size, x, y))
  }

  // The three kinds of fixed cells, told apart.
  lemma FixedSplit(version: nat, size: nat, x: nat, y: nat)
    requires size == Size(version) && version >= 1
    ensures FixedCell(version, size, x, y) <==> InCorner(size, x, y) || OnTimingLine(size, x, y) || VersionInfo(version, size, x, y)
    ensures !(InCorner(size, x, y) && OnTimingLine(size, x, y))
    ensures VersionInfo(version, size, x, y) ==> !InCorner(size, x, y) && !OnTimingLine(size, x, y)
  {
  }

  ghost function FixedCells(version: nat): (s: set<Cell>)
    requires version >= 1
  {
    Corners(Size(version)) + TimingLines(Size(version)) + VersionCells(version, Size(version))
  }

  lemma FixedCellsAre(version: nat)
    requires version >= 1
    ensures |FixedCells(version)| == 225 + 2 * (Size(version) - 17) + (if version >= 7 then 36 else 0)
    ensures forall c :: c in FixedCells(version) <==> FixedCell(version, Size(version), c.x, c.y)
  {
    hide Corners, TimingLines, VersionCells, InCorner, OnTimingLine, VersionInfo, FixedCell;
    var size := Size(version);
    forall x: nat, y: nat
      ensures FixedCell(version, size, x, y) <==> InCorner(size, x, y) || OnTimingLine(size, x, y) || VersionInfo(version, size, x, y)
      ensures !(InCorner(size, x, y) && OnTimingLine(size, x, y))
      ensures VersionInfo(version, size, x, y) ==> !InCorner(size, x, y) && !OnTimingLine(size, x, y)
    {
      FixedSplit(version, size, x, y);
    }
    CornersAre(size);
    Disjoint3(Corners(size), TimingLines(size), VersionCells(version, size));
  }

  // Alignment patterns stay clear of everything but the timing patterns.
  lemma AlignmentIsClear(version: nat, ps: seq<nat>, x: nat, y: nat)
    requires version >= 1 && Spaced(Size(version), ps) && Alignment(ps, x, y) && !Timing(x, y)
    ensures x < Size(version) && y < Size(version)
    ensures !Finder(Size(version), x, y) && !FormatInfo(Size(version), x, y) && !VersionInfo(version, Size(version), x, y)
  {
    var n := |ps|;
    var a: nat, b: nat :| a < n && b < n && InPattern(ps, a, b, x, y);
    assert a > 0 ==> ps[0] + 5 <= ps[a];
    assert b > 0 ==> ps[0] + 5 <= ps[b];
    if a < n - 1 { Clear(Size(version), ps, a); }
    if b < n - 1 { Clear(Size(version), ps, b); }
  }

  lemma Clear(size: nat, ps: seq<nat>, a: nat)
    requires Spaced(size, ps) && a + 1 < |ps|
    ensures a > 0 ==> ps[a] + 14 <= size
  {
    if 0 < a < |ps| - 2 { assert ps[a] + 5 <= ps[|ps| - 2]; }
  }

  ghost function PathSet(path: seq<Cell>): (s: set<Cell>) {
    set c | c in path
  }

  lemma {:induction false} PathSetSize(path: seq<Cell>)
    requires Distinct(path)
    ensures |PathSet(path)| == |path|
  {
    if path != [] {
      var init, last := path[..|path| - 1], path[|path| - 1];
      PathSetSize(init);
      assert PathSet(path) == PathSet(init) + {last};
    }
  }

  /** getNumRawDataModules */
  function RawDataModules(version: nat): int {
    var result := (16 * version + 128) * version + 64;
    if version < 2 then result
    else
      var n := version / 7 + 2;
      result - ((25 * n - 10) * n - 55) - (if version >= 7 then 36 else 0)
  }

  // The fixed cells and the alignment cells make up the function modules.
  lemma ReservedAre(version: nat, ps: seq<nat>, reserved: set<Cell>)
    requires version >= 1 && Spaced(Size(version), ps) && Margins(ps)
    requires reserved == FixedCells(version) + AlignmentCells(ps, |ps|, 0)
    ensures forall c :: c in reserved <==> c.x < Size(version) && c.y < Size(version) && FunctionCell(version, ps, c.x, c.y)
    ensures |reserved| == |FixedCells(version)| + PatternCount(|ps|, |ps|, 0)
  {
    hide Alignment, AlignmentUpTo, AlignmentCells, FixedCells, Finder, FormatInfo, VersionInfo, PatternCount, Timing, Margins;
    FixedCellsAre(version);
    AlignmentCellsAre(Size(version), ps, |ps|, 0);
    forall x: nat, y: nat ensures AlignmentUpTo(ps, |ps|, 0, x, y) == Alignment(ps, x, y) { AlignmentAll(ps, x, y); }
    forall c: Cell | Alignment(ps, c.x, c.y) && !Timing(c.x, c.y)
      ensures c.x < Size(version) && c.y < Size(version) && c !in FixedCells(version)
    {
      AlignmentIsClear(version, ps, c.x, c.y);
    }
    Disjoint(FixedCells(version), AlignmentCells(ps, |ps|, 0));
  }

  /** The formula counts the free cells exactly, for every version. */
  lemma FreeCellsCounted(version: nat, ps: seq<nat>)
    requires 1 <= version <= 40 && Spaced(Size(version), ps)
    requires |ps| == if version == 1 then 0 else Count(version)
    ensures |FullPath(version, ps)| == RawDataModules(version)
  {
    hide FunctionCell, PatternCount, FullPath, AlignmentCells, FixedCells;
    FixedCellsAre(version);
    var reserved := FixedCells(version) + AlignmentCells(ps, |ps|, 0);
    ReservedAre(version, ps, reserved);
    FreeAndReserved(version, ps, reserved);
    if version > 1 { AllPatterns(Count(version)); } else { NoPatterns(); }
    Squared(version);
  }

  lemma FreeAndReserved(version: nat, ps: seq<nat>, reserved: set<Cell>)
    requires version >= 1
    requires forall c :: c in reserved <==> c.x < Size(version) && c.y < Size(version) && FunctionCell(version, ps, c.x, c.y)
    ensures |FullPath(version, ps)| + |reserved| == Size(version) * Size(version)
  {
    hide FunctionCell, FullPath, Rect;
    var all, path := Rect(0, Size(version), 0, Size(version)), FullPath(version, ps);
    FullPathIsAllFree(version, ps);
    PathSetSize(path);
    assert all == PathSet(path) + reserved;
    Disjoint(PathSet(path), reserved);
  }

  lemma NoPatterns()
    ensures PatternCount(0, 0, 0) == 0
  {
  }

  lemma Squared(version: nat)
    ensures Size(version) * Size(version) - 225 - 2 * (Size(version) - 17) == (16 * version + 128) * version + 64
  {
  }

  /** Every version has between 208 and 29648 data modules. */
  lemma RawDataBound(version: nat)
    requires 1 <= version <= 40
    ensures 208 <= RawDataModules(version) <= 29648
  {
    var n := version / 7 + 2;
    MulBound(16 * version + 128, version, 16 * (if version < 40 then 39 else 40) + 128, if version < 40 then 39 else 40);
    PatternsBound(version, n);
  }

  lemma PatternsBound(version: nat, n: nat)
    requires version <= 40 && n == version / 7 + 2
    ensures 55 <= (25 * n - 10) * n + 0 && (25 * n - 10) * n <= 1155 && (version == 40 ==> n == 7)
    ensures version >= 2 ==> (25 * n - 10) * n - 55 + 36 + 208 <= (16 * version + 128) * version + 64
  {
    assert n == 2 || n == 3 || n == 4 || n == 5 || n == 6 || n == 7;
    assert version * version >= 0;
    assert (16 * version + 128) * version >= 128 * version;
    if n >= 3 { MulBound(7 * (n - 2), 7 * (n - 2), version, version); }
  }
}
