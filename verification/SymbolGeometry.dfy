/** Which modules of a QR symbol carry codewords, in which order, and how they are
    masked. */
module SymbolGeometry {
  function Size(version: nat): nat { 4 * version + 17 }

  function Distance(a: int, b: int): nat { if a < b then b - a else a - b }

  /** Centres of the alignment patterns: none or at least two, apart from each
      other and from the border. */
  predicate AlignmentOk(size: nat, ps: seq<nat>) {
    && |ps| != 1
    && (forall a :: 0 <= a < |ps| ==> 2 <= ps[a] && ps[a] + 3 <= size)
    && (forall a, b :: 0 <= a < b < |ps| ==> ps[a] + 5 <= ps[b])
  }

  // -------------------------------------------------------------------
  // The function patterns of section 5.3 of ISO/IEC 18004
  // -------------------------------------------------------------------

  predicate Timing(x: nat, y: nat) { x == 6 || y == 6 }

  // Finder pattern with its separator, seen from a corner.
  predicate Finder(size: nat, x: nat, y: nat) {
    || (x <= 7 && y <= 7)
    || (x + 8 >= size && y <= 7)
    || (x <= 7 && y + 8 >= size)
  }

  predicate FormatInfo(size: nat, x: nat, y: nat) {
    || (x == 8 && (y <= 5 || y == 7 || y == 8 || y + 8 >= size))
    || (y == 8 && (x <= 5 || x == 7 || x + 8 >= size))
  }

  predicate VersionInfo(version: nat, size: nat, x: nat, y: nat) {
    version >= 7 &&
    ((size <= x + 11 && x + 9 <= size && y <= 5) || (x <= 5 && size <= y + 11 && y + 9 <= size))
  }

  // Three of the grid's four corners belong to finder patterns.
  predicate OnFinderCorner(n: nat, a: nat, b: nat) {
    (a == 0 && b == 0) || (a == 0 && b == n - 1) || (a == n - 1 && b == 0)
  }

  predicate InPattern(ps: seq<nat>, a: nat, b: nat, x: nat, y: nat)
    requires a < |ps| && b < |ps|
  {
    !OnFinderCorner(|ps|, a, b) && Distance(ps[a], x) <= 2 && Distance(ps[b], y) <= 2
  }

  predicate Alignment(ps: seq<nat>, x: nat, y: nat) {
    exists a: nat, b: nat :: a < |ps| && b < |ps| && InPattern(ps, a, b, x, y)
  }

  predicate FunctionCell(version: nat, ps: seq<nat>, x: nat, y: nat) {
    var size := Size(version);
    || Timing(x, y) || Finder(size, x, y) || FormatInfo(size, x, y)
    || VersionInfo(version, size, x, y) || Alignment(ps, x, y)
  }

  // Patterns drawn so far by the double loop over the centres.
  predicate AlignmentUpTo(ps: seq<nat>, i: nat, j: nat, x: nat, y: nat) {
    exists a: nat, b: nat :: a < |ps| && b < |ps| && (a < i || (a == i && b < j)) && InPattern(ps, a, b, x, y)
  }

  lemma AlignmentStep(ps: seq<nat>, i: nat, j: nat, x: nat, y: nat)
    requires i < |ps| && j < |ps|
    ensures AlignmentUpTo(ps, i, j + 1, x, y) == (AlignmentUpTo(ps, i, j, x, y) || InPattern(ps, i, j, x, y))
  {
    hide InPattern;
  }

  lemma AlignmentRow(ps: seq<nat>, i: nat, x: nat, y: nat)
    requires i < |ps|
    ensures AlignmentUpTo(ps, i, |ps|, x, y) == AlignmentUpTo(ps, i + 1, 0, x, y)
  {
    hide InPattern;
  }

  lemma AlignmentAll(ps: seq<nat>, x: nat, y: nat)
    ensures AlignmentUpTo(ps, |ps|, 0, x, y) == Alignment(ps, x, y)
    ensures !AlignmentUpTo(ps, 0, 0, x, y)
  {
    hide InPattern;
  }

  // -------------------------------------------------------------------
  // Colours of the function patterns
  // -------------------------------------------------------------------

  function Chebyshev(dx: nat, dy: nat): nat { if dx < dy then dy else dx }

  predicate TimingDark(x: nat, y: nat) { if x == 6 then y % 2 == 0 else x % 2 == 0 }

  // Rings around a centre.
  predicate FinderDark(dx: nat, dy: nat) { Chebyshev(dx, dy) != 2 && Chebyshev(dx, dy) != 4 }
  predicate AlignmentDark(dx: nat, dy: nat) { Chebyshev(dx, dy) != 1 }

  // The finder centre a module belongs to.
  function FinderCentre(size: nat, p: nat): nat
    requires size >= 21
  {
    if p <= 7 then 3 else size - 4
  }

  /** Which format bit a module shows; the one module beside the lower left finder
      is always dark. */
  predicate FormatDark(bits: seq<bool>, size: nat, x: nat, y: nat)
    requires |bits| == 15 && size >= 21 && x < size && y < size && FormatInfo(size, x, y)
  {
    if x == 8 && y + 8 == size then true
    else if x == 8 && y + 7 >= size then bits[y + 15 - size]
    else if y == 8 && x + 8 >= size then bits[size - 1 - x]
    else if x == 8 then bits[if y <= 5 then y else y - 1]
    else bits[if x == 7 then 8 else 14 - x]
  }

  predicate VersionDark(bits: seq<bool>, version: nat, size: nat, x: nat, y: nat)
    requires |bits| == 18 && size >= 21 && VersionInfo(version, size, x, y)
  {
    if y <= 5 then bits[3 * y + (x + 11 - size)] else bits[3 * x + (y + 11 - size)]
  }

  // A module once the patterns up to (i, j) are drawn.
  ghost predicate PatternColour(ps: seq<nat>, i: nat, j: nat, x: nat, y: nat, now: bool, was: bool) {
    && (forall a: nat, b: nat :: a < |ps| && b < |ps| && (a < i || (a == i && b < j)) && InPattern(ps, a, b, x, y) ==>
          now == AlignmentDark(Distance(ps[a], x), Distance(ps[b], y)))
    && (!AlignmentUpTo(ps, i, j, x, y) ==> now == was)
  }

  lemma NoColour(ps: seq<nat>, x: nat, y: nat, m: bool)
    ensures PatternColour(ps, 0, 0, x, y, m, m)
  {
  }

  lemma ColourStep(size: nat, ps: seq<nat>, i: nat, j: nat, x: nat, y: nat, mid: bool, now: bool, was: bool)
    requires AlignmentOk(size, ps) && i < |ps| && j < |ps| && PatternColour(ps, i, j, x, y, mid, was)
    requires now == if InPattern(ps, i, j, x, y) then AlignmentDark(Distance(ps[i], x), Distance(ps[j], y)) else mid
    ensures PatternColour(ps, i, j + 1, x, y, now, was)
  {
    hide AlignmentDark;
    AlignmentStep(ps, i, j, x, y);
    if InPattern(ps, i, j, x, y) {
      forall a: nat, b: nat | a < |ps| && b < |ps| && (a < i || (a == i && b < j)) ensures !InPattern(ps, a, b, x, y) {
        if a < i { assert ps[a] + 5 <= ps[i]; } else { assert ps[b] + 5 <= ps[j]; }
      }
    }
  }

  lemma ColourOnly(ps: seq<nat>, x: nat, y: nat, now: bool, was: bool)
    requires PatternColour(ps, |ps|, 0, x, y, now, was)
    ensures PatternColour(ps, |ps|, 0, x, y, now, now)
    ensures !AlignmentUpTo(ps, |ps|, 0, x, y) ==> now == was
  {
  }

  lemma ColourRow(ps: seq<nat>, i: nat, x: nat, y: nat, now: bool, was: bool)
    requires i < |ps| && PatternColour(ps, i, |ps|, x, y, now, was)
    ensures PatternColour(ps, i + 1, 0, x, y, now, was)
  {
    hide AlignmentDark, InPattern;
    AlignmentRow(ps, i, x, y);
  }

  /** The colour of a function module; where patterns overlap, the later one shows. */
  ghost predicate FunctionColour(version: nat, ps: seq<nat>, format: seq<bool>, versionBits: seq<bool>, x: nat, y: nat, dark: bool)
    requires version >= 1 && |format| == 15 && |versionBits| == 18 && x < Size(version) && y < Size(version)
  {
    var size := Size(version);
    if VersionInfo(version, size, x, y) then dark == VersionDark(versionBits, version, size, x, y)
    else if FormatInfo(size, x, y) then dark == FormatDark(format, size, x, y)
    else if Alignment(ps, x, y) then PatternColour(ps, |ps|, 0, x, y, dark, dark)
    else if Finder(size, x, y) then dark == FinderDark(Distance(x, FinderCentre(size, x)), Distance(y, FinderCentre(size, y)))
    else Timing(x, y) ==> dark == TimingDark(x, y)
  }

  // -------------------------------------------------------------------
  // The zigzag of section 7.7.3 of ISO/IEC 18004
  // -------------------------------------------------------------------

  datatype Cell = Cell(x: nat, y: nat)

  // The symbol is scanned in pairs of columns from the right, upwards and
  // downwards in turn; the vertical timing pattern is skipped.
  function Pairs(size: nat): nat { size / 2 }

  function Right(size: nat, c: nat): (x: nat)
    requires size % 4 == 1 && size >= 21 && c < Pairs(size)
    ensures 1 <= x < size && x != 6 && x - 1 != 6
  {
    var r := size - 1 - 2 * c;
    if r <= 6 then r - 1 else r
  }

  function RowAt(size: nat, c: nat, vert: nat): (y: nat)
    requires vert < size
    ensures y < size
  {
    if c % 2 == 0 then size - 1 - vert else vert
  }

  // The direction, read off the column instead of counted.
  lemma UpwardByColumn(size: nat, c: nat)
    requires size % 4 == 1 && size >= 21 && c < Pairs(size)
    ensures (Right(size, c) + 1) / 2 % 2 == 0 <==> c % 2 == 0
  {
  }

  function FreeOf(version: nat, ps: seq<nat>, x: nat, y: nat): seq<Cell> {
    if FunctionCell(version, ps, x, y) then [] else [Cell(x, y)]
  }

  function RowPair(version: nat, ps: seq<nat>, c: nat, vert: nat): seq<Cell>
    requires c < Pairs(Size(version)) && vert < Size(version) && version >= 1
  {
    var x, y := Right(Size(version), c), RowAt(Size(version), c, vert);
    FreeOf(version, ps, x, y) + FreeOf(version, ps, x - 1, y)
  }

  /** The free cells in scanning order, up to row pair `vert` of column pair `c`. */
  function Path(version: nat, ps: seq<nat>, c: nat, vert: nat): seq<Cell>
    requires version >= 1 && c < Pairs(Size(version)) && vert <= Size(version)
    decreases c, vert
  {
    if vert > 0 then Path(version, ps, c, vert - 1) + RowPair(version, ps, c, vert - 1)
    else if c > 0 then Path(version, ps, c - 1, Size(version))
    else []
  }

  lemma StartOfPath(version: nat, ps: seq<nat>)
    requires version >= 1
    ensures Path(version, ps, 0, 0) == []
  {
  }

  lemma NextColumn(version: nat, ps: seq<nat>, c: nat)
    requires version >= 1 && c < Pairs(Size(version))
    ensures c + 1 < Pairs(Size(version)) ==> Path(version, ps, c + 1, 0) == Path(version, ps, c, Size(version))
    ensures c + 1 == Pairs(Size(version)) ==> FullPath(version, ps) == Path(version, ps, c, Size(version))
  {
  }

  // One of the two cells of a row pair.
  predicate InPair(size: nat, c: nat, vert: nat, cell: Cell)
    requires size % 4 == 1 && size >= 21 && c < Pairs(size) && vert < size
  {
    (cell.x == Right(size, c) || cell.x == Right(size, c) - 1) && cell.y == RowAt(size, c, vert)
  }

  lemma NotScanned(size: nat, c: nat, vert: nat, cell: Cell)
    requires size % 4 == 1 && size >= 21 && c < Pairs(size) && vert < size && InPair(size, c, vert, cell)
    ensures !Scanned(size, c, vert, cell)
  {
  }

  lemma NewCell(version: nat, ps: seq<nat>, c: nat, vert: nat, cell: Cell)
    requires version >= 1 && c < Pairs(Size(version)) && vert < Size(version) && InPair(Size(version), c, vert, cell)
    ensures cell !in Path(version, ps, c, vert)
  {
    hide Path, FunctionCell, Scanned, InPair;
    PathIsScanned(version, ps, c, vert, cell);
    NotScanned(Size(version), c, vert, cell);
  }

  lemma PathGrows(version: nat, ps: seq<nat>, c: nat, vert: nat, x: nat, y: nat)
    requires version >= 1 && c < Pairs(Size(version)) && vert < Size(version)
    requires x == Right(Size(version), c) && y == RowAt(Size(version), c, vert)
    ensures Path(version, ps, c, vert + 1) == Path(version, ps, c, vert) + FreeOf(version, ps, x, y) + FreeOf(version, ps, x - 1, y)
  {
    hide FunctionCell, Right, RowAt, FreeOf;
  }

  // The two cells of a row pair are new to the path.
  lemma PathStep(version: nat, ps: seq<nat>, c: nat, vert: nat, x: nat, y: nat)
    requires version >= 1 && c < Pairs(Size(version)) && vert < Size(version)
    requires x == Right(Size(version), c) && y == RowAt(Size(version), c, vert)
    ensures Path(version, ps, c, vert + 1) == Path(version, ps, c, vert) + FreeOf(version, ps, x, y) + FreeOf(version, ps, x - 1, y)
    ensures Cell(x, y) !in Path(version, ps, c, vert)
    ensures Cell(x - 1, y) !in Path(version, ps, c, vert) + FreeOf(version, ps, x, y)
  {
    hide Path, FunctionCell, Right, RowAt;
    PathGrows(version, ps, c, vert, x, y);
    NewCell(version, ps, c, vert, Cell(x, y));
    NewCell(version, ps, c, vert, Cell(x - 1, y));
  }

  function FullPath(version: nat, ps: seq<nat>): seq<Cell>
    requires version >= 1
  {
    Path(version, ps, Pairs(Size(version)) - 1, Size(version))
  }

  // The cell comes before row pair `vert` of column pair `c` in the scan.
  predicate Scanned(size: nat, c: nat, vert: nat, cell: Cell)
    requires size % 4 == 1 && size >= 21 && c < Pairs(size)
  {
    cell.y < size && cell.x < size &&
    (cell.x > Right(size, c)
     || (Right(size, c) <= cell.x + 1 && (if c % 2 == 0 then size - 1 - cell.y else cell.y) < vert))
  }

  /** A path holds exactly the free cells scanned so far. */
  lemma {:induction false} PathIsScanned(version: nat, ps: seq<nat>, c: nat, vert: nat, cell: Cell)
    requires version >= 1 && c < Pairs(Size(version)) && vert <= Size(version)
    ensures cell in Path(version, ps, c, vert) <==>
      Scanned(Size(version), c, vert, cell) && cell.x != 6 && !FunctionCell(version, ps, cell.x, cell.y)
    decreases c, vert
  {
    hide FunctionCell;
    if vert > 0 {
      PathIsScanned(version, ps, c, vert - 1, cell);
    } else if c > 0 {
      PathIsScanned(version, ps, c - 1, Size(version), cell);
    }
  }

  /** No cell comes twice. */
  lemma {:induction false} PathDistinct(version: nat, ps: seq<nat>, c: nat, vert: nat)
    requires version >= 1 && c < Pairs(Size(version)) && vert <= Size(version)
    ensures Distinct(Path(version, ps, c, vert))
    decreases c, vert
  {
    hide FunctionCell;
    if vert > 0 {
      PathDistinct(version, ps, c, vert - 1);
      var before, pair := Path(version, ps, c, vert - 1), RowPair(version, ps, c, vert - 1);
      forall k | 0 <= k < |pair| ensures pair[k] !in before {
        PathIsScanned(version, ps, c, vert - 1, pair[k]);
      }
    } else if c > 0 {
      PathDistinct(version, ps, c - 1, Size(version));
    }
  }

  predicate Distinct(s: seq<Cell>) {
    forall i, j :: 0 <= i < j < |s| ==> s[i] != s[j]
  }

  /** The scan visits every free cell exactly once. */
  lemma FullPathIsAllFree(version: nat, ps: seq<nat>)
    requires version >= 1
    ensures Distinct(FullPath(version, ps))
    ensures forall cell :: cell in FullPath(version, ps) <==>
      cell.x < Size(version) && cell.y < Size(version) && !FunctionCell(version, ps, cell.x, cell.y)
  {
    hide Path;
    var last := Pairs(Size(version)) - 1;
    PathDistinct(version, ps, last, Size(version));
    forall cell ensures cell in FullPath(version, ps) <==>
      cell.x < Size(version) && cell.y < Size(version) && !FunctionCell(version, ps, cell.x, cell.y)
    {
      PathIsScanned(version, ps, last, Size(version), cell);
      assert Right(Size(version), last) == 1;
    }
  }

  // -------------------------------------------------------------------
  // Masks, table 10 of ISO/IEC 18004
  // -------------------------------------------------------------------

  predicate Inverted(mask: nat, x: nat, y: nat)
    requires mask < 8
  {
    match mask
    case 0 => (x + y) % 2 == 0
    case 1 => y % 2 == 0
    case 2 => x % 3 == 0
    case 3 => (x + y) % 3 == 0
    case 4 => (x / 3 + y / 2) % 2 == 0
    case 5 => x * y % 2 + x * y % 3 == 0
    case 6 => (x * y % 2 + x * y % 3) % 2 == 0
    case 7 => ((x + y) % 2 + x * y % 3) % 2 == 0
  }
}
