/** The decoder's way through the module matrix. */
module GridReader {
  import opened SymbolGeometry
  import opened FormatCode
  import opened BitStreams
  import opened GaloisField
  import opened Options
  import Arithmetic

  predicate MaskBit(mask: nat, i: nat, j: nat) {
    match mask
    case 0 => !((i + j) % 2 != 0)
    case 1 => !(i % 2 != 0)
    case 2 => !(j % 3 != 0)
    case 3 => !((i + j) % 3 != 0)
    case 4 => !(((i / 2) + (j / 3)) % 2 != 0)
    case 5 => !((i * j) % 2 + (i * j) % 3 != 0)
    case 6 => !(((i * j) % 2 + (i * j) % 3) % 2 != 0)
    case 7 => !(((i * j) % 3 + (i + j) % 2) % 2 != 0)
    case _ => false
  }

  lemma MaskBitIsInverted(mask: nat, x: nat, y: nat)
    requires mask < 8
    ensures MaskBit(mask, y, x) == Inverted(mask, x, y)
  {
    assert x * y == y * x;
  }

  /** Row i, column j. */
  method ReservedCell(version: nat, apat: seq<nat>, i: nat, j: nat) returns (reserved: bool)
    requires 1 <= version <= 40 && i < Size(version) && j < Size(version) && AlignmentOk(Size(version), apat)
    ensures reserved == FunctionCell(version, apat, j, i)
  {
    hide Alignment;
    var size := version * 4 + 17;
    if i < 9 && j < 9 {
      return true;
    }
    if i + 8 >= size && j < 9 {
      return true;
    }
    if i < 9 && j + 8 >= size {
      return true;
    }
    if i == 6 || j == 6 {
      return true;
    }
    if version >= 7 {
      if i < 6 && j + 11 >= size {
        return true;
      }
      if i + 11 >= size && j < 6 {
        return true;
      }
    }
    reserved := ReservedByAlignment(size, apat, i, j);
  }

  // Index of the centre within two modules of p, or -1.
  predicate Nearest(apat: seq<nat>, n: nat, p: nat, a: int)
    requires n <= |apat|
  {
    if a == -1 then forall k :: 0 <= k < n ==> Distance(apat[k], p) >= 3
    else 0 <= a < n && Distance(apat[a], p) < 3
  }

  method ReservedByAlignment(size: nat, apat: seq<nat>, i: nat, j: nat) returns (reserved: bool)
    requires AlignmentOk(size, apat)
    ensures reserved == Alignment(apat, j, i)
  {
    var ai, aj := -1, -1;
    for a := 0 to |apat|
      invariant Nearest(apat, a, i, ai) && Nearest(apat, a, j, aj)
    {
      if Distance(apat[a], i) < 3 {
        ai := a;
      }
      if Distance(apat[a], j) < 3 {
        aj := a;
      }
    }
    var last := |apat| - 1;
    reserved := ai >= 0 && aj >= 0 &&
      ((0 < ai < last) || (0 < aj < last) || (aj == last && ai == last));
    CentresDecide(size, apat, i, j, ai, aj);
  }

  lemma CentresDecide(size: nat, apat: seq<nat>, i: nat, j: nat, ai: int, aj: int)
    requires AlignmentOk(size, apat) && Nearest(apat, |apat|, i, ai) && Nearest(apat, |apat|, j, aj)
    ensures Alignment(apat, j, i) <==>
      ai >= 0 && aj >= 0 && ((0 < ai < |apat| - 1) || (0 < aj < |apat| - 1) || (aj == |apat| - 1 && ai == |apat| - 1))
  {
    if ai >= 0 && aj >= 0 {
      if !OnFinderCorner(|apat|, aj, ai) {
        assert InPattern(apat, aj, ai, j, i);
      }
    }
    forall a: nat, b: nat | a < |apat| && b < |apat| && InPattern(apat, a, b, j, i) ensures a == aj && b == ai {
      OneCentre(size, apat, j, a, aj);
      OneCentre(size, apat, i, b, ai);
    }
  }

  lemma OneCentre(size: nat, apat: seq<nat>, p: nat, a: nat, n: int)
    requires AlignmentOk(size, apat) && Nearest(apat, |apat|, p, n) && a < |apat| && Distance(apat[a], p) <= 2
    ensures a == n
  {
  }

  // -------------------------------------------------------------------
  // Reading the codewords
  // -------------------------------------------------------------------

  const MAX_RAW: nat := 8896

  // What the decoder makes of a module.
  function Unmasked(grid: array2<bool>, mask: nat, cell: Cell): bool
    reads grid
    requires cell.y < grid.Length0 && cell.x < grid.Length1
  {
    grid[cell.y, cell.x] != MaskBit(mask, cell.y, cell.x)
  }

  ghost predicate OnGrid(grid: array2<bool>, path: seq<Cell>) {
    forall k :: 0 <= k < |path| ==> path[k].y < grid.Length0 && path[k].x < grid.Length1
  }

  /** The raw bytes hold the unmasked modules along the path, then zero bits. */
  ghost predicate HoldsBits(raw: seq<Gf>, grid: array2<bool>, mask: nat, path: seq<Cell>)
    reads grid
    requires OnGrid(grid, path)
  {
    |path| <= 8 * |raw| &&
    forall k :: 0 <= k < 8 * |raw| ==>
      BitAt(raw[k / 8], k % 8) == (k < |path| && Unmasked(grid, mask, path[k]))
  }

  method ReadBit(grid: array2<bool>, mask: nat, raw: array<Gf>, dataBits: nat, i: nat, j: nat, ghost path: seq<Cell>) returns (bits: nat)
    requires i < grid.Length0 && j < grid.Length1 && dataBits == |path| < 8 * raw.Length
    requires OnGrid(grid, path) && HoldsBits(raw[..], grid, mask, path)
    modifies raw
    ensures bits == dataBits + 1 && HoldsBits(raw[..], grid, mask, path + [Cell(j, i)])
  {
    hide BitAt, WithBit, MaskBit;
    var bitpos := dataBits % 8;
    var bytepos := dataBits / 8;
    var v := grid[i, j];
    if MaskBit(mask, i, j) {
      v := !v;
    }
    ghost var before := raw[..];
    if v {
      raw[bytepos] := WithBit(raw[bytepos], bitpos);
    }
    ghost var after := path + [Cell(j, i)];
    forall k | 0 <= k < 8 * raw.Length
      ensures BitAt(raw[k / 8], k % 8) == (k < |after| && Unmasked(grid, mask, after[k]))
    {
      BitAtWithBit(before[bytepos], bitpos, k % 8);
      assert BitAt(before[k / 8], k % 8) == (k < |path| && Unmasked(grid, mask, path[k]));
    }
    bits := dataBits + 1;
  }

  // One row of a pair of columns.
  method ReadRowPair(grid: array2<bool>, version: nat, apat: seq<nat>, mask: nat, raw: array<Gf>, dataBits: nat, x: nat, y: nat, ghost path: seq<Cell>)
    returns (bits: nat)
    requires 1 <= version <= 40 && AlignmentOk(Size(version), apat) && 1 <= x < Size(version) && y < Size(version)
    requires grid.Length0 == grid.Length1 == Size(version)
    requires dataBits == |path| && |path| + 2 <= 8 * raw.Length
    requires OnGrid(grid, path) && HoldsBits(raw[..], grid, mask, path)
    modifies raw
    ensures var after := path + FreeOf(version, apat, x, y) + FreeOf(version, apat, x - 1, y);
      bits == |after| && OnGrid(grid, after) && HoldsBits(raw[..], grid, mask, after)
  {
    hide HoldsBits, FunctionCell;
    bits := dataBits;
    ghost var p := path;
    var reserved := ReservedCell(version, apat, y, x);
    if !reserved {
      bits := ReadBit(grid, mask, raw, bits, y, x, p);
      p := p + [Cell(x, y)];
    }
    assert p == path + FreeOf(version, apat, x, y);
    reserved := ReservedCell(version, apat, y, x - 1);
    if !reserved {
      bits := ReadBit(grid, mask, raw, bits, y, x - 1, p);
      p := p + [Cell(x - 1, y)];
    }
    assert p == path + FreeOf(version, apat, x, y) + FreeOf(version, apat, x - 1, y);
  }

  lemma {:induction false} PathLength(version: nat, ps: seq<nat>, c: nat, vert: nat)
    requires version >= 1 && c < Pairs(Size(version)) && vert <= Size(version)
    ensures |Path(version, ps, c, vert)| <= 2 * (c * Size(version)) + 2 * vert
    decreases c, vert
  {
    hide FunctionCell;
    if vert > 0 {
      PathLength(version, ps, c, vert - 1);
    } else if c > 0 {
      PathLength(version, ps, c - 1, Size(version));
      assert (c - 1) * Size(version) + Size(version) == c * Size(version);
    }
  }

  lemma PathFits(version: nat, ps: seq<nat>, c: nat, vert: nat)
    requires 1 <= version <= 40 && c < Pairs(Size(version)) && vert <= Size(version)
    ensures |Path(version, ps, c, vert)| + 2 <= 8 * MAX_RAW
  {
    PathLength(version, ps, c, vert);
    Arithmetic.MulBound(c, Size(version), 88, 177);
  }

  /** Column, row and direction of the scan stand at row pair `vert` of column
      pair `c`; after the last pair the column is not positive. */
  ghost predicate ScanAt(size: nat, c: nat, vert: nat, x: int, y: int, dir: int)
    requires size % 4 == 1 && size >= 21
  {
    if c >= Pairs(size) then c == Pairs(size) && vert == 0 && x <= 0
    else
      && vert < size && y == RowAt(size, c, vert) && dir == (if c % 2 == 0 then -1 else 1)
      && (x == Right(size, c) || (x == 6 && Right(size, c) == 5))
  }

  method NextRow(size: nat, x: int, y: int, dir: int, ghost c: nat, ghost vert: nat)
    returns (nx: int, ny: int, ndir: int, ghost nc: nat, ghost nvert: nat)
    requires size % 4 == 1 && size >= 21 && c < Pairs(size)
    requires ScanAt(size, c, vert, x, y, dir) && x == Right(size, c)
    ensures ScanAt(size, nc, nvert, nx, ny, ndir)
    ensures if vert + 1 < size then nc == c && nvert == vert + 1 else nc == c + 1 && nvert == 0
  {
    if c + 1 < Pairs(size) { NextRight(size, c); }
    nx, ny, ndir, nc, nvert := x, y + dir, dir, c, vert + 1;
    if ny < 0 || ny >= size {
      ndir := -ndir;
      nx := nx - 2;
      ny := ny + ndir;
      nc, nvert := c + 1, 0;
    }
  }

  // Two columns further left, or three across the timing pattern.
  lemma NextRight(size: nat, c: nat)
    requires size % 4 == 1 && size >= 21 && c + 1 < Pairs(size)
    ensures var x, next := Right(size, c), Right(size, c + 1);
      (x - 2 == next || (x - 2 == 6 && next == 5)) && (c + 1) % 2 != c % 2
  {
  }

  // The path at a scan position, also after the last column pair.
  ghost function PathAt(version: nat, ps: seq<nat>, c: nat, vert: nat): seq<Cell>
    requires version >= 1 && vert <= Size(version)
  {
    if c < Pairs(Size(version)) then Path(version, ps, c, vert) else FullPath(version, ps)
  }

  /** Reads the symbol: the raw bytes are the unmasked free modules in scanning
      order, padded with zero bits. */
  method ReadData(grid: array2<bool>, version: nat, apat: seq<nat>, mask: nat, raw: array<Gf>) returns (dataBits: nat)
    requires 1 <= version <= 40 && AlignmentOk(Size(version), apat)
    requires grid.Length0 == grid.Length1 == Size(version) && raw.Length == MAX_RAW
    requires forall i :: 0 <= i < raw.Length ==> raw[i] == ZERO
    modifies raw
    ensures dataBits == |FullPath(version, apat)| && OnGrid(grid, FullPath(version, apat))
    ensures HoldsBits(raw[..], grid, mask, FullPath(version, apat))
  {
    hide Path, FunctionCell, BitAt, OnGrid, HoldsBits;
    var size := Size(version);
    var y: int, x: int, dir: int := size - 1, size - 1, -1;
    dataBits := 0;
    ghost var c: nat, vert: nat := 0, 0;
    StartOfPath(version, apat);
    NothingRead(raw[..], grid, mask);
    while x > 0
      invariant vert <= size && ScanAt(size, c, vert, x, y, dir)
      invariant dataBits == |PathAt(version, apat, c, vert)|
      invariant OnGrid(grid, PathAt(version, apat, c, vert)) && HoldsBits(raw[..], grid, mask, PathAt(version, apat, c, vert))
      decreases Pairs(size) - c, size - vert
    {
      if x == 6 {
        x := x - 1;
      }
      PathFits(version, apat, c, vert);
      PathStep(version, apat, c, vert, x, y);
      dataBits := ReadRowPair(grid, version, apat, mask, raw, dataBits, x, y, Path(version, apat, c, vert));
      NextColumn(version, apat, c);
      x, y, dir, c, vert := NextRow(size, x, y, dir, c, vert);
    }
  }

  lemma NothingRead(raw: seq<Gf>, grid: array2<bool>, mask: nat)
    requires forall i :: 0 <= i < |raw| ==> raw[i] == ZERO
    ensures OnGrid(grid, []) && HoldsBits(raw, grid, mask, [])
  {
    hide BitAt;
    forall k ensures !BitAt(ZERO, k) { ZeroBits(k); }
  }

  // -------------------------------------------------------------------
  // Format information
  // -------------------------------------------------------------------

  // Where bit j of the format word is looked for, in the first copy and the second.
  function FormatCell(size: nat, second: bool, j: nat): (c: Cell)
    requires size >= 21 && j < 15
    ensures c.x < size && c.y < size && FormatInfo(size, c.x, c.y)
  {
    if second then (if j < 8 then Cell(size - 1 - j, 8) else Cell(8, size - 15 + j))
    else if j <= 5 then Cell(8, j)
    else if j <= 7 then Cell(8, j + 1)
    else if j == 8 then Cell(7, 8)
    else Cell(14 - j, 8)
  }

  ghost function FormatRead(grid: array2<bool>, second: bool): (bits: seq<bool>)
    reads grid
    requires grid.Length0 == grid.Length1 >= 21
    ensures |bits| == 15
  {
    var size := grid.Length0;
    seq(15, k requires 0 <= k < 15 reads grid =>
      var c := FormatCell(size, second, 14 - k);
      grid[c.y, c.x])
  }

  method ReadFormatWord(grid: array2<bool>, second: bool) returns (format: bv32)
    requires grid.Length0 == grid.Length1 >= 21
    ensures format == FromBits(FormatRead(grid, second), 15)
  {
    hide FromBits, FormatRead;
    if second {
      format := ReadSecondCopy(grid);
    } else {
      format := ReadFirstCopy(grid);
    }
  }

  method ReadFirstCopy(grid: array2<bool>) returns (format: bv32)
    requires grid.Length0 == grid.Length1 >= 21
    ensures format == FromBits(FormatRead(grid, false), 15)
  {
    hide Push, FromBits;
    var xs := [8, 8, 8, 8, 8, 8, 8, 8, 7, 5, 4, 3, 2, 1, 0];
    var ys := [0, 1, 2, 3, 4, 5, 7, 8, 8, 8, 8, 8, 8, 8, 8];
    format := 0;
    ghost var bits := FormatRead(grid, false);
    PushStep(bits, 0);
    for i := 15 downto 0
      invariant format == FromBits(bits, 15 - i)
    {
      PushStep(bits, 14 - i);
      format := Push(format, grid[ys[i], xs[i]]);
    }
  }

  method ReadSecondCopy(grid: array2<bool>) returns (format: bv32)
    requires grid.Length0 == grid.Length1 >= 21
    ensures format == FromBits(FormatRead(grid, true), 15)
  {
    hide Push, FromBits;
    var size := grid.Length0;
    format := 0;
    ghost var bits := FormatRead(grid, true);
    PushStep(bits, 0);
    for i := 0 to 7
      invariant format == FromBits(bits, i)
    {
      PushStep(bits, i);
      format := Push(format, grid[size - 1 - i, 8]);
    }
    for i := 0 to 8
      invariant format == FromBits(bits, 7 + i)
    {
      PushStep(bits, 7 + i);
      format := Push(format, grid[8, size - 8 + i]);
    }
  }

  // The copy shows the word of this level and this mask.
  ghost predicate ShowsFormat(grid: array2<bool>, second: bool, level: nat, mask: nat)
    reads grid
    requires grid.Length0 == grid.Length1 >= 21 && level < 4 && mask < 8
  {
    forall j :: 0 <= j < 15 ==>
      var c := FormatCell(grid.Length0, second, j);
      grid[c.y, c.x] == Bit(FormatWord(level, mask), j)
  }

  lemma ShownFormat(grid: array2<bool>, second: bool, level: nat, mask: nat)
    requires grid.Length0 == grid.Length1 >= 21 && level < 4 && mask < 8 && ShowsFormat(grid, second, level, mask)
    ensures FromBits(FormatRead(grid, second), 15) == FormatWord(level, mask)
  {
    hide FromBits, FormatWord, Bit, FormatCell;
    FormatWordIs(level, mask);
    assert FormatRead(grid, second) == Descending(FormatWord(level, mask));
    ReadsBack(FormatWord(level, mask));
  }

  /** A clean copy gives its level and its mask back; whatever is accepted is the
      word of the level and mask returned, as read or as repaired. */
  method ReadFormat(grid: array2<bool>, second: bool, repair: bv32 -> bv32) returns (r: Option<(nat, nat)>)
    requires grid.Length0 == grid.Length1 >= 21 && forall u :: repair(u) < 0x8000
    ensures forall level: nat, mask: nat :: level < 4 && mask < 8 && ShowsFormat(grid, second, level, mask) ==> r == Some((level, mask))
    ensures r.Some? ==> r.value.0 < 4 && r.value.1 < 8
    ensures r.Some? ==>
      var word, read := FormatWord(r.value.0, r.value.1), FromBits(FormatRead(grid, second), 15);
      word == read || word == Whitened(repair(Whitened(read)))
  {
    hide FromBits, FormatWord, Bit, FormatCell, FormatOk, Codeword, LevelOf, MaskOf, DataOf, Whitened, FormatData, ShowsFormat, FormatRead;
    var format := ReadFormatWord(grid, second);
    FifteenBelow(FormatRead(grid, second));
    WhitenedTwice(format);
    var u := Whitened(format);
    var fixed := CorrectFormat(u, repair);
    forall level: nat, mask: nat | level < 4 && mask < 8 && ShowsFormat(grid, second, level, mask)
      ensures fixed == Some(u) && DataOf(u) == FormatData(level, mask)
    {
      ShownFormat(grid, second, level, mask);
      FormatWordIs(level, mask);
    }
    if fixed.None? {
      return None;
    }
    OkIsFormat(fixed.value);
    var fdata := DataOf(fixed.value);
    r := Some((LevelOf(fdata), MaskOf(fdata)));
  }
}
