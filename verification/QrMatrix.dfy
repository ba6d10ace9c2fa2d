/** The encoder's module matrix. */
module QrMatrix {
  import opened SymbolGeometry
  import opened BitStreams
  import opened GaloisField
  import opened Options
  import opened ModuleCount
  import opened FormatCode

  class QrCode {
    const version: nat
    const size: nat
    const modules: array2<bool>     // [y, x]
    const isFunction: array2<bool>

    ghost predicate Valid() {
      && 1 <= version <= 40 && size == Size(version)
      && modules.Length0 == size && modules.Length1 == size
      && isFunction.Length0 == size && isFunction.Length1 == size
      && modules != isFunction
    }

    constructor (version: nat)
      requires 1 <= version <= 40
      ensures Valid() && this.version == version && fresh(modules) && fresh(isFunction)
      ensures forall y, x :: 0 <= y < size && 0 <= x < size ==> !modules[y, x] && !isFunction[y, x]
    {
      this.version := version;
      size := 4 * version + 17;
      modules := new bool[4 * version + 17, 4 * version + 17]((y, x) => false);
      isFunction := new bool[4 * version + 17, 4 * version + 17]((y, x) => false);
    }

    method SetFunctionModule(x: nat, y: nat, dark: bool)
      requires Valid() && x < size && y < size
      modifies modules, isFunction
      ensures forall r, c :: 0 <= r < size && 0 <= c < size ==>
        isFunction[r, c] == (old(isFunction[r, c]) || (r == y && c == x))
      ensures forall r, c :: 0 <= r < size && 0 <= c < size ==>
        modules[r, c] == if r == y && c == x then dark else old(modules[r, c])
    {
      modules[y, x] := dark;
      isFunction[y, x] := true;
    }

    method DrawTiming()
      requires Valid()
      modifies modules, isFunction
      ensures forall r, c :: 0 <= r < size && 0 <= c < size ==>
        isFunction[r, c] == (old(isFunction[r, c]) || Timing(c, r))
      ensures forall r, c :: 0 <= r < size && 0 <= c < size ==>
        modules[r, c] == if Timing(c, r) then TimingDark(c, r) else old(modules[r, c])
    {
      for i := 0 to size
        invariant forall r, c :: 0 <= r < size && 0 <= c < size ==>
          isFunction[r, c] == (old(isFunction[r, c]) || (c == 6 && r < i) || (r == 6 && c < i))
        invariant forall r, c :: 0 <= r < size && 0 <= c < size ==>
          modules[r, c] == if (c == 6 && r < i) || (r == 6 && c < i) then TimingDark(c, r) else old(modules[r, c])
      {
        SetFunctionModule(6, i, i % 2 == 0);
        SetFunctionModule(i, 6, i % 2 == 0);
      }
    }

    // Nine by nine, clipped to the symbol.
    method DrawFinderPattern(x: nat, y: nat)
      requires Valid() && x < size && y < size
      modifies modules, isFunction
      ensures forall r, c :: 0 <= r < size && 0 <= c < size ==>
        isFunction[r, c] == (old(isFunction[r, c]) || (Distance(r, y) <= 4 && Distance(c, x) <= 4))
      ensures forall r, c :: 0 <= r < size && 0 <= c < size ==>
        modules[r, c] == if Distance(r, y) <= 4 && Distance(c, x) <= 4 then FinderDark(Distance(c, x), Distance(r, y)) else old(modules[r, c])
    {
      hide FinderDark;
      for dy := -4 to 5
        invariant forall r, c :: 0 <= r < size && 0 <= c < size ==>
          isFunction[r, c] == (old(isFunction[r, c]) || (y - 4 <= r < y + dy && Distance(c, x) <= 4))
        invariant forall r, c :: 0 <= r < size && 0 <= c < size ==>
          modules[r, c] == if y - 4 <= r < y + dy && Distance(c, x) <= 4 then FinderDark(Distance(c, x), Distance(r, y)) else old(modules[r, c])
      {
        for dx := -4 to 5
          invariant forall r, c :: 0 <= r < size && 0 <= c < size ==>
            isFunction[r, c] == (old(isFunction[r, c]) || (y - 4 <= r < y + dy && Distance(c, x) <= 4)
                                 || (r == y + dy && x - 4 <= c < x + dx))
          invariant forall r, c :: 0 <= r < size && 0 <= c < size ==>
            modules[r, c] == if (y - 4 <= r < y + dy && Distance(c, x) <= 4) || (r == y + dy && x - 4 <= c < x + dx)
                             then FinderDark(Distance(c, x), Distance(r, y)) else old(modules[r, c])
        {
          var xx, yy := x + dx, y + dy;
          if 0 <= xx < size && 0 <= yy < size {
            SetFunctionModule(xx, yy, FinderDark(Distance(dx, 0), Distance(dy, 0)));
          }
        }
      }
    }

    method DrawAlignmentPattern(x: nat, y: nat)
      requires Valid() && 2 <= x && x + 3 <= size && 2 <= y && y + 3 <= size
      modifies modules, isFunction
      ensures forall r, c :: 0 <= r < size && 0 <= c < size ==>
        isFunction[r, c] == (old(isFunction[r, c]) || (Distance(x, c) <= 2 && Distance(y, r) <= 2))
      ensures forall r, c :: 0 <= r < size && 0 <= c < size ==>
        modules[r, c] == if Distance(x, c) <= 2 && Distance(y, r) <= 2 then AlignmentDark(Distance(x, c), Distance(y, r)) else old(modules[r, c])
    {
      hide AlignmentDark;
      for dy := -2 to 3
        invariant forall r, c :: 0 <= r < size && 0 <= c < size ==>
          isFunction[r, c] == (old(isFunction[r, c]) || (y - 2 <= r < y + dy && Distance(x, c) <= 2))
        invariant forall r, c :: 0 <= r < size && 0 <= c < size ==>
          modules[r, c] == if y - 2 <= r < y + dy && Distance(x, c) <= 2 then AlignmentDark(Distance(x, c), Distance(y, r)) else old(modules[r, c])
      {
        for dx := -2 to 3
          invariant forall r, c :: 0 <= r < size && 0 <= c < size ==>
            isFunction[r, c] == (old(isFunction[r, c]) || (y - 2 <= r < y + dy && Distance(x, c) <= 2)
                                 || (r == y + dy && x - 2 <= c < x + dx))
          invariant forall r, c :: 0 <= r < size && 0 <= c < size ==>
            modules[r, c] == if (y - 2 <= r < y + dy && Distance(x, c) <= 2) || (r == y + dy && x - 2 <= c < x + dx)
                             then AlignmentDark(Distance(x, c), Distance(y, r)) else old(modules[r, c])
        {
          SetFunctionModule(x + dx, y + dy, AlignmentDark(Distance(dx, 0), Distance(dy, 0)));
        }
      }
    }

    // Every module of every pattern has its ring's colour; all others are as before.
    method DrawAlignmentPatterns(ps: seq<nat>)
      requires Valid() && AlignmentOk(size, ps)
      modifies modules, isFunction
      ensures forall r, c :: 0 <= r < size && 0 <= c < size ==>
        isFunction[r, c] == (old(isFunction[r, c]) || Alignment(ps, c, r))
      ensures forall r, c :: 0 <= r < size && 0 <= c < size ==>
        PatternColour(ps, |ps|, 0, c, r, modules[r, c], old(modules[r, c]))
    {
      hide Alignment, AlignmentUpTo, PatternColour, AlignmentDark;
      var numAlign := |ps|;
      forall r: nat, c: nat { AlignmentAll(ps, c, r); }
      forall r: nat, c: nat, m: bool { NoColour(ps, c, r, m); }
      for i := 0 to numAlign
        invariant forall r, c :: 0 <= r < size && 0 <= c < size ==>
          isFunction[r, c] == (old(isFunction[r, c]) || AlignmentUpTo(ps, i, 0, c, r))
        invariant forall r, c :: 0 <= r < size && 0 <= c < size ==>
          PatternColour(ps, i, 0, c, r, modules[r, c], old(modules[r, c]))
      {
        for j := 0 to numAlign
          invariant forall r, c :: 0 <= r < size && 0 <= c < size ==>
            isFunction[r, c] == (old(isFunction[r, c]) || AlignmentUpTo(ps, i, j, c, r))
          invariant forall r, c :: 0 <= r < size && 0 <= c < size ==>
            PatternColour(ps, i, j, c, r, modules[r, c], old(modules[r, c]))
        {
          forall r: nat, c: nat { AlignmentStep(ps, i, j, c, r); }
          label Before:
          if !((i == 0 && j == 0) || (i == 0 && j == numAlign - 1) || (i == numAlign - 1 && j == 0)) {
            DrawAlignmentPattern(ps[i], ps[j]);
          }
          forall r, c | 0 <= r < size && 0 <= c < size
            ensures PatternColour(ps, i, j + 1, c, r, modules[r, c], old(modules[r, c]))
          {
            ColourStep(size, ps, i, j, c, r, old@Before(modules[r, c]), modules[r, c], old(modules[r, c]));
          }
        }
        forall r, c | 0 <= r < size && 0 <= c < size
          ensures PatternColour(ps, i + 1, 0, c, r, modules[r, c], old(modules[r, c]))
        {
          ColourRow(ps, i, c, r, modules[r, c], old(modules[r, c]));
        }
        forall r: nat, c: nat { AlignmentRow(ps, i, c, r); }
      }
    }

    /** Both copies of the code word of level and mask. */
    method DrawFormatBits(level: nat, msk: nat)
      requires Valid() && level < 4 && msk < 8
      modifies modules, isFunction
      ensures forall r, c :: 0 <= r < size && 0 <= c < size ==>
        isFunction[r, c] == (old(isFunction[r, c]) || FormatInfo(size, c, r))
      ensures forall r, c :: 0 <= r < size && 0 <= c < size ==>
        modules[r, c] == if FormatInfo(size, c, r) then FormatDark(FormatBits(level, msk), size, c, r) else old(modules[r, c])
    {
      hide FormatInfo, FormatDark, FormatWord, LowBits;
      var word := ComputeFormat(level, msk);
      DrawFormatCopies(LowBits(word, 15));
    }

    method DrawFormatCopies(bits: seq<bool>)
      requires Valid() && |bits| == 15
      modifies modules, isFunction
      ensures forall r, c :: 0 <= r < size && 0 <= c < size ==>
        isFunction[r, c] == (old(isFunction[r, c]) || FormatInfo(size, c, r))
      ensures forall r, c :: 0 <= r < size && 0 <= c < size ==>
        modules[r, c] == if FormatInfo(size, c, r) then FormatDark(bits, size, c, r) else old(modules[r, c])
    {
      for i := 0 to 6
        invariant forall r, c :: 0 <= r < size && 0 <= c < size ==>
          isFunction[r, c] == (old(isFunction[r, c]) || (c == 8 && r < i))
        invariant forall r, c :: 0 <= r < size && 0 <= c < size ==>
          modules[r, c] == if c == 8 && r < i then bits[r] else old(modules[r, c])
      {
        SetFunctionModule(8, i, bits[i]);
      }
      SetFunctionModule(8, 7, bits[6]);
      SetFunctionModule(8, 8, bits[7]);
      SetFunctionModule(7, 8, bits[8]);
      for i := 9 to 15
        invariant forall r, c :: 0 <= r < size && 0 <= c < size ==>
          isFunction[r, c] == (old(isFunction[r, c]) || (c == 8 && (r <= 5 || r == 7 || r == 8)) || (c == 7 && r == 8)
                               || (r == 8 && 14 - i < c <= 5))
        invariant forall r, c :: 0 <= r < size && 0 <= c < size ==>
          modules[r, c] == if c == 8 && r <= 5 then bits[r] else if c == 8 && (r == 7 || r == 8) then bits[r - 1]
                           else if c == 7 && r == 8 then bits[8] else if r == 8 && 14 - i < c <= 5 then bits[14 - c]
                           else old(modules[r, c])
      {
        SetFunctionModule(14 - i, 8, bits[i]);
      }
      SecondFormatCopy(bits);
    }

    method SecondFormatCopy(bits: seq<bool>)
      requires Valid() && |bits| == 15
      modifies modules, isFunction
      ensures forall r, c :: 0 <= r < size && 0 <= c < size ==>
        isFunction[r, c] == (old(isFunction[r, c]) || (c == 8 && r + 8 >= size) || (r == 8 && c + 8 >= size))
      ensures forall r, c :: 0 <= r < size && 0 <= c < size ==>
        modules[r, c] == if c == 8 && r + 8 == size then true else if c == 8 && r + 7 >= size then bits[r + 15 - size]
                         else if r == 8 && c + 8 >= size then bits[size - 1 - c] else old(modules[r, c])
    {
      for i := 0 to 8
        invariant forall r, c :: 0 <= r < size && 0 <= c < size ==>
          isFunction[r, c] == (old(isFunction[r, c]) || (r == 8 && c + i >= size))
        invariant forall r, c :: 0 <= r < size && 0 <= c < size ==>
          modules[r, c] == if r == 8 && c + i >= size then bits[size - 1 - c] else old(modules[r, c])
      {
        SetFunctionModule(size - 1 - i, 8, bits[i]);
      }
      for i := 8 to 15
        invariant forall r, c :: 0 <= r < size && 0 <= c < size ==>
          isFunction[r, c] == (old(isFunction[r, c]) || (r == 8 && c + 8 >= size) || (c == 8 && size - 7 <= r < size - 15 + i))
        invariant forall r, c :: 0 <= r < size && 0 <= c < size ==>
          modules[r, c] == if c == 8 && size - 7 <= r < size - 15 + i then bits[r + 15 - size]
                           else if r == 8 && c + 8 >= size then bits[size - 1 - c] else old(modules[r, c])
      {
        SetFunctionModule(8, size - 15 + i, bits[i]);
      }
      SetFunctionModule(8, size - 8, true);
    }

    /** Both copies of the code word of the version, from version 7 on. */
    method DrawVersion()
      requires Valid()
      modifies modules, isFunction
      ensures forall r, c :: 0 <= r < size && 0 <= c < size ==>
        isFunction[r, c] == (old(isFunction[r, c]) || VersionInfo(version, size, c, r))
      ensures forall r, c :: 0 <= r < size && 0 <= c < size ==>
        modules[r, c] == if VersionInfo(version, size, c, r) then VersionDark(VersionBits(version), version, size, c, r)
                         else old(modules[r, c])
    {
      hide VersionWord, LowBits, VersionDark;
      if version < 7 {
        return;
      }
      var word := ComputeVersion(version);
      DrawVersionCopies(LowBits(word, 18));
    }

    method DrawVersionCopies(bits: seq<bool>)
      requires Valid() && version >= 7 && |bits| == 18
      modifies modules, isFunction
      ensures forall r, c :: 0 <= r < size && 0 <= c < size ==>
        isFunction[r, c] == (old(isFunction[r, c]) || VersionInfo(version, size, c, r))
      ensures forall r, c :: 0 <= r < size && 0 <= c < size ==>
        modules[r, c] == if VersionInfo(version, size, c, r) then VersionDark(bits, version, size, c, r) else old(modules[r, c])
    {
      for i := 0 to 18
        invariant forall r, c :: 0 <= r < size && 0 <= c < size ==>
          isFunction[r, c] == (old(isFunction[r, c])
            || (size <= c + 11 && c + 9 <= size && 3 * r + (c - (size - 11)) < i)
            || (size <= r + 11 && r + 9 <= size && 3 * c + (r - (size - 11)) < i))
        invariant forall r, c :: 0 <= r < size && 0 <= c < size ==>
          modules[r, c] == if size <= c + 11 && c + 9 <= size && 3 * r + (c - (size - 11)) < i then bits[3 * r + (c - (size - 11))]
                           else if size <= r + 11 && r + 9 <= size && 3 * c + (r - (size - 11)) < i then bits[3 * c + (r - (size - 11))]
                           else old(modules[r, c])
      {
        var a := size - 11 + i % 3;
        var b := i / 3;
        SetFunctionModule(a, b, bits[i]);
        SetFunctionModule(b, a, bits[i]);
      }
    }

    // Every function module has its colour.
    ghost predicate Coloured(ps: seq<nat>, format: seq<bool>, versionBits: seq<bool>)
      reads modules
      requires Valid() && |format| == 15 && |versionBits| == 18
    {
      forall r, c :: 0 <= r < size && 0 <= c < size && FunctionCell(version, ps, c, r) ==>
        FunctionColour(version, ps, format, versionBits, c, r, modules[r, c])
    }

    /** Marks exactly the function modules, gives each its colour and draws on no
        other module. */
    method DrawFunctionPatterns(ps: seq<nat>, level: nat)
      requires Valid() && AlignmentOk(size, ps) && level < 4
      requires forall r, c :: 0 <= r < size && 0 <= c < size ==> !isFunction[r, c]
      modifies modules, isFunction
      ensures forall r, c :: 0 <= r < size && 0 <= c < size ==> isFunction[r, c] == FunctionCell(version, ps, c, r)
      ensures Coloured(ps, FormatBits(level, 0), VersionBits(version))
      ensures forall r, c :: 0 <= r < size && 0 <= c < size && !isFunction[r, c] ==> modules[r, c] == old(modules[r, c])
    {
      hide Alignment, PatternColour, FormatDark, VersionDark, TimingDark, FinderDark, FormatBits, VersionBits;
      DrawTiming();
      DrawFinderPattern(3, 3);
      DrawFinderPattern(size - 4, 3);
      DrawFinderPattern(3, size - 4);
      label Before:
      DrawAlignmentPatterns(ps);
      forall r, c | 0 <= r < size && 0 <= c < size
        ensures !Alignment(ps, c, r) ==> modules[r, c] == old@Before(modules[r, c])
        ensures PatternColour(ps, |ps|, 0, c, r, modules[r, c], modules[r, c])
      {
        AlignmentAll(ps, c, r);
        ColourOnly(ps, c, r, modules[r, c], old@Before(modules[r, c]));
      }
      DrawFormatBits(level, 0);
      DrawVersion();
    }

    /** Refuses any number of codewords but the symbol's own.  Writes their bits
        along the scan of the free cells; cells beyond the last bit stay light, and
        function modules keep their colour. */
    method DrawCodewords(ps: seq<nat>, data: seq<Gf>) returns (placed: Option<nat>)
      requires Valid() && Marked(ps)
      requires forall r, c :: 0 <= r < size && 0 <= c < size && !isFunction[r, c] ==> !modules[r, c]
      modifies modules
      ensures placed.Some? <==> |data| == RawDataModules(version) / 8
      ensures placed.None? ==> forall r, c :: 0 <= r < size && 0 <= c < size ==> modules[r, c] == old(modules[r, c])
      ensures placed.Some? ==> placed.value == if |FullPath(version, ps)| < 8 * |data| then |FullPath(version, ps)| else 8 * |data|
      ensures placed.Some? ==> Drawn(FullPath(version, ps), CodeBits(data))
      ensures forall r, c :: 0 <= r < size && 0 <= c < size && isFunction[r, c] ==> modules[r, c] == old(modules[r, c])
    {
      hide FunctionCell, CodeBits, Path, RawDataModules;
      if |data| != RawDataModules(version) / 8 {
        return None;
      }
      var i := 0;
      var right := size - 1;
      ghost var c := 0;
      ghost var path := [];
      StartOfPath(version, ps);
      while right >= 1
        invariant 0 <= c <= Pairs(size) && right == size - 1 - 2 * c - (if size - 1 - 2 * c < 6 then 1 else 0)
        invariant path == if c < Pairs(size) then Path(version, ps, c, 0) else FullPath(version, ps)
        invariant Partly(path, CodeBits(data)) && i == Placed(|path|, data)
        invariant forall r, q :: 0 <= r < size && 0 <= q < size && isFunction[r, q] ==> modules[r, q] == old(modules[r, q])
        decreases right
      {
        if right == 6 {
          right := 5;
        }
        i, path := DrawColumns(ps, data, i, right, c);
        NextColumn(version, ps, c);
        right := right - 2;
        c := c + 1;
      }
      placed := Some(i);
    }

    ghost predicate Drawn(path: seq<Cell>, bits: Bits)
      reads modules
      requires Valid()
    {
      forall k :: 0 <= k < |path| ==>
        path[k].x < size && path[k].y < size && modules[path[k].y, path[k].x] == (k < |bits| && bits[k])
    }

    // The path so far is drawn and the free modules beyond it are still light.
    ghost predicate Partly(path: seq<Cell>, bits: Bits)
      reads modules, isFunction
      requires Valid()
    {
      && Drawn(path, bits)
      && forall r, q :: 0 <= r < size && 0 <= q < size && !isFunction[r, q] && Cell(q, r) !in path ==> !modules[r, q]
    }

    // One pair of columns.
    method DrawColumns(ps: seq<nat>, data: seq<Gf>, start: nat, right: nat, ghost c: nat) returns (i: nat, ghost path: seq<Cell>)
      requires Valid() && c < Pairs(size) && right == Right(size, c) && Marked(ps)
      requires start == Placed(|Path(version, ps, c, 0)|, data) && Partly(Path(version, ps, c, 0), CodeBits(data))
      modifies modules
      ensures path == Path(version, ps, c, size)
      ensures i == Placed(|path|, data) && Partly(path, CodeBits(data))
      ensures forall r, q :: 0 <= r < size && 0 <= q < size && isFunction[r, q] ==> modules[r, q] == old(modules[r, q])
    {
      hide FunctionCell, CodeBits, Path, Partly, Placed;
      i := start;
      path := Path(version, ps, c, 0);
      UpwardByColumn(size, c);
      var upward := (right + 1) / 2 % 2 == 0;
      for vert := 0 to size
        invariant path == Path(version, ps, c, vert)
        invariant i == Placed(|path|, data) && Partly(path, CodeBits(data))
        invariant forall r, q :: 0 <= r < size && 0 <= q < size && isFunction[r, q] ==> modules[r, q] == old(modules[r, q])
      {
        var y := if upward then size - 1 - vert else vert;
        PathStep(version, ps, c, vert, right, y);
        ghost var first, second := FreeOf(version, ps, right, y), FreeOf(version, ps, right - 1, y);
        i := DrawOne(right, y, data, i, path, first);
        i := DrawOne(right - 1, y, data, i, path + first, second);
        path := path + first + second;
      }
    }

    // How many bits a path takes.
    ghost function Placed(cells: nat, data: seq<Gf>): nat { if cells < 8 * |data| then cells else 8 * |data| }

    // One module, if it is free and there are bits left.
    method DrawOne(x: nat, y: nat, data: seq<Gf>, start: nat, ghost path: seq<Cell>, ghost free: seq<Cell>) returns (i: nat)
      requires Valid() && x < size && y < size
      requires free == if isFunction[y, x] then [] else [Cell(x, y)]
      requires Cell(x, y) !in path && Partly(path, CodeBits(data)) && start == Placed(|path|, data)
      modifies modules
      ensures i == Placed(|path + free|, data) && Partly(path + free, CodeBits(data))
      ensures forall r, q :: 0 <= r < size && 0 <= q < size && isFunction[r, q] ==> modules[r, q] == old(modules[r, q])
    {
      hide BitAt;
      i := start;
      if !isFunction[y, x] && i < 8 * |data| {
        modules[y, x] := BitAt(data[i / 8], i % 8);
        i := i + 1;
      }
    }

    /** Inverts the masked free modules. */
    method ApplyMask(mask: nat)
      requires Valid() && mask < 8
      modifies modules
      ensures forall r, c :: 0 <= r < size && 0 <= c < size ==>
        modules[r, c] == (old(modules[r, c]) != (Inverted(mask, c, r) && !isFunction[r, c]))
    {
      hide Inverted;
      for y := 0 to size
        invariant forall r, c :: 0 <= r < size && 0 <= c < size ==>
          modules[r, c] == (old(modules[r, c]) != (r < y && Inverted(mask, c, r) && !isFunction[r, c]))
      {
        for x := 0 to size
          invariant forall r, c :: 0 <= r < size && 0 <= c < size ==>
            modules[r, c] == (old(modules[r, c]) != ((r < y || (r == y && c < x)) && Inverted(mask, c, r) && !isFunction[r, c]))
        {
          modules[y, x] := modules[y, x] != (Inverted(mask, x, y) && !isFunction[y, x]);
        }
      }
    }

    // A free module holds its data bit, inverted under the mask.
    ghost predicate Masked(ps: seq<nat>, bits: Bits, mask: nat)
      reads modules
      requires Valid() && mask < 8
    {
      var path := FullPath(version, ps);
      forall k :: 0 <= k < |path| ==>
        path[k].x < size && path[k].y < size &&
        modules[path[k].y, path[k].x] == ((k < |bits| && bits[k]) != Inverted(mask, path[k].x, path[k].y))
    }

    ghost predicate Marked(ps: seq<nat>)
      reads isFunction
      requires Valid()
    {
      forall r, c :: 0 <= r < size && 0 <= c < size ==> isFunction[r, c] == FunctionCell(version, ps, c, r)
    }

    // The function modules but for the format bits.
    ghost predicate MostlyColoured(ps: seq<nat>, versionBits: seq<bool>)
      reads modules
      requires Valid() && |versionBits| == 18
    {
      forall r, c :: 0 <= r < size && 0 <= c < size && FunctionCell(version, ps, c, r) && !FormatInfo(size, c, r) ==>
        FunctionColour(version, ps, seq(15, _ => false), versionBits, c, r, modules[r, c])
    }

    /** Draws the function patterns, then the codewords, then masks.  A negative `msk`
        asks for the mask with the least penalty; every trial mask is undone by
        applying it again.  Function modules end up with their colours, the format
        bits with those of the final mask. */
    method Draw(ps: seq<nat>, data: seq<Gf>, level: nat, msk: int, penalties: seq<nat>)
      returns (mask: Option<nat>)
      requires Valid() && AlignmentOk(size, ps) && level < 4 && -1 <= msk <= 7 && |penalties| == 8
      requires forall r, c :: 0 <= r < size && 0 <= c < size ==> !modules[r, c] && !isFunction[r, c]
      modifies modules, isFunction
      ensures mask.Some? <==> |data| == RawDataModules(version) / 8
      ensures mask.Some? ==> mask.value < 8 && Masked(ps, CodeBits(data), mask.value) && Coloured(ps, FormatBits(level, mask.value), VersionBits(version))
      ensures mask.Some? && msk >= 0 ==> mask.value == msk
      ensures mask.Some? && msk == -1 ==> forall m :: 0 <= m < 8 ==> penalties[mask.value] <= penalties[m]
    {
      hide CodeBits, FunctionCell, Inverted, FullPath, RawDataModules, FunctionColour, FormatBits, VersionBits;
      ghost var versionBits := VersionBits(version);
      DrawFunctionPatterns(ps, level);
      FormatDoesNotMatter(FormatBits(level, 0), versionBits);
      var placed := DrawCodewords(ps, data);
      if placed.None? {
        return None;
      }
      ghost var bits := CodeBits(data);
      FullPathIsAllFree(version, ps);
      var best: nat;
      if msk == -1 {
        best := TryMasks(ps, level, versionBits, penalties, bits);
      } else {
        best := msk;
      }
      MaskAndFormat(ps, best, level, versionBits, bits);
      mask := Some(best);
    }

    // Away from the format modules the format bits do not show.
    lemma FormatDoesNotMatter(format: seq<bool>, versionBits: seq<bool>)
      requires Valid() && |format| == 15 && |versionBits| == 18
      ensures forall ps, x: nat, y: nat, dark :: x < size && y < size && !FormatInfo(size, x, y) ==>
        FunctionColour(version, ps, format, versionBits, x, y, dark) == FunctionColour(version, ps, seq(15, _ => false), versionBits, x, y, dark)
    {
      hide PatternColour, Alignment, FormatDark, VersionDark, TimingDark, FinderDark;
    }

    method TryMasks(ps: seq<nat>, level: nat, ghost versionBits: seq<bool>, penalties: seq<nat>, ghost bits: Bits)
      returns (mask: nat)
      requires Valid() && Marked(ps) && Drawn(FullPath(version, ps), bits) && |versionBits| == 18 && MostlyColoured(ps, versionBits)
      requires |penalties| == 8 && level < 4
      modifies modules, isFunction
      ensures Marked(ps) && Drawn(FullPath(version, ps), bits) && MostlyColoured(ps, versionBits)
      ensures mask < 8 && forall m :: 0 <= m < 8 ==> penalties[mask] <= penalties[m]
    {
      hide FunctionCell, Inverted, FullPath, Drawn, Marked, MostlyColoured, Coloured;
      mask := 0;
      for i := 0 to 8
        invariant Marked(ps) && Drawn(FullPath(version, ps), bits) && MostlyColoured(ps, versionBits)
        invariant mask < 8 && forall m :: 0 <= m < i ==> penalties[mask] <= penalties[m]
      {
        MaskAndFormat(ps, i, level, versionBits, bits);
        if i == 0 || penalties[i] < penalties[mask] {
          mask := i;
        }
        Unmask(ps, i, versionBits, bits);
      }
    }

    method MaskAndFormat(ps: seq<nat>, mask: nat, level: nat, ghost versionBits: seq<bool>, ghost bits: Bits)
      requires Valid() && mask < 8 && level < 4 && Marked(ps) && Drawn(FullPath(version, ps), bits)
      requires |versionBits| == 18 && MostlyColoured(ps, versionBits)
      modifies modules, isFunction
      ensures Marked(ps) && Masked(ps, bits, mask) && Coloured(ps, FormatBits(level, mask), versionBits) && MostlyColoured(ps, versionBits)
    {
      hide Inverted, FullPath, Alignment, FunctionColour, FormatDark, FormatBits;
      ghost var format := FormatBits(level, mask);
      FullPathIsAllFree(version, ps);
      ApplyMask(mask);
      DrawFormatBits(level, mask);
      FormatDoesNotMatter(format, versionBits);
      forall r, c | 0 <= r < size && 0 <= c < size && FormatInfo(size, c, r)
        ensures FunctionColour(version, ps, format, versionBits, c, r, modules[r, c])
      {
        FormatShows(ps, format, versionBits, c, r);
      }
    }

    lemma FormatShows(ps: seq<nat>, format: seq<bool>, versionBits: seq<bool>, x: nat, y: nat)
      requires Valid() && |format| == 15 && |versionBits| == 18 && x < size && y < size && FormatInfo(size, x, y)
      ensures FunctionColour(version, ps, format, versionBits, x, y, FormatDark(format, size, x, y))
    {
      hide FormatDark;
    }

    method Unmask(ps: seq<nat>, mask: nat, ghost versionBits: seq<bool>, ghost bits: Bits)
      requires Valid() && mask < 8 && Marked(ps) && Masked(ps, bits, mask)
      requires |versionBits| == 18 && MostlyColoured(ps, versionBits)
      modifies modules
      ensures Marked(ps) && Drawn(FullPath(version, ps), bits) && MostlyColoured(ps, versionBits)
    {
      hide Inverted, FullPath, FunctionCell, FunctionColour, FormatInfo;
      FullPathIsAllFree(version, ps);
      ApplyMask(mask);
    }
  }
}
