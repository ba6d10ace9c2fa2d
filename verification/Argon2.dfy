/** Argon2 memory filling: which block each block is mixed with, and what the
    work area holds at every moment of every schedule of the lanes. */
module Argon2 {
  import opened Arithmetic

  const W32: nat := 0x1_0000_0000

  type u64 = x: int | 0 <= x < 0x1_0000_0000_0000_0000

  type Blk = s: seq<bv64> | |s| == 128 witness seq(128, _ => 0)

  function XorBlock(x: Blk, y: Blk): Blk {
    seq(128, i requires 0 <= i < 128 => x[i] ^ y[i])
  }

  /** What one run is given.  `mangle` stands for g_rounds and `start` for the
      two blocks per lane that are hashed from the inputs. */
  datatype Config = Config(
    lanes: nat, segmentSize: nat, passes: nat, algorithm: nat,
    start: (nat, nat) -> Blk, mangle: Blk -> Blk)
  {
    // At least eight blocks per lane, and every count a 32-bit number.
    predicate Valid() {
      && lanes >= 1 && segmentSize >= 2
      && lanes * LaneSize() < W32
      && 1 <= passes < W32 && algorithm < W32
    }
    function LaneSize(): nat { 4 * segmentSize }
  }

  const ARGON2_D: nat := 0
  const ARGON2_ID: nat := 2

  /** One iteration of the innermost loop. */
  datatype Position = Position(pass: nat, slice: nat, segment: nat, block: nat)

  predicate Fillable(c: Config, p: Position) {
    && p.pass < W32 && p.slice < 4 && p.segment < c.lanes && p.block < c.segmentSize
    && (p.pass == 0 && p.slice == 0 ==> p.block >= 2)
  }

  function Column(c: Config, p: Position): nat {
    p.slice * c.segmentSize + p.block
  }

  // -------------------------------------------------------------------
  // The reference set of section 3.4.2 of RFC 9106
  // -------------------------------------------------------------------

  function Range(a: nat, b: nat): (r: seq<nat>)
    requires a <= b
    ensures |r| == b - a && forall i :: 0 <= i < |r| ==> r[i] == a + i
  {
    seq(b - a, i => a + i)
  }

  /** The columns of a lane finished before the current slice began and not yet
      due to be overwritten, oldest first. */
  function Finished(seg: nat, pass: nat, slice: nat): (w: seq<nat>)
    requires slice < 4
    ensures |w| == if pass == 0 then slice * seg else 3 * seg
  {
    SliceBounds(seg, slice);
    if pass == 0 then Range(0, slice * seg)
    else Range((slice + 1) * seg, 4 * seg) + Range(0, slice * seg)
  }

  lemma SliceBounds(seg: nat, slice: nat)
    requires slice < 4
    ensures slice * seg <= 3 * seg && (slice + 1) * seg == slice * seg + seg
    ensures slice > 0 ==> slice * seg >= seg
  {
  }

  /** The set W, in the order its blocks were constructed.  In the lane being
      filled the blocks of the current segment are available too, but the
      previous block is not; at the start of a segment no other lane gives its
      last block either. */
  function ReferenceSet(c: Config, p: Position, own: bool): (w: seq<nat>)
    requires c.Valid() && Fillable(c, p)
    requires own || p.pass > 0 || p.slice > 0
    ensures 1 <= |w| < 4 * c.segmentSize
  {
    var before := Finished(c.segmentSize, p.pass, p.slice);
    SliceBounds(c.segmentSize, p.slice);
    if own then
      var all := before + Range(p.slice * c.segmentSize, Column(c, p));
      all[..|all| - 1]
    else if p.block == 0 then before[..|before| - 1]
    else before
  }

  function Lane(c: Config, p: Position, seed: u64): (l: nat)
    requires c.Valid() && Fillable(c, p)
    ensures l < c.lanes
    ensures l == p.segment || p.pass > 0 || p.slice > 0
  {
    if p.pass == 0 && p.slice == 0 then p.segment
    else (seed / W32) % c.lanes
  }

  // How far back from the newest block of a window the selector j1 points.
  function Backwards(size: nat, j1: nat): (y: nat)
    requires j1 < W32
    ensures size > 0 ==> y < size
  {
    BackwardsBound(size, j1);
    size * (j1 * j1 / W32) / W32
  }

  lemma BackwardsBound(size: nat, j1: nat)
    requires j1 < W32
    ensures 0 <= j1 * j1 / W32 < W32
    ensures 0 <= size * (j1 * j1 / W32)
    ensures size > 0 ==> size * (j1 * j1 / W32) / W32 < size
    ensures size < W32 ==> size * (j1 * j1 / W32) < W32 * W32
  {
    assert j1 * j1 < W32 * W32 by { MulBound(j1, j1, W32 - 1, W32 - 1); }
    ScaledDown(size, j1 * j1 / W32);
  }

  lemma ScaledDown(size: nat, x: nat)
    requires x < W32
    ensures 0 <= size * x <= size * (W32 - 1)
    ensures size > 0 ==> size * x / W32 < size
    ensures size < W32 ==> size * x < W32 * W32
  {
    MulMono(size, x, W32 - 1);
  }

  function Reference(c: Config, p: Position, seed: u64): (col: nat)
    requires c.Valid() && Fillable(c, p)
  {
    var w := ReferenceSet(c, p, Lane(c, p, seed) == p.segment);
    w[|w| - 1 - Backwards(|w|, seed % W32)]
  }

  /** Every candidate is inside the lane, is not the current block, is not the
      previous block of the lane being filled, and in any other lane is outside
      the slice being filled; in the first pass it has been constructed. */
  lemma CandidateIsSafe(c: Config, p: Position, own: bool, k: nat)
    requires c.Valid() && Fillable(c, p)
    requires own || p.pass > 0 || p.slice > 0
    requires k < |ReferenceSet(c, p, own)|
    ensures var col := ReferenceSet(c, p, own)[k];
      && col < c.LaneSize()
      && (p.pass == 0 ==> col < Column(c, p))
      && col != Column(c, p)
      && (own ==> col != PreviousColumn(c, p))
      && (p.slice * c.segmentSize <= col < (p.slice + 1) * c.segmentSize ==> own && col < Column(c, p))
  {
  }

  function PreviousColumn(c: Config, p: Position): int {
    if p.block == 0 && p.slice == 0 then c.LaneSize() - 1 else Column(c, p) - 1
  }

  /** Conversely the reference set leaves out only what it has to: every column
      of another lane outside the slice being filled, except the newest when a
      segment starts. */
  lemma NothingElseIsLeftOut(c: Config, p: Position, own: bool, col: nat)
    requires c.Valid() && Fillable(c, p)
    requires own || p.pass > 0 || p.slice > 0
    requires col < c.LaneSize() && (p.pass == 0 ==> col < Column(c, p))
    requires p.slice * c.segmentSize <= col < (p.slice + 1) * c.segmentSize ==> own && col < Column(c, p)
    requires own || p.block == 0 ==> col != PreviousColumn(c, p)
    ensures col in ReferenceSet(c, p, own)
  {
    var seg, w := c.segmentSize, ReferenceSet(c, p, own);
    SliceBounds(seg, p.slice);
    if p.pass == 0 {
      assert w[col] == col;
    } else if col >= (p.slice + 1) * seg {
      assert w[col - (p.slice + 1) * seg] == col;
    } else {
      assert w[col + (3 - p.slice) * seg] == col;
    }
  }

  /** The window arithmetic, on wrapping 32-bit numbers, finds exactly the block
      the specification names. */
  method ReferenceIndex(c: Config, p: Position, seed: u64) returns (index: nat)
    requires c.Valid() && Fillable(c, p)
    ensures index == Lane(c, p, seed) * c.LaneSize() + Reference(c, p, seed)
    ensures index < c.lanes * c.LaneSize()
  {
    hide ReferenceSet, Finished, Range, Column;
    var laneSize := c.LaneSize();
    var nextSlice := ((p.slice + 1) % 4) * c.segmentSize;
    var windowStart := if p.pass == 0 then 0 else nextSlice;
    var nbSegments := if p.pass == 0 then p.slice else 3;
    var lane := if p.pass == 0 && p.slice == 0 then p.segment else (seed / W32) % c.lanes;
    var extra := if lane == p.segment then (p.block - 1) % W32 else if p.block == 0 then W32 - 1 else 0;
    var windowSize := (nbSegments * c.segmentSize + extra) % W32;
    ghost var w := ReferenceSet(c, p, lane == p.segment);
    WindowSize(c, p, lane == p.segment, nbSegments, extra);

    var j1 := seed % W32;
    BackwardsBound(windowSize, j1);
    var x := j1 * j1 / W32;
    var y := windowSize * x / W32;
    var z := (windowSize - 1) - y;
    var ref := (windowStart + z) % laneSize;
    WindowCell(c, p, lane == p.segment, windowStart, z);
    index := lane * laneSize + ref;
    IndexBound(lane, c.lanes, laneSize, ref);
  }

  lemma IndexBound(lane: nat, lanes: nat, size: nat, col: nat)
    requires lane < lanes && col < size
    ensures lane * size + col < lanes * size
  {
    assert (lane + 1) * size <= lanes * size;
  }

  // One less than no block wraps to 2^32 - 1; adding it wraps back.
  lemma WindowSize(c: Config, p: Position, own: bool, nbSegments: nat, extra: nat)
    requires c.Valid() && Fillable(c, p)
    requires own || p.pass > 0 || p.slice > 0
    requires nbSegments == if p.pass == 0 then p.slice else 3
    requires extra == if own then (p.block - 1) % W32 else if p.block == 0 then W32 - 1 else 0
    ensures (nbSegments * c.segmentSize + extra) % W32 == |ReferenceSet(c, p, own)|
  {
    var seg := c.segmentSize;
    var back := if own then p.block - 1 else if p.block == 0 then -1 else 0;
    SetSize(c, p, own, nbSegments);
    assert 4 * seg < W32 by { MulMono(c.LaneSize(), 1, c.lanes); }
    Wrapped(nbSegments * seg, back, extra);
  }

  lemma Wrapped(a: nat, back: int, extra: nat)
    requires a < W32 && -1 <= back < W32 && 0 <= a + back < W32
    requires extra == back % W32
    ensures (a + extra) % W32 == a + back
  {
  }

  lemma SetSize(c: Config, p: Position, own: bool, nbSegments: nat)
    requires c.Valid() && Fillable(c, p)
    requires own || p.pass > 0 || p.slice > 0
    requires nbSegments == if p.pass == 0 then p.slice else 3
    ensures var back := if own then p.block - 1 else if p.block == 0 then -1 else 0;
      |ReferenceSet(c, p, own)| == nbSegments * c.segmentSize + back
    ensures nbSegments * c.segmentSize <= 3 * c.segmentSize
  {
  }

  lemma WindowCell(c: Config, p: Position, own: bool, start: nat, z: nat)
    requires c.Valid() && Fillable(c, p)
    requires own || p.pass > 0 || p.slice > 0
    requires z < |ReferenceSet(c, p, own)|
    requires start == if p.pass == 0 then 0 else ((p.slice + 1) % 4) * c.segmentSize
    ensures ReferenceSet(c, p, own)[z] == (start + z) % c.LaneSize()
  {
    var n := c.LaneSize();
    Unwrapped(c, p, own, start, z);
    DivModUnique(start + z, n, if start + z < n then 0 else 1, if start + z < n then start + z else start + z - n);
  }

  lemma Unwrapped(c: Config, p: Position, own: bool, start: nat, z: nat)
    requires c.Valid() && Fillable(c, p)
    requires own || p.pass > 0 || p.slice > 0
    requires z < |ReferenceSet(c, p, own)|
    requires start == if p.pass == 0 then 0 else ((p.slice + 1) % 4) * c.segmentSize
    ensures start < c.LaneSize()
    ensures ReferenceSet(c, p, own)[z] == if start + z < c.LaneSize() then start + z else start + z - c.LaneSize()
  {
    hide ReferenceSet;
    PrefixOfAll(c, p, own, z);
  }

  lemma PrefixOfAll(c: Config, p: Position, own: bool, z: nat)
    requires c.Valid() && Fillable(c, p)
    requires own || p.pass > 0 || p.slice > 0
    requires z < |ReferenceSet(c, p, own)|
    ensures z < |Finished(c.segmentSize, p.pass, p.slice)| ==> ReferenceSet(c, p, own)[z] == Finished(c.segmentSize, p.pass, p.slice)[z]
    ensures z >= |Finished(c.segmentSize, p.pass, p.slice)| ==>
      ReferenceSet(c, p, own)[z] == p.slice * c.segmentSize + z - |Finished(c.segmentSize, p.pass, p.slice)|
  {
  }

  // -------------------------------------------------------------------
  // The blocks, as section 3.2 of RFC 9106 defines them
  // -------------------------------------------------------------------

  // Argon2i indexes independently of the data throughout; Argon2id does so in
  // the first two slices of the first pass.
  predicate Independent(c: Config, pass: nat, slice: nat) {
    c.algorithm != ARGON2_D && !(c.algorithm == ARGON2_ID && (pass > 0 || slice >= 2))
  }

  function Word(n: nat): bv64 {
    (n % W32) as bv64
  }

  // R xor G(R)
  function Shuffled(c: Config, r: Blk): Blk {
    XorBlock(c.mangle(r), r)
  }

  function AddressInput(c: Config, pass: nat, slice: nat, segment: nat, counter: nat): Blk {
    seq(128, (i: nat) =>
      match i
      case 0 => Word(pass)
      case 1 => Word(segment)
      case 2 => Word(slice)
      case 3 => Word(c.lanes * c.LaneSize())
      case 4 => Word(c.passes)
      case 5 => Word(c.algorithm)
      case 6 => Word(counter)
      case _ => 0)
  }

  function AddressBlock(c: Config, pass: nat, slice: nat, segment: nat, counter: nat): Blk {
    Shuffled(c, Shuffled(c, AddressInput(c, pass, slice, segment, counter)))
  }

  // The n-th address block gives the seeds of blocks 128 (n - 1) to 128 n - 1.
  function Seed(c: Config, p: Position, previous: Blk): u64
    requires c.Valid() && Fillable(c, p)
  {
    SegmentIsSmall(c);
    if Independent(c, p.pass, p.slice) then AddressBlock(c, p.pass, p.slice, p.segment, p.block / 128 + 1)[p.block % 128] as u64
    else previous[0] as u64
  }

  lemma SegmentIsSmall(c: Config)
    requires c.Valid()
    ensures c.LaneSize() < W32
    ensures forall l :: 0 <= l < c.lanes ==> l * c.LaneSize() < W32
  {
    MulMono(c.LaneSize(), 1, c.lanes);
    forall l | 0 <= l < c.lanes ensures l * c.LaneSize() < W32 {
      MulMono(c.LaneSize(), l, c.lanes);
    }
  }

  function Mixed(c: Config, pass: nat, previous: Blk, reference: Blk, old_: Blk): Blk {
    var fresh_ := Shuffled(c, XorBlock(previous, reference));
    if pass == 0 then fresh_ else XorBlock(old_, fresh_)
  }

  function At(c: Config, pass: nat, lane: nat, col: nat): (p: Position)
    requires c.Valid() && col < c.LaneSize()
    ensures Column(c, p) == col && p.block < c.segmentSize && p.slice < 4
    ensures p.pass == pass && p.segment == lane
    ensures p.slice == 0 && p.block < 2 <==> col < 2
  {
    var n := c.segmentSize;
    var slice := if col < n then 0 else if col < 2 * n then 1 else if col < 3 * n then 2 else 3;
    Position(pass, slice, lane, col - slice * n)
  }

  /** The block of a lane and column at the end of a pass.  A reference to a later
      column is to the block the pass before left there. */
  ghost function Value(c: Config, pass: nat, lane: nat, col: nat): Blk
    requires c.Valid() && pass < W32 && lane < c.lanes && col < c.LaneSize()
    decreases pass, col
  {
    if pass == 0 && col < 2 then c.start(lane, col)
    else
      var p := At(c, pass, lane, col);
      var previous := if col == 0 then Value(c, pass - 1, lane, c.LaneSize() - 1)
                      else Value(c, pass, lane, col - 1);
      var seed := Seed(c, p, previous);
      var from, rc := Lane(c, p, seed), Reference(c, p, seed);
      ReferenceIsSafe(c, p, seed);
      var reference := if rc < col then Value(c, pass, from, rc) else Value(c, pass - 1, from, rc);
      Mixed(c, pass, previous, reference,
            if pass == 0 then previous else Value(c, pass - 1, lane, col))
  }

  lemma ReferenceIsSafe(c: Config, p: Position, seed: u64)
    requires c.Valid() && Fillable(c, p)
    ensures var col, own := Reference(c, p, seed), Lane(c, p, seed) == p.segment;
      && col < c.LaneSize()
      && (p.pass == 0 ==> col < Column(c, p))
      && col != Column(c, p)
      && (own ==> col != PreviousColumn(c, p))
      && (p.slice * c.segmentSize <= col < (p.slice + 1) * c.segmentSize ==> own && col < Column(c, p))
  {
    hide ReferenceSet;
    var own := Lane(c, p, seed) == p.segment;
    var w := ReferenceSet(c, p, own);
    CandidateIsSafe(c, p, own, |w| - 1 - Backwards(|w|, seed % W32));
  }

  // -------------------------------------------------------------------
  // The work area while a slice is being filled
  // -------------------------------------------------------------------

  function Cell(c: Config, lane: nat, col: nat): (i: nat)
    requires lane < c.lanes && col < c.LaneSize()
    ensures i < c.lanes * c.LaneSize()
  {
    IndexBound(lane, c.lanes, c.LaneSize(), col);
    lane * c.LaneSize() + col
  }

  lemma CellsDiffer(c: Config, l: nat, col: nat, m: nat, d: nat)
    requires l < c.lanes && col < c.LaneSize() && m < c.lanes && d < c.LaneSize()
    requires l != m || col != d
    ensures Cell(c, l, col) != Cell(c, m, d)
  {
    if l < m {
      EarlierLane(c.LaneSize(), l, col, m);
    } else if m < l {
      EarlierLane(c.LaneSize(), m, d, l);
    }
  }

  lemma EarlierLane(n: nat, l: nat, col: nat, m: nat)
    requires l < m && col < n
    ensures l * n + col < m * n
  {
    MulMono(n, l + 1, m);
    assert (l + 1) * n == l * n + n;
  }

  ghost predicate CellHolds(c: Config, mem: seq<Blk>, pass: nat, progress: nat, lane: nat, col: nat)
    requires c.Valid() && pass < W32 && |mem| == c.lanes * c.LaneSize()
    requires lane < c.lanes && col < c.LaneSize()
  {
    if col < progress then mem[Cell(c, lane, col)] == Value(c, pass, lane, col)
    else pass > 0 ==> mem[Cell(c, lane, col)] == Value(c, pass - 1, lane, col)
  }

  predicate InRange(c: Config, lane: nat, col: nat) {
    lane < c.lanes && col < c.LaneSize()
  }

  /** Lane l has `progress[l]` columns of this pass, and all lanes are in the
      same slice. */
  ghost predicate InSlice(c: Config, pass: nat, slice: nat, progress: seq<nat>) {
    && pass < W32 && slice < 4 && |progress| == c.lanes
    && (forall l :: 0 <= l < c.lanes ==> slice * c.segmentSize <= progress[l] <= (slice + 1) * c.segmentSize)
    && (pass == 0 ==> forall l :: 0 <= l < c.lanes ==> progress[l] >= 2)
  }

  /** The columns a lane has behind it hold this pass's blocks, the others the
      blocks the pass before left there. */
  ghost predicate Settled(c: Config, mem: seq<Blk>, pass: nat, slice: nat, progress: seq<nat>)
    requires c.Valid()
  {
    && InSlice(c, pass, slice, progress)
    && |mem| == c.lanes * c.LaneSize()
    && forall l: nat, col: nat :: InRange(c, l, col) ==> CellHolds(c, mem, pass, progress[l], l, col)
  }

  lemma StepInRange(c: Config, p: Position, seed: u64)
    requires c.Valid() && Fillable(c, p)
    ensures 0 <= PreviousColumn(c, p) < c.LaneSize() && Column(c, p) < c.LaneSize() && Reference(c, p, seed) < c.LaneSize()
  {
    hide Reference, ReferenceSet;
    SliceBounds(c.segmentSize, p.slice);
    ReferenceIsSafe(c, p, seed);
  }

  /** One iteration of the innermost loop, on the whole work area. */
  function Step(c: Config, mem: seq<Blk>, p: Position): (after: seq<Blk>)
    requires c.Valid() && Fillable(c, p) && |mem| == c.lanes * c.LaneSize()
    ensures |after| == |mem|
  {
    StepInRange(c, p, 0);
    var previous := mem[Cell(c, p.segment, PreviousColumn(c, p))];
    var seed := Seed(c, p, previous);
    StepInRange(c, p, seed);
    var reference := mem[Cell(c, Lane(c, p, seed), Reference(c, p, seed))];
    var current := Cell(c, p.segment, Column(c, p));
    mem[current := Mixed(c, p.pass, previous, reference, mem[current])]
  }

  /** A step keeps the work area settled, whatever the other lanes have done: it
      reads only blocks whose value no other lane can change in this slice. */
  lemma StepSettles(c: Config, mem: seq<Blk>, p: Position, progress: seq<nat>)
    requires c.Valid() && Fillable(c, p)
    requires Settled(c, mem, p.pass, p.slice, progress)
    requires progress[p.segment] == Column(c, p)
    ensures Settled(c, Step(c, mem, p), p.pass, p.slice, progress[p.segment := Column(c, p) + 1])
  {
    hide Value, Step, Mixed, Reference, Lane, Seed, Independent, Cell;
    var after, lane, col := Step(c, mem, p), p.segment, Column(c, p);
    var next := progress[lane := col + 1];
    StepGivesValue(c, mem, p, progress);
    forall l: nat, d: nat | InRange(c, l, d) ensures CellHolds(c, after, p.pass, next[l], l, d) {
      assert CellHolds(c, mem, p.pass, progress[l], l, d);
      if l != lane || d != col {
        CellsDiffer(c, l, d, lane, col);
        StepKeeps(c, mem, p, Cell(c, l, d));
      }
    }
  }

  lemma StepKeeps(c: Config, mem: seq<Blk>, p: Position, i: nat)
    requires c.Valid() && Fillable(c, p) && |mem| == c.lanes * c.LaneSize()
    requires i < |mem| && i != Cell(c, p.segment, Column(c, p))
    ensures Step(c, mem, p)[i] == mem[i]
  {
  }

  lemma StepGivesValue(c: Config, mem: seq<Blk>, p: Position, progress: seq<nat>)
    requires c.Valid() && Fillable(c, p)
    requires Settled(c, mem, p.pass, p.slice, progress)
    requires progress[p.segment] == Column(c, p)
    ensures Step(c, mem, p)[Cell(c, p.segment, Column(c, p))] == Value(c, p.pass, p.segment, Column(c, p))
  {
    hide Mixed, Reference, Lane, Seed, Cell;
    var lane, col := p.segment, Column(c, p);
    var pc := PreviousColumn(c, p);
    assert At(c, p.pass, lane, col) == p;
    var previous := mem[Cell(c, lane, pc)];
    assert InRange(c, lane, pc) && InRange(c, lane, col);
    assert CellHolds(c, mem, p.pass, progress[lane], lane, pc);
    assert CellHolds(c, mem, p.pass, progress[lane], lane, col);
    var seed := Seed(c, p, previous);
    var from, rc := Lane(c, p, seed), Reference(c, p, seed);
    ReferenceIsSafe(c, p, seed);
    assert InRange(c, from, rc);
    assert CellHolds(c, mem, p.pass, progress[from], from, rc);
    MixedIgnoresOld(c, p.pass, previous, mem[Cell(c, from, rc)], mem[Cell(c, lane, col)], previous);
  }

  lemma MixedIgnoresOld(c: Config, pass: nat, previous: Blk, reference: Blk, x: Blk, y: Blk)
    ensures pass == 0 ==> Mixed(c, pass, previous, reference, x) == Mixed(c, pass, previous, reference, y)
  {
  }

  // -------------------------------------------------------------------
  // Lanes in any order
  // -------------------------------------------------------------------

  /** A schedule names the lane that fills its next block, step by step. */
  predicate Schedule(c: Config, slice: nat, progress: seq<nat>, order: seq<nat>)
    requires |progress| == c.lanes
  {
    forall l :: 0 <= l < c.lanes ==>
      progress[l] + multiset(order)[l] == (slice + 1) * c.segmentSize
  }

  predicate LanesOf(c: Config, order: seq<nat>) {
    forall i :: 0 <= i < |order| ==> order[i] < c.lanes
  }

  ghost function Run(c: Config, mem: seq<Blk>, pass: nat, slice: nat, progress: seq<nat>, order: seq<nat>): (after: seq<Blk>)
    requires c.Valid() && |mem| == c.lanes * c.LaneSize() && InSlice(c, pass, slice, progress)
    requires LanesOf(c, order) && Schedule(c, slice, progress, order)
    ensures |after| == |mem|
    decreases |order|
  {
    if order == [] then mem
    else
      OneStepOf(c, pass, slice, progress, order);
      Run(c, Step(c, mem, NextOf(c, pass, slice, progress, order[0])), pass, slice,
          Advance(progress, order[0]), order[1..])
  }

  function NextOf(c: Config, pass: nat, slice: nat, progress: seq<nat>, lane: nat): (p: Position)
    requires lane < |progress| && slice * c.segmentSize <= progress[lane]
  {
    Position(pass, slice, lane, progress[lane] - slice * c.segmentSize)
  }

  function Advance(progress: seq<nat>, lane: nat): (after: seq<nat>)
    requires lane < |progress|
  {
    progress[lane := progress[lane] + 1]
  }

  lemma OneStepOf(c: Config, pass: nat, slice: nat, progress: seq<nat>, order: seq<nat>)
    requires c.Valid() && InSlice(c, pass, slice, progress) && order != []
    requires LanesOf(c, order) && Schedule(c, slice, progress, order)
    ensures order[0] < |progress| && slice * c.segmentSize <= progress[order[0]]
    ensures Fillable(c, NextOf(c, pass, slice, progress, order[0]))
    ensures Column(c, NextOf(c, pass, slice, progress, order[0])) == progress[order[0]]
    ensures InSlice(c, pass, slice, Advance(progress, order[0]))
    ensures LanesOf(c, order[1..])
    ensures Schedule(c, slice, Advance(progress, order[0]), order[1..])
  {
    hide Fillable, Column, Schedule;
    var lane := order[0];
    FirstLane(c, slice, progress, order);
    ScheduleAfter(c, slice, progress, order);
    NextFillable(c, pass, slice, progress, lane);
  }

  lemma FirstLane(c: Config, slice: nat, progress: seq<nat>, order: seq<nat>)
    requires |progress| == c.lanes && order != [] && LanesOf(c, order) && Schedule(c, slice, progress, order)
    ensures order[0] < c.lanes && progress[order[0]] < (slice + 1) * c.segmentSize
  {
    assert multiset(order)[order[0]] >= 1;
  }

  lemma ScheduleAfter(c: Config, slice: nat, progress: seq<nat>, order: seq<nat>)
    requires |progress| == c.lanes && order != [] && LanesOf(c, order) && Schedule(c, slice, progress, order)
    ensures LanesOf(c, order[1..]) && Schedule(c, slice, Advance(progress, order[0]), order[1..])
  {
    assert order == [order[0]] + order[1..];
  }

  lemma NextFillable(c: Config, pass: nat, slice: nat, progress: seq<nat>, lane: nat)
    requires c.Valid() && InSlice(c, pass, slice, progress) && lane < c.lanes && progress[lane] < (slice + 1) * c.segmentSize
    ensures slice * c.segmentSize <= progress[lane]
    ensures Fillable(c, NextOf(c, pass, slice, progress, lane))
    ensures Column(c, NextOf(c, pass, slice, progress, lane)) == progress[lane]
    ensures InSlice(c, pass, slice, Advance(progress, lane))
  {
    SliceBounds(c.segmentSize, slice);
  }

  ghost predicate SliceFilled(c: Config, mem: seq<Blk>, pass: nat, slice: nat)
    requires c.Valid()
  {
    slice < 4 && Settled(c, mem, pass, slice, seq(c.lanes, _ => (slice + 1) * c.segmentSize))
  }

  /** Every schedule of a slice ends with the blocks the specification names. */
  lemma {:induction false} RunFills(c: Config, mem: seq<Blk>, pass: nat, slice: nat, progress: seq<nat>, order: seq<nat>)
    requires c.Valid() && Settled(c, mem, pass, slice, progress)
    requires LanesOf(c, order) && Schedule(c, slice, progress, order)
    ensures SliceFilled(c, Run(c, mem, pass, slice, progress, order), pass, slice)
    decreases |order|
  {
    hide Step, Cell, CellHolds, InRange, NextOf, Advance;
    if order == [] {
      assert progress == seq(c.lanes, _ => (slice + 1) * c.segmentSize);
    } else {
      OneStepOf(c, pass, slice, progress, order);
      var p := NextOf(c, pass, slice, progress, order[0]);
      NextSettles(c, mem, pass, slice, progress, order[0]);
      RunFills(c, Step(c, mem, p), pass, slice, Advance(progress, order[0]), order[1..]);
    }
  }

  lemma NextSettles(c: Config, mem: seq<Blk>, pass: nat, slice: nat, progress: seq<nat>, lane: nat)
    requires c.Valid() && Settled(c, mem, pass, slice, progress) && lane < c.lanes
    requires Fillable(c, NextOf(c, pass, slice, progress, lane))
    ensures Settled(c, Step(c, mem, NextOf(c, pass, slice, progress, lane)), pass, slice, Advance(progress, lane))
  {
    hide Step, Cell, CellHolds, InRange;
    StepSettles(c, mem, NextOf(c, pass, slice, progress, lane), progress);
  }

  /** A schedule writes only inside its slice. */
  lemma {:induction false} RunKeeps(c: Config, mem: seq<Blk>, pass: nat, slice: nat, progress: seq<nat>, order: seq<nat>, l: nat, col: nat)
    requires c.Valid() && |mem| == c.lanes * c.LaneSize() && InSlice(c, pass, slice, progress)
    requires LanesOf(c, order) && Schedule(c, slice, progress, order)
    requires InRange(c, l, col) && !(slice * c.segmentSize <= col < (slice + 1) * c.segmentSize)
    ensures Run(c, mem, pass, slice, progress, order)[Cell(c, l, col)] == mem[Cell(c, l, col)]
    decreases |order|
  {
    hide Step, Cell, InSlice, Schedule, LanesOf, Advance;
    if order != [] {
      OneStepOf(c, pass, slice, progress, order);
      var p := NextOf(c, pass, slice, progress, order[0]);
      RunKeeps(c, Step(c, mem, p), pass, slice, Advance(progress, order[0]), order[1..], l, col);
      CellsDiffer(c, l, col, p.segment, Column(c, p));
      StepKeeps(c, mem, p, Cell(c, l, col));
    }
  }

  /** The lanes of a slice may be filled in any interleaving. */
  lemma AnyOrderFillsTheSame(c: Config, mem: seq<Blk>, pass: nat, slice: nat, progress: seq<nat>, a: seq<nat>, b: seq<nat>)
    requires c.Valid() && Settled(c, mem, pass, slice, progress)
    requires LanesOf(c, a) && Schedule(c, slice, progress, a)
    requires LanesOf(c, b) && Schedule(c, slice, progress, b)
    ensures Run(c, mem, pass, slice, progress, a) == Run(c, mem, pass, slice, progress, b)
  {
    hide Value, Step, Cell, Run;
    var x, y := Run(c, mem, pass, slice, progress, a), Run(c, mem, pass, slice, progress, b);
    RunFills(c, mem, pass, slice, progress, a);
    RunFills(c, mem, pass, slice, progress, b);
    forall i | 0 <= i < |x| ensures x[i] == y[i] {
      var l, col := CellOf(c, i);
      assert InRange(c, l, col);
      if slice * c.segmentSize <= col < (slice + 1) * c.segmentSize {
        assert CellHolds(c, x, pass, (slice + 1) * c.segmentSize, l, col);
        assert CellHolds(c, y, pass, (slice + 1) * c.segmentSize, l, col);
      } else {
        RunKeeps(c, mem, pass, slice, progress, a, l, col);
        RunKeeps(c, mem, pass, slice, progress, b, l, col);
      }
    }
  }

  lemma CellOf(c: Config, i: nat) returns (lane: nat, col: nat)
    requires c.Valid() && i < c.lanes * c.LaneSize()
    ensures InRange(c, lane, col) && Cell(c, lane, col) == i
  {
    var n := c.LaneSize();
    lane, col := Quotient(i, n, c.lanes);
  }

  lemma Quotient(i: nat, n: nat, lanes: nat) returns (q: nat, r: nat)
    requires n > 0 && i < lanes * n
    ensures q < lanes && r < n && q * n + r == i
  {
    q, r := i / n, i % n;
    assert i == n * q + r;
    if q >= lanes {
      MulMono(n, lanes, q);
    }
  }

  // -------------------------------------------------------------------
  // The loops
  // -------------------------------------------------------------------

  // The current and the previous block.
  method Locate(c: Config, p: Position) returns (current: nat, previous: nat)
    requires c.Valid() && Fillable(c, p)
    ensures current == Cell(c, p.segment, Column(c, p))
    ensures previous == Cell(c, p.segment, PreviousColumn(c, p))
  {
    var laneOffset := p.segment * c.LaneSize();
    var sliceOffset := p.slice * c.segmentSize;
    assert sliceOffset == 0 <==> p.slice == 0;
    var segmentStart := laneOffset + sliceOffset;
    current := segmentStart + p.block;
    previous := if p.block == 0 && sliceOffset == 0 then segmentStart + c.LaneSize() - 1
                else segmentStart + p.block - 1;
  }

  /** Mixes one block in place. */
  method FillBlock(c: Config, blocks: array<Blk>, p: Position, seed: u64)
    requires c.Valid() && Fillable(c, p) && blocks.Length == c.lanes * c.LaneSize()
    requires seed == Seed(c, p, blocks[Cell(c, p.segment, PreviousColumn(c, p))])
    modifies blocks
    ensures blocks[..] == Step(c, old(blocks[..]), p)
  {
    hide Step, Seed, Reference, Lane, Independent, Mixed, XorBlock, Shuffled, Cell;
    var current, previous := Locate(c, p);
    var reference := ReferenceIndex(c, p, seed);
    ghost var mem := blocks[..];
    StepIs(c, mem, p, seed, current, previous, reference);
    var tmp := blocks[previous];
    tmp := XorBlock(tmp, blocks[reference]);
    if p.pass == 0 {
      blocks[current] := tmp;
    } else {
      blocks[current] := XorBlock(blocks[current], tmp);
    }
    tmp := c.mangle(tmp);
    blocks[current] := XorBlock(blocks[current], tmp);
    MixedInPlace(c, p.pass, mem[previous], mem[reference], mem[current]);
  }

  lemma StepIs(c: Config, mem: seq<Blk>, p: Position, seed: u64, current: nat, previous: nat, reference: nat)
    requires c.Valid() && Fillable(c, p) && |mem| == c.lanes * c.LaneSize()
    requires current == Cell(c, p.segment, Column(c, p))
    requires previous == Cell(c, p.segment, PreviousColumn(c, p))
    requires seed == Seed(c, p, mem[previous])
    requires reference == Lane(c, p, seed) * c.LaneSize() + Reference(c, p, seed) && reference < |mem|
    ensures Step(c, mem, p) == mem[current := Mixed(c, p.pass, mem[previous], mem[reference], mem[current])]
  {
    hide Mixed, Seed, Reference, Lane, Independent;
  }

  lemma MixedInPlace(c: Config, pass: nat, previous: Blk, reference: Blk, was: Blk)
    ensures var r := XorBlock(previous, reference);
      Mixed(c, pass, previous, reference, was) == XorBlock(if pass == 0 then r else XorBlock(was, r), c.mangle(r))
  {
    hide XorBlock;
    var r := XorBlock(previous, reference);
    XorOrder(was, r, c.mangle(r));
  }

  lemma XorOrder(x: Blk, r: Blk, m: Blk)
    ensures XorBlock(r, m) == XorBlock(m, r)
    ensures XorBlock(XorBlock(x, r), m) == XorBlock(x, XorBlock(m, r))
  {
    forall i | 0 <= i < 128
      ensures r[i] ^ m[i] == m[i] ^ r[i] && (x[i] ^ r[i]) ^ m[i] == x[i] ^ (m[i] ^ r[i])
    {
      XorWords(x[i], r[i], m[i]);
    }
  }

  lemma XorWords(x: bv64, r: bv64, m: bv64)
    ensures r ^ m == m ^ r && (x ^ r) ^ m == x ^ (m ^ r)
  {
  }

  // Seeds the index block and shuffles it twice.
  method RefreshIndex(c: Config, pass: nat, slice: nat, segment: nat, indexCtr: nat) returns (indexBlock: Blk)
    ensures indexBlock == AddressBlock(c, pass, slice, segment, indexCtr)
  {
    hide XorBlock, AddressInput;
    indexBlock := AddressInput(c, pass, slice, segment, indexCtr);
    var tmp := indexBlock;
    indexBlock := c.mangle(indexBlock);
    indexBlock := XorBlock(indexBlock, tmp);
    tmp := indexBlock;
    indexBlock := c.mangle(indexBlock);
    indexBlock := XorBlock(indexBlock, tmp);
  }

  // The index block before the seed of `block` is taken from it, and the counter.
  ghost predicate Indexed(c: Config, p: Position, constantTime: bool, passOffset: nat, indexBlock: Blk, indexCtr: nat) {
    constantTime ==>
      if p.block <= passOffset then indexCtr == 1
      else
        && indexCtr == (p.block - 1) / 128 + 2
        && indexBlock == AddressBlock(c, p.pass, p.slice, p.segment, (p.block - 1) / 128 + 1)
  }

  lemma SeedIs(c: Config, p: Position, previous: Blk)
    requires c.Valid() && Fillable(c, p)
    ensures Seed(c, p, previous) ==
      if Independent(c, p.pass, p.slice) then AddressBlock(c, p.pass, p.slice, p.segment, p.block / 128 + 1)[p.block % 128] as u64
      else previous[0] as u64
  {
    hide AddressBlock, Independent;
  }

  // When the index block changes, and its number.
  lemma IndexDue(block: nat, passOffset: nat)
    requires passOffset <= block && (passOffset == 0 || passOffset == 2)
    ensures block == passOffset ==> block / 128 == 0
    ensures block > passOffset && block % 128 == 0 ==> (block - 1) / 128 + 1 == block / 128
    ensures block > passOffset && block % 128 != 0 ==> (block - 1) / 128 == block / 128
  {
  }

  method NextSeed(c: Config, blocks: array<Blk>, p: Position, constantTime: bool, passOffset: nat, index: Blk, ctr: nat)
    returns (indexSeed: u64, indexBlock: Blk, indexCtr: nat)
    requires c.Valid() && Fillable(c, p) && blocks.Length == c.lanes * c.LaneSize()
    requires constantTime == Independent(c, p.pass, p.slice)
    requires passOffset <= p.block && (passOffset == 0 || passOffset == 2)
    requires Indexed(c, p, constantTime, passOffset, index, ctr)
    ensures indexSeed == Seed(c, p, blocks[Cell(c, p.segment, PreviousColumn(c, p))])
    ensures Indexed(c, p.(block := p.block + 1), constantTime, passOffset, indexBlock, indexCtr)
  {
    hide AddressBlock, Independent, Cell, Seed, PreviousColumn;
    indexBlock, indexCtr := index, ctr;
    StepInRange(c, p, 0);
    SeedIs(c, p, blocks[Cell(c, p.segment, PreviousColumn(c, p))]);
    IndexDue(p.block, passOffset);
    if constantTime {
      if p.block == passOffset || p.block % 128 == 0 {
        indexBlock := RefreshIndex(c, p.pass, p.slice, p.segment, indexCtr);
        indexCtr := indexCtr + 1;
      }
      indexSeed := indexBlock[p.block % 128] as u64;
    } else {
      indexSeed := blocks[Cell(c, p.segment, PreviousColumn(c, p))][0] as u64;
    }
  }

  /** Fills one segment.  The index block is refreshed every 128 blocks. */
  method FillSegment(c: Config, blocks: array<Blk>, pass: nat, slice: nat, segment: nat, constantTime: bool, ghost progress: seq<nat>)
    requires c.Valid() && pass < c.passes && slice < 4 && segment < c.lanes
    requires constantTime == Independent(c, pass, slice)
    requires Settled(c, blocks[..], pass, slice, progress)
    requires progress[segment] == slice * c.segmentSize + if pass == 0 && slice == 0 then 2 else 0
    modifies blocks
    ensures Settled(c, blocks[..], pass, slice, progress[segment := (slice + 1) * c.segmentSize])
  {
    hide Value, Step, CellHolds, InRange, Independent, AddressBlock, Cell, Seed, PreviousColumn;
    var passOffset := if pass == 0 && slice == 0 then 2 else 0;
    var indexBlock: Blk := seq(128, _ => 0);
    var indexCtr := 1;
    ghost var done := progress;
    for block := passOffset to c.segmentSize
      invariant blocks.Length == c.lanes * c.LaneSize()
      invariant done == progress[segment := slice * c.segmentSize + block]
      invariant Settled(c, blocks[..], pass, slice, done)
      invariant Indexed(c, Position(pass, slice, segment, block), constantTime, passOffset, indexBlock, indexCtr)
    {
      var p := Position(pass, slice, segment, block);
      var indexSeed: u64;
      indexSeed, indexBlock, indexCtr := NextSeed(c, blocks, p, constantTime, passOffset, indexBlock, indexCtr);
      ghost var mem := blocks[..];
      FillBlock(c, blocks, p, indexSeed);
      StepSettles(c, mem, p, done);
      done := done[segment := slice * c.segmentSize + block + 1];
    }
  }

  // Where the lanes stand when a slice begins.
  function Begun(c: Config, pass: nat, slice: nat): (progress: seq<nat>) {
    seq(c.lanes, _ => slice * c.segmentSize + if pass == 0 && slice == 0 then 2 else 0)
  }

  lemma SliceFollows(c: Config, mem: seq<Blk>, pass: nat, slice: nat)
    requires c.Valid() && SliceFilled(c, mem, pass, slice)
    ensures slice < 3 ==> Settled(c, mem, pass, slice + 1, Begun(c, pass, slice + 1))
    ensures slice == 3 && pass + 1 < W32 ==> Settled(c, mem, pass + 1, 0, Begun(c, pass + 1, 0))
  {
    hide Value, Cell;
    var progress := seq(c.lanes, _ => (slice + 1) * c.segmentSize);
    forall l: nat, col: nat | InRange(c, l, col)
      ensures slice < 3 ==> CellHolds(c, mem, pass, (slice + 1) * c.segmentSize, l, col)
      ensures slice == 3 && pass + 1 < W32 ==> CellHolds(c, mem, pass + 1, 0, l, col)
    {
      assert CellHolds(c, mem, pass, progress[l], l, col);
    }
  }

  /** Fills the segments of a slice, lane by lane. */
  method FillSlice(c: Config, blocks: array<Blk>, pass: nat, slice: nat, constantTime: bool)
    requires c.Valid() && pass < c.passes && slice < 4
    requires constantTime == Independent(c, pass, slice)
    requires Settled(c, blocks[..], pass, slice, Begun(c, pass, slice))
    modifies blocks
    ensures SliceFilled(c, blocks[..], pass, slice)
  {
    hide CellHolds, InRange, Independent;
    ghost var progress := Begun(c, pass, slice);
    for segment := 0 to c.lanes
      invariant |progress| == c.lanes
      invariant forall l :: 0 <= l < segment ==> progress[l] == (slice + 1) * c.segmentSize
      invariant forall l :: segment <= l < c.lanes ==> progress[l] == Begun(c, pass, slice)[l]
      invariant Settled(c, blocks[..], pass, slice, progress)
    {
      FillSegment(c, blocks, pass, slice, segment, constantTime, progress);
      progress := progress[segment := (slice + 1) * c.segmentSize];
    }
    assert progress == seq(c.lanes, _ => (slice + 1) * c.segmentSize);
  }

  ghost predicate LaneStarted(c: Config, mem: seq<Blk>, l: nat)
    requires |mem| == c.lanes * c.LaneSize() && c.Valid() && l < c.lanes
  {
    mem[Cell(c, l, 0)] == c.start(l, 0) && mem[Cell(c, l, 1)] == c.start(l, 1)
  }

  // The first two blocks of each lane, from the hash of the inputs.
  method StartLanes(c: Config, blocks: array<Blk>)
    requires c.Valid() && blocks.Length == c.lanes * c.LaneSize()
    modifies blocks
    ensures Settled(c, blocks[..], 0, 0, Begun(c, 0, 0))
  {
    hide Cell;
    for l := 0 to c.lanes
      invariant forall m :: 0 <= m < l ==> LaneStarted(c, blocks[..], m)
    {
      ghost var mem := blocks[..];
      blocks[Cell(c, l, 0)] := c.start(l, 0);
      CellsDiffer(c, l, 0, l, 1);
      blocks[Cell(c, l, 1)] := c.start(l, 1);
      forall m | 0 <= m < l + 1 ensures LaneStarted(c, blocks[..], m) {
        if m < l {
          assert LaneStarted(c, mem, m);
          CellsDiffer(c, m, 0, l, 0);
          CellsDiffer(c, m, 0, l, 1);
          CellsDiffer(c, m, 1, l, 0);
          CellsDiffer(c, m, 1, l, 1);
        }
      }
    }
    StartedIsSettled(c, blocks[..]);
  }

  lemma StartedIsSettled(c: Config, mem: seq<Blk>)
    requires c.Valid() && |mem| == c.lanes * c.LaneSize()
    requires forall m :: 0 <= m < c.lanes ==> LaneStarted(c, mem, m)
    ensures Settled(c, mem, 0, 0, Begun(c, 0, 0))
  {
    hide Cell;
    forall l: nat, col: nat | InRange(c, l, col) ensures CellHolds(c, mem, 0, 2, l, col) {
      assert LaneStarted(c, mem, l);
    }
  }

  /** Fills the whole work area: every block is the one the specification
      defines for the last pass. */
  method FillMemory(c: Config, blocks: array<Blk>)
    requires c.Valid() && blocks.Length == c.lanes * c.LaneSize()
    modifies blocks
    ensures forall l: nat, col: nat :: InRange(c, l, col) ==>
      blocks[Cell(c, l, col)] == Value(c, c.passes - 1, l, col)
  {
    hide Value, Cell, Begun;
    StartLanes(c, blocks);
    var constantTime := c.algorithm != ARGON2_D;
    for pass := 0 to c.passes
      invariant pass == 0 || SliceFilled(c, blocks[..], pass - 1, 3)
      invariant Settled(c, blocks[..], pass, 0, Begun(c, pass, 0))
      invariant pass > 0 ==> constantTime == Independent(c, pass, 0)
      invariant pass == 0 ==> constantTime == (c.algorithm != ARGON2_D)
    {
      for slice := 0 to 4
        invariant slice > 0 ==> SliceFilled(c, blocks[..], pass, slice - 1)
        invariant slice < 4 ==> Settled(c, blocks[..], pass, slice, Begun(c, pass, slice))
        invariant slice == 4 ==> Settled(c, blocks[..], pass + 1, 0, Begun(c, pass + 1, 0))
        invariant constantTime == (c.algorithm != ARGON2_D && !(c.algorithm == ARGON2_ID && (pass > 0 || slice > 2)))
      {
        if slice == 2 && c.algorithm == ARGON2_ID {
          constantTime := false;
        }
        FillSlice(c, blocks, pass, slice, constantTime);
        SliceFollows(c, blocks[..], pass, slice);
      }
    }
    FilledHolds(c, blocks[..], c.passes - 1);
  }

  lemma FilledHolds(c: Config, mem: seq<Blk>, pass: nat)
    requires c.Valid() && SliceFilled(c, mem, pass, 3)
    ensures forall l: nat, col: nat :: InRange(c, l, col) ==> mem[Cell(c, l, col)] == Value(c, pass, l, col)
  {
    hide Value, Cell;
    var progress := seq(c.lanes, _ => 4 * c.segmentSize);
    forall l: nat, col: nat | InRange(c, l, col) ensures mem[Cell(c, l, col)] == Value(c, pass, l, col) {
      assert CellHolds(c, mem, pass, progress[l], l, col);
    }
  }

  // The exclusive or of the last blocks of lanes 0 to `lane`.
  ghost function LastBlocks(c: Config, lane: nat): Blk
    requires c.Valid() && lane < c.lanes
  {
    var own := Value(c, c.passes - 1, lane, c.LaneSize() - 1);
    if lane == 0 then own else XorBlock(own, LastBlocks(c, lane - 1))
  }

  /** The block that the final hash is taken of. */
  method FinalBlock(c: Config, blocks: array<Blk>) returns (last: Blk)
    requires c.Valid() && blocks.Length == c.lanes * c.LaneSize()
    modifies blocks
    ensures last == LastBlocks(c, c.lanes - 1)
  {
    hide Value, XorBlock;
    FillMemory(c, blocks);
    var n := c.LaneSize();
    ghost var filled := blocks[..];
    var lastBlock := n - 1;
    assert InRange(c, 0, n - 1);
    for lane := 1 to c.lanes
      invariant lastBlock == Cell(c, lane - 1, n - 1)
      invariant blocks[lastBlock] == LastBlocks(c, lane - 1)
      invariant forall i :: lastBlock < i < blocks.Length ==> blocks[i] == filled[i]
    {
      var nextBlock := lastBlock + n;
      assert InRange(c, lane, n - 1) && nextBlock == Cell(c, lane, n - 1);
      blocks[nextBlock] := XorBlock(blocks[nextBlock], blocks[lastBlock]);
      lastBlock := nextBlock;
    }
    last := blocks[lastBlock];
  }
}
