/** Span-based flood fill over a mutable image with an explicit, bounded stack of frames. */
module FloodFill {

  datatype Cell = Cell(x: int, y: int)
  datatype Span = Span(y: int, left: int, right: int)

  // One suspended row: the next column to look at above it and below it, and its right end.
  datatype Frame = Frame(y: int, right: int, leftUp: int, leftDown: int)

  /* ---------- what is to be filled ---------- */

  predicate Adjacent(c: Cell, d: Cell) {
    (c.x == d.x && (c.y == d.y + 1 || d.y == c.y + 1)) || (c.y == d.y && (c.x == d.x + 1 || d.x == c.x + 1))
  }

  ghost predicate Path(region: set<Cell>, p: seq<Cell>) {
    && p != []
    && (forall i :: 0 <= i < |p| ==> p[i] in region)
    && (forall i :: 0 < i < |p| ==> Adjacent(p[i - 1], p[i]))
  }

  // c and d lie in one 4-connected component of the region.
  ghost predicate Joined(region: set<Cell>, c: Cell, d: Cell) {
    exists p :: Path(region, p) && p[0] == c && p[|p| - 1] == d
  }

  lemma JoinedRefl(region: set<Cell>, c: Cell)
    requires c in region
    ensures Joined(region, c, c)
  {
    assert Path(region, [c]);
  }

  lemma JoinedStep(region: set<Cell>, c: Cell, d: Cell, e: Cell)
    requires Joined(region, c, d) && Adjacent(d, e) && e in region
    ensures Joined(region, c, e)
  {
    var p :| Path(region, p) && p[0] == c && p[|p| - 1] == d;
    var q := p + [e];
    assert Path(region, q);
    assert q[0] == c && q[|q| - 1] == e;
  }

  // A set that holds the start and is closed under adjacency within the region holds the whole component.
  lemma {:induction false} ClosedHoldsPath(region: set<Cell>, filled: set<Cell>, p: seq<Cell>)
    requires Path(region, p) && p[0] in filled
    requires forall c, d :: c in filled && d in region && Adjacent(c, d) ==> d in filled
    ensures p[|p| - 1] in filled
  {
    if |p| > 1 {
      var q := p[..|p| - 1];
      assert Path(region, q);
      ClosedHoldsPath(region, filled, q);
      assert Adjacent(p[|p| - 2], p[|p| - 1]);
    }
  }

  /* ---------- spans ---------- */

  ghost function SpanCells(s: Span): set<Cell> {
    set x | s.left <= x <= s.right :: Cell(x, s.y)
  }

  lemma {:induction false} SpanSize(s: Span)
    requires s.left <= s.right + 1
    ensures |SpanCells(s)| == s.right - s.left + 1
    decreases s.right - s.left
  {
    if s.left <= s.right {
      var t := s.(right := s.right - 1);
      SpanSize(t);
      assert SpanCells(s) == SpanCells(t) + {Cell(s.right, s.y)};
    } else {
      assert SpanCells(s) == {};
    }
  }

  ghost function Covered(spans: seq<Span>): set<Cell> {
    if spans == [] then {} else Covered(spans[..|spans| - 1]) + SpanCells(spans[|spans| - 1])
  }

  ghost predicate Disjoint(spans: seq<Span>) {
    forall i, j :: 0 <= i < j < |spans| ==> SpanCells(spans[i]) !! SpanCells(spans[j])
  }

  lemma {:induction false} CoveredHolds(spans: seq<Span>, i: nat)
    requires i < |spans|
    ensures SpanCells(spans[i]) <= Covered(spans)
  {
    if i < |spans| - 1 { CoveredHolds(spans[..|spans| - 1], i); }
  }

  lemma DisjointExtend(spans: seq<Span>, s: Span)
    requires Disjoint(spans) && Covered(spans) !! SpanCells(s)
    ensures Disjoint(spans + [s]) && Covered(spans + [s]) == Covered(spans) + SpanCells(s)
  {
    var t := spans + [s];
    assert t[..|t| - 1] == spans;
    forall i, j | 0 <= i < j < |t| ensures SpanCells(t[i]) !! SpanCells(t[j]) {
      if j == |t| - 1 {
        CoveredHolds(spans, i);
      }
    }
  }

  // The row from a joined cell to every cell of a span of the region.
  lemma {:induction false} SpanJoined(region: set<Cell>, start: Cell, s: Span, x: int, z: int)
    requires SpanCells(s) <= region && s.left <= x <= s.right && s.left <= z <= s.right
    requires Joined(region, start, Cell(x, s.y))
    ensures Joined(region, start, Cell(z, s.y))
    decreases if x < z then z - x else x - z
  {
    if x != z {
      var t := if x < z then x + 1 else x - 1;
      assert Cell(t, s.y) in SpanCells(s);
      JoinedStep(region, start, Cell(x, s.y), Cell(t, s.y));
      SpanJoined(region, start, s, t, z);
    }
  }

  /* ---------- the invariant of the walk ---------- */

  predicate Open(rest: set<Cell>, x: int, y: int) { Cell(x, y) in rest }

  // Frame f will still look above (or below) cell c.
  predicate Looks(f: Frame, c: Cell, up: bool) {
    f.y == c.y && (if up then f.leftUp else f.leftDown) <= c.x <= f.right
  }

  ghost predicate Waiting(frames: seq<Frame>, c: Cell, up: bool) {
    exists k :: 0 <= k < |frames| && Looks(frames[k], c, up)
  }

  // A filled cell has no unfilled neighbour but those some frame will still look at.
  ghost predicate CellSettled(rest: set<Cell>, frames: seq<Frame>, c: Cell) {
    && !Open(rest, c.x - 1, c.y) && !Open(rest, c.x + 1, c.y)
    && (Open(rest, c.x, c.y - 1) ==> Waiting(frames, c, true))
    && (Open(rest, c.x, c.y + 1) ==> Waiting(frames, c, false))
  }

  ghost predicate Settled(filled: set<Cell>, rest: set<Cell>, frames: seq<Frame>) {
    forall c :: c in filled ==> CellSettled(rest, frames, c)
  }

  ghost predicate FrameOk(filled: set<Cell>, f: Frame) {
    forall c :: Looks(f, c, true) || Looks(f, c, false) ==> c in filled
  }

  ghost predicate FramesOk(filled: set<Cell>, frames: seq<Frame>) {
    forall k :: 0 <= k < |frames| ==> FrameOk(filled, frames[k])
  }

  ghost predicate AllJoined(region: set<Cell>, start: Cell, filled: set<Cell>) {
    forall c :: c in filled ==> Joined(region, start, c)
  }

  function NewFrame(s: Span): Frame { Frame(s.y, s.right, s.left, s.left) }

  // Filling a maximal span and pushing its frame.
  lemma PushSettled(filled: set<Cell>, rest: set<Cell>, frames: seq<Frame>, s: Span)
    requires Settled(filled, rest, frames) && s.left <= s.right
    requires !Open(rest, s.left - 1, s.y) && !Open(rest, s.right + 1, s.y)
    ensures Settled(filled + SpanCells(s), rest - SpanCells(s), frames + [NewFrame(s)])
  {
    var rest', next := rest - SpanCells(s), frames + [NewFrame(s)];
    assert forall x, y :: Open(rest', x, y) ==> Open(rest, x, y);
    forall c | c in filled + SpanCells(s) ensures CellSettled(rest', next, c) {
      if c in SpanCells(s) {
        assert Looks(next[|frames|], c, true) && Looks(next[|frames|], c, false);
        assert c.x > s.left ==> Cell(c.x - 1, c.y) in SpanCells(s);
        assert c.x < s.right ==> Cell(c.x + 1, c.y) in SpanCells(s);
      } else {
        assert CellSettled(rest, frames, c);
        WaitingPush(frames, NewFrame(s), c, true);
        WaitingPush(frames, NewFrame(s), c, false);
      }
    }
  }

  lemma WaitingPush(frames: seq<Frame>, f: Frame, c: Cell, up: bool)
    ensures Waiting(frames, c, up) ==> Waiting(frames + [f], c, up)
  {
    if Waiting(frames, c, up) {
      var k :| 0 <= k < |frames| && Looks(frames[k], c, up);
      assert (frames + [f])[k] == frames[k];
    }
  }

  lemma PushFrames(filled: set<Cell>, frames: seq<Frame>, s: Span)
    requires FramesOk(filled, frames)
    ensures FramesOk(filled + SpanCells(s), frames + [NewFrame(s)])
  {
    var filled', next := filled + SpanCells(s), frames + [NewFrame(s)];
    forall k | 0 <= k < |next| ensures FrameOk(filled', next[k]) {
      if k < |frames| {
        assert FrameOk(filled, frames[k]);
      }
    }
  }

  ghost predicate RowClear(rest: set<Cell>, y: int, lo: int, hi: int) {
    forall x :: lo <= x < hi ==> !Open(rest, x, y)
  }

  // Replacing the top frame by one that steps over columns with nothing left to fill.
  ghost predicate Advanced(rest: set<Cell>, g: Frame, f: Frame) {
    && f.y == g.y && f.right == g.right && g.leftUp <= f.leftUp && g.leftDown <= f.leftDown
    && RowClear(rest, f.y - 1, g.leftUp, f.leftUp) && RowClear(rest, f.y + 1, g.leftDown, f.leftDown)
  }

  lemma AdvanceSettled(filled: set<Cell>, rest: set<Cell>, frames: seq<Frame>, f: Frame)
    requires frames != [] && Settled(filled, rest, frames) && FramesOk(filled, frames)
    requires Advanced(rest, frames[|frames| - 1], f)
    ensures Settled(filled, rest, frames[|frames| - 1 := f]) && FramesOk(filled, frames[|frames| - 1 := f])
  {
    var n, next := |frames| - 1, frames[|frames| - 1 := f];
    forall c | c in filled ensures CellSettled(rest, next, c) {
      assert CellSettled(rest, frames, c);
      WaitingAdvance(rest, frames, f, c, true);
      WaitingAdvance(rest, frames, f, c, false);
    }
    assert FrameOk(filled, frames[n]);
    assert forall c, up :: Looks(f, c, up) ==> Looks(frames[n], c, up);
  }

  lemma WaitingAdvance(rest: set<Cell>, frames: seq<Frame>, f: Frame, c: Cell, up: bool)
    requires frames != [] && Advanced(rest, frames[|frames| - 1], f)
    ensures Waiting(frames, c, up) && Open(rest, c.x, if up then c.y - 1 else c.y + 1)
            ==> Waiting(frames[|frames| - 1 := f], c, up)
  {
    if Waiting(frames, c, up) && Open(rest, c.x, if up then c.y - 1 else c.y + 1) {
      var n, next := |frames| - 1, frames[|frames| - 1 := f];
      var k :| 0 <= k < |frames| && Looks(frames[k], c, up);
      if k < n {
        assert Looks(next[k], c, up);
      } else {
        assert Looks(next[n], c, up);
      }
    }
  }

  // Dropping a top frame that has nothing left to look at.
  ghost predicate Exhausted(rest: set<Cell>, g: Frame) {
    && (g.leftUp > g.right || RowClear(rest, g.y - 1, g.leftUp, g.right + 1))
    && (g.leftDown > g.right || RowClear(rest, g.y + 1, g.leftDown, g.right + 1))
  }

  lemma PopSettled(filled: set<Cell>, rest: set<Cell>, frames: seq<Frame>)
    requires frames != [] && Settled(filled, rest, frames) && FramesOk(filled, frames)
    requires Exhausted(rest, frames[|frames| - 1])
    ensures Settled(filled, rest, frames[..|frames| - 1]) && FramesOk(filled, frames[..|frames| - 1])
  {
    forall c | c in filled ensures CellSettled(rest, frames[..|frames| - 1], c) {
      assert CellSettled(rest, frames, c);
      WaitingPop(rest, frames, c, true);
      WaitingPop(rest, frames, c, false);
    }
  }

  lemma WaitingPop(rest: set<Cell>, frames: seq<Frame>, c: Cell, up: bool)
    requires frames != [] && Exhausted(rest, frames[|frames| - 1])
    ensures Waiting(frames, c, up) && Open(rest, c.x, if up then c.y - 1 else c.y + 1)
            ==> Waiting(frames[..|frames| - 1], c, up)
  {
    if Waiting(frames, c, up) && Open(rest, c.x, if up then c.y - 1 else c.y + 1) {
      var k :| 0 <= k < |frames| && Looks(frames[k], c, up);
      assert k < |frames| - 1;
      assert Looks(frames[..|frames| - 1][k], c, up);
    }
  }

  // With no frame left the filled set is the component.
  lemma SettledIsComponent(region: set<Cell>, start: Cell, filled: set<Cell>)
    requires start in filled && filled <= region && AllJoined(region, start, filled)
    requires Settled(filled, region - filled, [])
    ensures forall c :: c in filled <==> Joined(region, start, c)
  {
    forall c, d | c in filled && d in region && Adjacent(c, d) ensures d in filled {
      assert CellSettled(region - filled, [], c);
      assert d == Cell(c.x - 1, c.y) || d == Cell(c.x + 1, c.y) || d == Cell(c.x, c.y - 1) || d == Cell(c.x, c.y + 1);
    }
    forall c | Joined(region, start, c) ensures c in filled {
      var p :| Path(region, p) && p[0] == start && p[|p| - 1] == c;
      ClosedHoldsPath(region, filled, p);
    }
  }

  /* ---------- the image ---------- */

  ghost function Grid(px: array2<int>): (g: seq<seq<int>>)
    reads px
    ensures |g| == px.Length0 && forall y :: 0 <= y < |g| ==> |g[y]| == px.Length1
    ensures forall y, x :: 0 <= y < px.Length0 && 0 <= x < px.Length1 ==> g[y][x] == px[y, x]
  {
    seq(px.Length0, y requires 0 <= y < px.Length0 reads px =>
      seq(px.Length1, x requires 0 <= x < px.Length1 reads px => px[y, x]))
  }

  // The cells of colour from.
  ghost function Region(g: seq<seq<int>>, from: int): set<Cell> {
    set y, x | 0 <= y < |g| && 0 <= x < |g[y]| && g[y][x] == from :: Cell(x, y)
  }

  // The image is g with the filled cells recoloured and nothing else touched.
  ghost predicate Painted(px: array2<int>, g: seq<seq<int>>, filled: set<Cell>, to: int)
    reads px
  {
    && |g| == px.Length0 && (forall y :: 0 <= y < |g| ==> |g[y]| == px.Length1)
    && forall y, x :: 0 <= y < px.Length0 && 0 <= x < px.Length1 ==>
         px[y, x] == if Cell(x, y) in filled then to else g[y][x]
  }

  lemma PaintedColour(px: array2<int>, g: seq<seq<int>>, filled: set<Cell>, from: int, to: int, x: int, y: int)
    requires Painted(px, g, filled, to) && from != to && filled <= Region(g, from)
    requires 0 <= y < px.Length0 && 0 <= x < px.Length1
    ensures px[y, x] == from <==> Open(Region(g, from) - filled, x, y)
  {
  }

  // Fills the maximal run of colour from around x and reports it.
  method FillLine(px: array2<int>, x: int, y: int, from: int, to: int, ghost g: seq<seq<int>>, ghost filled: set<Cell>)
    returns (left: int, right: int)
    requires 0 <= y < px.Length0 && 0 <= x < px.Length1 && px[y, x] == from && from != to
    requires Painted(px, g, filled, to) && filled <= Region(g, from)
    modifies px
    ensures left <= x <= right
    ensures SpanCells(Span(y, left, right)) <= Region(g, from) - filled
    ensures !Open(Region(g, from) - filled, left - 1, y) && !Open(Region(g, from) - filled, right + 1, y)
    ensures Painted(px, g, filled + SpanCells(Span(y, left, right)), to)
  {
    left, right := x, x;
    while left > 0 && px[y, left - 1] == from
      invariant 0 <= left <= x && forall i :: left <= i <= x ==> px[y, i] == from
    {
      left := left - 1;
    }
    while right < px.Length1 - 1 && px[y, right + 1] == from
      invariant x <= right < px.Length1 && forall i :: left <= i <= right ==> px[y, i] == from
    {
      right := right + 1;
    }
    ghost var s := Span(y, left, right);
    forall c | c in SpanCells(s) ensures c in Region(g, from) - filled {
      PaintedColour(px, g, filled, from, to, c.x, c.y);
    }
    if left > 0 { PaintedColour(px, g, filled, from, to, left - 1, y); }
    if right < px.Length1 - 1 { PaintedColour(px, g, filled, from, to, right + 1, y); }
    for i := left to right + 1
      invariant forall j, k :: 0 <= j < px.Length0 && 0 <= k < px.Length1 ==>
                  px[j, k] == if j == y && left <= k < i then to else old(px[j, k])
    {
      px[y, i] := to;
    }
  }

  lemma LooksInside(g: seq<seq<int>>, filled: set<Cell>, from: int, f: Frame, up: bool)
    requires filled <= Region(g, from) && FrameOk(filled, f)
    ensures (if up then f.leftUp else f.leftDown) <= f.right ==>
              0 <= (if up then f.leftUp else f.leftDown) && 0 <= f.y < |g| && f.right < |g[f.y]|
  {
    var left := if up then f.leftUp else f.leftDown;
    if left <= f.right {
      assert Looks(f, Cell(left, f.y), up) && Looks(f, Cell(f.right, f.y), up);
      assert Cell(left, f.y) in Region(g, from) && Cell(f.right, f.y) in Region(g, from);
    }
  }

  // Looks for the next unfilled cell above (or below) the top frame; if there is one, fills its run and pushes a frame.
  method CallNext(px: array2<int>, stack: array<Frame>, top: nat, up: bool, from: int, to: int,
                  ghost g: seq<seq<int>>, ghost filled: set<Cell>) returns (found: bool, s: Span)
    requires top + 1 < stack.Length && from != to
    requires Painted(px, g, filled, to) && filled <= Region(g, from) && FrameOk(filled, stack[top])
    requires if up then 0 < stack[top].y < px.Length0 else 0 <= stack[top].y < px.Length0 - 1
    modifies px, stack
    ensures forall k :: 0 <= k < top ==> stack[k] == old(stack[k])
    ensures Advanced(Region(g, from) - filled, old(stack[top]), stack[top])
    ensures if up then stack[top].leftDown == old(stack[top].leftDown) else stack[top].leftUp == old(stack[top].leftUp)
    ensures !found ==> Painted(px, g, filled, to)
    ensures !found ==> (if up then stack[top].leftUp else stack[top].leftDown) > stack[top].right
    ensures found ==> stack[top + 1] == NewFrame(s) && s.y == (if up then stack[top].y - 1 else stack[top].y + 1)
    ensures found ==> exists x :: s.left <= x <= s.right && Looks(stack[top], Cell(x, stack[top].y), up)
    ensures found ==> SpanCells(s) <= Region(g, from) - filled && s.left <= s.right
    ensures found ==> !Open(Region(g, from) - filled, s.left - 1, s.y) && !Open(Region(g, from) - filled, s.right + 1, s.y)
    ensures found ==> Painted(px, g, filled + SpanCells(s), to)
  {
    found, s := false, Span(0, 0, 0);
    var f := stack[top];
    var y := if up then f.y - 1 else f.y + 1;
    var left := if up then f.leftUp else f.leftDown;
    ghost var rest, start := Region(g, from) - filled, left;
    LooksInside(g, filled, from, f, up);
    while left <= f.right && px[y, left] != from
      invariant start <= left && RowClear(rest, y, start, left)
      decreases f.right - left
      modifies {}
    {
      PaintedColour(px, g, filled, from, to, left, y);
      left := left + 1;
    }
    stack[top] := if up then f.(leftUp := left) else f.(leftDown := left);
    if left <= f.right {
      var l, r := FillLine(px, left, y, from, to, g, filled);
      s := Span(y, l, r);
      stack[top + 1] := Frame(y, r, l, l);
      found := true;
      assert Looks(stack[top], Cell(left, stack[top].y), up);
    }
  }

  // The cells of a span touching a filled row are joined to the start.
  lemma SpanTouches(region: set<Cell>, start: Cell, filled: set<Cell>, f: Frame, s: Span, up: bool)
    requires AllJoined(region, start, filled) && FrameOk(filled, f) && SpanCells(s) <= region
    requires s.y == if up then f.y - 1 else f.y + 1
    requires exists x :: s.left <= x <= s.right && Looks(f, Cell(x, f.y), up)
    ensures AllJoined(region, start, filled + SpanCells(s))
  {
    var x :| s.left <= x <= s.right && Looks(f, Cell(x, f.y), up);
    assert Cell(x, s.y) in SpanCells(s);
    JoinedStep(region, start, Cell(x, f.y), Cell(x, s.y));
    forall c | c in SpanCells(s) ensures Joined(region, start, c) {
      SpanJoined(region, start, s, x, c.x);
    }
  }

  // Everything the walk keeps true, for the frames now on the stack.
  ghost predicate WalkOk(region: set<Cell>, start: Cell, spans: seq<Span>, count: int, frames: seq<Frame>) {
    var filled := Covered(spans);
    && start in filled && filled <= region && AllJoined(region, start, filled)
    && Disjoint(spans) && count == |filled|
    && FramesOk(filled, frames) && Settled(filled, region - filled, frames)
  }

  lemma WalkPush(region: set<Cell>, start: Cell, spans: seq<Span>, count: int, frames: seq<Frame>, f: Frame, s: Span, up: bool)
    requires frames != [] && WalkOk(region, start, spans, count, frames)
    requires Advanced(region - Covered(spans), frames[|frames| - 1], f)
    requires SpanCells(s) <= region - Covered(spans) && s.left <= s.right && s.y == if up then f.y - 1 else f.y + 1
    requires exists x :: s.left <= x <= s.right && Looks(f, Cell(x, f.y), up)
    requires !Open(region - Covered(spans), s.left - 1, s.y) && !Open(region - Covered(spans), s.right + 1, s.y)
    ensures WalkOk(region, start, spans + [s], count + s.right - s.left + 1, frames[..|frames| - 1] + [f, NewFrame(s)])
    ensures region - Covered(spans + [s]) < region - Covered(spans)
  {
    hide *;
    var filled, frames' := Covered(spans), frames[|frames| - 1 := f];
    WalkFacts(region, start, spans, count, frames);
    AdvanceSettled(filled, region - filled, frames, f);
    TopFrameOk(filled, frames');
    SpanTouches(region, start, filled, f, s, up);
    PushSettled(filled, region - filled, frames', s);
    PushFrames(filled, frames', s);
    DisjointExtend(spans, s);
    SpanSize(s);
    SpanNonEmpty(s);
    assert frames' + [NewFrame(s)] == frames[..|frames| - 1] + [f, NewFrame(s)];
    assert (region - filled) - SpanCells(s) == region - (filled + SpanCells(s));
    WalkMake(region, start, spans + [s], count + s.right - s.left + 1, frames' + [NewFrame(s)]);
  }

  lemma SpanNonEmpty(s: Span)
    requires s.left <= s.right
    ensures Cell(s.left, s.y) in SpanCells(s)
  {
  }

  lemma TopFrameOk(filled: set<Cell>, frames: seq<Frame>)
    requires frames != [] && FramesOk(filled, frames)
    ensures FrameOk(filled, frames[|frames| - 1])
  {
  }

  lemma WalkFacts(region: set<Cell>, start: Cell, spans: seq<Span>, count: int, frames: seq<Frame>)
    requires WalkOk(region, start, spans, count, frames)
    ensures start in Covered(spans) && Covered(spans) <= region && AllJoined(region, start, Covered(spans))
    ensures Disjoint(spans) && count == |Covered(spans)|
    ensures FramesOk(Covered(spans), frames) && Settled(Covered(spans), region - Covered(spans), frames)
  {
  }

  lemma WalkMake(region: set<Cell>, start: Cell, spans: seq<Span>, count: int, frames: seq<Frame>)
    requires start in Covered(spans) && Covered(spans) <= region && AllJoined(region, start, Covered(spans))
    requires Disjoint(spans) && count == |Covered(spans)|
    requires FramesOk(Covered(spans), frames) && Settled(Covered(spans), region - Covered(spans), frames)
    ensures WalkOk(region, start, spans, count, frames)
  {
  }

  lemma WalkAdvance(region: set<Cell>, start: Cell, spans: seq<Span>, count: int, frames: seq<Frame>, f: Frame)
    requires frames != [] && WalkOk(region, start, spans, count, frames)
    requires Advanced(region - Covered(spans), frames[|frames| - 1], f)
    ensures WalkOk(region, start, spans, count, frames[|frames| - 1 := f])
  {
    AdvanceSettled(Covered(spans), region - Covered(spans), frames, f);
  }

  lemma WalkPop(region: set<Cell>, start: Cell, spans: seq<Span>, count: int, frames: seq<Frame>)
    requires frames != [] && WalkOk(region, start, spans, count, frames)
    requires Exhausted(region - Covered(spans), frames[|frames| - 1])
    ensures WalkOk(region, start, spans, count, frames[..|frames| - 1])
  {
    PopSettled(Covered(spans), region - Covered(spans), frames);
  }

  // The cells of a frame above the first row or below the last one do not exist.
  lemma EdgeExhausted(g: seq<seq<int>>, from: int, filled: set<Cell>, f: Frame)
    requires f.leftUp > f.right || f.y <= 0
    requires f.leftDown > f.right || f.y >= |g| - 1
    ensures Exhausted(Region(g, from) - filled, f)
  {
  }

  lemma WalkStart(region: set<Cell>, start: Cell, s: Span)
    requires SpanCells(s) <= region && s.y == start.y && s.left <= start.x <= s.right
    requires !Open(region, s.left - 1, s.y) && !Open(region, s.right + 1, s.y)
    ensures Covered([s]) == SpanCells(s) && WalkOk(region, start, [s], s.right - s.left + 1, [NewFrame(s)])
  {
    assert [s][..0] == [] && Covered([]) == {};
    assert start in SpanCells(s);
    JoinedRefl(region, start);
    forall c | c in SpanCells(s) ensures Joined(region, start, c) {
      SpanJoined(region, start, s, start.x, c.x);
    }
    SpanSize(s);
    PushSettled({}, region, [], s);
    PushFrames({}, [], s);
    assert [] + [NewFrame(s)] == [NewFrame(s)] && {} + SpanCells(s) == SpanCells(s);
  }

  lemma PaintedNothing(px: array2<int>, to: int) ensures Painted(px, Grid(px), {}, to) {}

  // One look above (or below) the top frame, with the whole invariant.
  method Visit(px: array2<int>, stack: array<Frame>, top: nat, up: bool, from: int, to: int, ghost g: seq<seq<int>>,
               ghost start: Cell, ghost spans: seq<Span>, ghost count: int) returns (found: bool, s: Span)
    requires top + 1 < stack.Length && from != to && Painted(px, g, Covered(spans), to)
    requires WalkOk(Region(g, from), start, spans, count, stack[..top + 1])
    requires if up then 0 < stack[top].y < px.Length0 else 0 <= stack[top].y < px.Length0 - 1
    modifies px, stack
    ensures found ==> WalkOk(Region(g, from), start, spans + [s], count + s.right - s.left + 1, stack[..top + 2])
    ensures found ==> Painted(px, g, Covered(spans + [s]), to)
    ensures found ==> Region(g, from) - Covered(spans + [s]) < Region(g, from) - Covered(spans)
    ensures !found ==> WalkOk(Region(g, from), start, spans, count, stack[..top + 1]) && Painted(px, g, Covered(spans), to)
    ensures stack[top].y == old(stack[top].y) && forall k :: 0 <= k < top ==> stack[k] == old(stack[k])
    ensures found ==> 0 <= stack[top + 1].y < px.Length0
    ensures !found ==> stack[top].right == old(stack[top].right)
    ensures !found ==> if up then stack[top].leftUp > stack[top].right && stack[top].leftDown == old(stack[top].leftDown)
                       else stack[top].leftDown > stack[top].right && stack[top].leftUp == old(stack[top].leftUp)
  {
    hide WalkOk, RowClear, Open, Covered, SpanCells, Painted, Region, Looks, FrameOk;
    ghost var frames, region := stack[..top + 1], Region(g, from);
    WalkFacts(region, start, spans, count, frames);
    TopFrameOk(Covered(spans), frames);
    found, s := CallNext(px, stack, top, up, from, to, g, Covered(spans));
    if found {
      WalkPush(region, start, spans, count, frames, stack[top], s, up);
      assert stack[..top + 2] == frames[..top] + [stack[top], NewFrame(s)];
      DisjointExtend(spans, s);
    } else {
      WalkAdvance(region, start, spans, count, frames, stack[top]);
      assert stack[..top + 1] == frames[top := stack[top]];
    }
  }

  // One turn of the loop: a new span from the top frame, or the frame is done.
  method Turn(px: array2<int>, stack: array<Frame>, top: nat, from: int, to: int, ghost g: seq<seq<int>>,
              ghost start: Cell, ghost spans: seq<Span>, ghost count: int) returns (found: bool, s: Span)
    requires top + 1 < stack.Length && from != to && Painted(px, g, Covered(spans), to)
    requires WalkOk(Region(g, from), start, spans, count, stack[..top + 1]) && 0 <= stack[top].y < px.Length0 == |g|
    modifies px, stack
    ensures found ==> WalkOk(Region(g, from), start, spans + [s], count + s.right - s.left + 1, stack[..top + 2])
    ensures found ==> Painted(px, g, Covered(spans + [s]), to)
    ensures found ==> Region(g, from) - Covered(spans + [s]) < Region(g, from) - Covered(spans)
    ensures found ==> 0 <= stack[top].y < px.Length0 && 0 <= stack[top + 1].y < px.Length0
    ensures !found ==> WalkOk(Region(g, from), start, spans, count, stack[..top]) && Painted(px, g, Covered(spans), to)
    ensures forall k :: 0 <= k < top ==> stack[k] == old(stack[k])
  {
    hide WalkOk, Exhausted, Open, Covered, SpanCells, Painted, Region, Looks, Settled;
    found, s := false, Span(0, 0, 0);
    if stack[top].y > 0 {
      found, s := Visit(px, stack, top, true, from, to, g, start, spans, count);
      if found {
        return;
      }
    }
    if stack[top].y < px.Length0 - 1 {
      found, s := Visit(px, stack, top, false, from, to, g, start, spans, count);
      if found {
        return;
      }
    }
    EdgeExhausted(g, from, Covered(spans), stack[top]);
    WalkPop(Region(g, from), start, spans, count, stack[..top + 1]);
    assert stack[..top + 1][..top] == stack[..top];
  }

  /** On every image the fill ends. The reported spans are disjoint, they are exactly the recoloured cells, all of them
      joined to the seed, and count is their number. Unless the last frame was reached, which takes as many spans as
      there are frames, they are the whole component. */
  method FillSeed(px: array2<int>, stack: array<Frame>, x0: int, y0: int, from: int, to: int)
    returns (spans: seq<Span>, count: int, overflow: bool)
    requires 0 <= y0 < px.Length0 && 0 <= x0 < px.Length1 && px[y0, x0] == from && from != to && stack.Length > 0
    modifies px, stack
    ensures Painted(px, old(Grid(px)), Covered(spans), to)
    ensures Disjoint(spans) && count == |Covered(spans)|
    ensures AllJoined(Region(old(Grid(px)), from), Cell(x0, y0), Covered(spans))
    ensures !overflow ==> forall c :: c in Covered(spans) <==> Joined(Region(old(Grid(px)), from), Cell(x0, y0), c)
    ensures overflow ==> |spans| >= stack.Length
  {
    hide WalkOk, Exhausted, Open, AllJoined, Disjoint, Covered, SpanCells, Painted, Region, Looks, Settled;
    ghost var g := Grid(px);
    ghost var region, start := Region(g, from), Cell(x0, y0);
    PaintedNothing(px, to);
    var left, right := FillLine(px, x0, y0, from, to, g, {});
    var s := Span(y0, left, right);
    var top := 0;
    stack[0] := Frame(y0, right, left, left);
    spans, count, overflow := [s], right - left + 1, false;
    assert region - {} == region && {} + SpanCells(s) == SpanCells(s);
    WalkStart(region, start, s);
    assert stack[..1] == [NewFrame(s)];
    while true
      invariant 0 <= top < stack.Length && top < |spans| && !overflow && (forall k :: 0 <= k <= top ==> 0 <= stack[k].y < px.Length0)
      invariant WalkOk(region, start, spans, count, stack[..top + 1])
      invariant Painted(px, g, Covered(spans), to)
      decreases region - Covered(spans), top
    {
      if top == stack.Length - 1 {
        overflow := true;
        WalkFacts(region, start, spans, count, stack[..top + 1]);
        break;
      }
      var found;
      found, s := Turn(px, stack, top, from, to, g, start, spans, count);
      if found {
        top, spans, count := top + 1, spans + [s], count + s.right - s.left + 1;
        continue;
      }
      if top > 0 {
        top := top - 1;
        continue;
      }
      assert stack[..top] == [];
      WalkFacts(region, start, spans, count, []);
      SettledIsComponent(region, start, Covered(spans));
      break;
    }
  }
}
