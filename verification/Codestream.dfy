/** Block splitting and interleaving of a QR symbol's codewords, and the way back. The encoder's and the decoder's
    parameters are the fields of one layout. */
module Codestream {
  import opened GaloisField
  import opened Polynomials
  import opened ReedSolomonEncoder
  import opened Options
  import opened BlockDecoder
  import opened Arithmetic

  datatype Layout = Layout(numBlocks: nat, eccLen: nat, rawCodewords: nat) {
    // At least two parity symbols per block, and no block beyond the field's 255 nonzero positions.
    predicate Valid() {
      && numBlocks > 0 && 2 <= eccLen <= MAX_POLY && eccLen <= rawCodewords / numBlocks
      && rawCodewords / numBlocks + (if rawCodewords % numBlocks == 0 then 0 else 1) <= 255
    }

    function LongBlocks(): (n: nat)
      requires Valid()
      ensures n < numBlocks
    {
      rawCodewords % numBlocks
    }

    function ShortBlocks(): nat
      requires Valid()
    {
      numBlocks - rawCodewords % numBlocks
    }

    function ShortLen(): nat
      requires Valid()
    {
      rawCodewords / numBlocks
    }

    function ShortData(): nat
      requires Valid()
    {
      ShortLen() - eccLen
    }

    function DataLen(k: nat): nat
      requires Valid()
    {
      ShortData() + if k < ShortBlocks() then 0 else 1
    }

    // Where block k starts in the data.
    function DataStart(k: nat): nat
      requires Valid()
    {
      k * ShortData() + if k < ShortBlocks() then 0 else k - ShortBlocks()
    }

    // Where the parity codewords start in the stream.
    function EccStart(): int
      requires Valid()
    {
      ShortData() * numBlocks + LongBlocks()
    }

    // The first parity codeword of block i.
    function EccFirst(i: nat): int
      requires Valid()
    {
      EccStart() + i
    }

    function DataCodewords(): int
      requires Valid()
    {
      rawCodewords - eccLen * numBlocks
    }

    lemma StartStep(k: nat)
      requires Valid()
      ensures DataStart(k + 1) == DataStart(k) + DataLen(k)
    {
    }

    lemma StartMonotonic(k: nat, n: nat)
      requires Valid() && k <= n
      ensures DataStart(k) <= DataStart(n)
      decreases n - k
    {
      if k < n {
        StartMonotonic(k + 1, n);
        StartStep(k);
      }
    }

    lemma StartEnd()
      requires Valid()
      ensures DataStart(numBlocks) == DataCodewords()
      ensures rawCodewords == ShortData() * numBlocks + LongBlocks() + eccLen * numBlocks
    {
      var q := ShortLen();
      assert rawCodewords == q * numBlocks + LongBlocks();
      assert (q - eccLen) * numBlocks == q * numBlocks - eccLen * numBlocks;
    }
  }

  function DataBlock(lay: Layout, data: seq<Gf>, k: nat): (b: seq<Gf>)
    requires lay.Valid() && |data| == lay.DataCodewords() && k < lay.numBlocks
    ensures |b| == lay.DataLen(k)
  {
    lay.StartStep(k);
    lay.StartMonotonic(k + 1, lay.numBlocks);
    lay.StartEnd();
    data[lay.DataStart(k)..lay.DataStart(k + 1)]
  }

  // Every data block followed by its parity is a codeword.
  predicate Parities(lay: Layout, data: seq<Gf>, eccs: seq<seq<Gf>>)
    requires lay.Valid() && |data| == lay.DataCodewords()
  {
    |eccs| == lay.numBlocks &&
    forall k :: 0 <= k < lay.numBlocks ==>
      |eccs[k]| == lay.eccLen && IsCodeword(DataBlock(lay, data, k) + eccs[k], lay.eccLen)
  }

  /* ---------- interleaving ---------- */

  // A block as the encoder stores it: a short one has a padding byte between data and parity.
  predicate Padded(lay: Layout, data: seq<Gf>, eccs: seq<seq<Gf>>, blocks: seq<seq<Gf>>)
    requires lay.Valid() && |data| == lay.DataCodewords() && Parities(lay, data, eccs)
  {
    |blocks| == lay.numBlocks &&
    forall k :: 0 <= k < lay.numBlocks ==>
      blocks[k] == DataBlock(lay, data, k) + (if k < lay.ShortBlocks() then [ZERO] else []) + eccs[k]
  }

  predicate Uniform(lay: Layout, blocks: seq<seq<Gf>>)
    requires lay.Valid()
  {
    |blocks| == lay.numBlocks && forall k :: 0 <= k < |blocks| ==> |blocks[k]| == lay.ShortLen() + 1
  }

  // The cells of row i taken from the first j blocks, without the padding bytes.
  function Row(lay: Layout, blocks: seq<seq<Gf>>, i: nat, j: nat): (r: seq<Gf>)
    requires lay.Valid() && Uniform(lay, blocks) && i <= lay.ShortLen() && j <= lay.numBlocks
  {
    if j == 0 then []
    else if i == lay.ShortData() && j - 1 < lay.ShortBlocks() then Row(lay, blocks, i, j - 1)
    else Row(lay, blocks, i, j - 1) + [blocks[j - 1][i]]
  }

  function Rows(lay: Layout, blocks: seq<seq<Gf>>, i: nat): (r: seq<Gf>)
    requires lay.Valid() && Uniform(lay, blocks) && i <= lay.ShortLen() + 1
  {
    if i == 0 then [] else Rows(lay, blocks, i - 1) + Row(lay, blocks, i - 1, lay.numBlocks)
  }

  // The place of block k in row i.
  function Column(lay: Layout, i: nat, k: nat): int
    requires lay.Valid()
  {
    if i == lay.ShortData() then k - lay.ShortBlocks() else k
  }

  lemma {:induction false} RowCells(lay: Layout, blocks: seq<seq<Gf>>, i: nat, j: nat)
    requires lay.Valid() && Uniform(lay, blocks) && i <= lay.ShortLen() && j <= lay.numBlocks
    ensures |Row(lay, blocks, i, j)| == if Column(lay, i, j) < 0 then 0 else Column(lay, i, j)
    ensures forall k :: 0 <= k < j && 0 <= Column(lay, i, k) ==>
              Row(lay, blocks, i, j)[Column(lay, i, k)] == blocks[k][i]
  {
    if j > 0 { RowCells(lay, blocks, i, j - 1); }
  }

  function RowsLen(lay: Layout, i: nat): int
    requires lay.Valid()
  {
    if i <= lay.ShortData() then i * lay.numBlocks else (i - 1) * lay.numBlocks + lay.LongBlocks()
  }

  lemma {:induction false} RowsLength(lay: Layout, blocks: seq<seq<Gf>>, i: nat)
    requires lay.Valid() && Uniform(lay, blocks) && i <= lay.ShortLen() + 1
    ensures |Rows(lay, blocks, i)| == RowsLen(lay, i)
  {
    if i > 0 {
      RowsLength(lay, blocks, i - 1);
      RowCells(lay, blocks, i - 1, lay.numBlocks);
      assert i * lay.numBlocks == (i - 1) * lay.numBlocks + lay.numBlocks;
      assert i > 1 ==> (i - 1) * lay.numBlocks == (i - 2) * lay.numBlocks + lay.numBlocks;
    }
  }

  // Every cell of the interleaved stream.
  lemma {:induction false} RowsCell(lay: Layout, blocks: seq<seq<Gf>>, n: nat, i: nat, k: nat)
    requires lay.Valid() && Uniform(lay, blocks) && i < n <= lay.ShortLen() + 1 && k < lay.numBlocks
    requires 0 <= Column(lay, i, k)
    ensures 0 <= RowsLen(lay, i) + Column(lay, i, k) < |Rows(lay, blocks, n)|
    ensures Rows(lay, blocks, n)[RowsLen(lay, i) + Column(lay, i, k)] == blocks[k][i]
    decreases n
  {
    if i == n - 1 {
      RowsLength(lay, blocks, i);
      RowCells(lay, blocks, i, lay.numBlocks);
    } else {
      RowsCell(lay, blocks, n - 1, i, k);
    }
  }

  // The stream as the standard lays it out: data codewords column by column, then parity codewords.
  predicate Interleaved(lay: Layout, data: seq<Gf>, eccs: seq<seq<Gf>>, out: seq<Gf>)
    requires lay.Valid() && |data| == lay.DataCodewords() && Parities(lay, data, eccs)
  {
    && |out| == lay.rawCodewords
    && (forall k, j :: 0 <= k < lay.numBlocks && 0 <= j < lay.ShortData() ==>
          CellIs(out, j * lay.numBlocks + k, DataBlock(lay, data, k)[j]))
    && (forall k :: lay.ShortBlocks() <= k < lay.numBlocks ==>
          CellIs(out, lay.ShortData() * lay.numBlocks + (k - lay.ShortBlocks()), DataBlock(lay, data, k)[lay.ShortData()]))
    && (forall k, j :: 0 <= k < lay.numBlocks && 0 <= j < lay.eccLen ==>
          CellIs(out, lay.ShortData() * lay.numBlocks + lay.LongBlocks() + j * lay.numBlocks + k, eccs[k][j]))
  }

  predicate CellIs(out: seq<Gf>, i: int, v: Gf) {
    0 <= i < |out| && out[i] == v
  }

  // The stream encodes the data: its blocks, completed to codewords, are interleaved in it.
  ghost predicate Encodes(lay: Layout, data: seq<Gf>, out: seq<Gf>)
    requires lay.Valid()
  {
    |data| == lay.DataCodewords() && exists eccs :: Parities(lay, data, eccs) && Interleaved(lay, data, eccs, out)
  }

  lemma PaddedCells(lay: Layout, data: seq<Gf>, eccs: seq<seq<Gf>>, blocks: seq<seq<Gf>>, k: nat)
    requires lay.Valid() && |data| == lay.DataCodewords() && Parities(lay, data, eccs)
    requires Padded(lay, data, eccs, blocks) && Uniform(lay, blocks) && k < lay.numBlocks
    ensures forall j :: 0 <= j < lay.DataLen(k) ==> blocks[k][j] == DataBlock(lay, data, k)[j]
    ensures forall j :: 0 <= j < lay.eccLen ==> blocks[k][lay.ShortData() + 1 + j] == eccs[k][j]
  {
    hide IsCodeword, DataBlock;
    assert |eccs[k]| == lay.eccLen;
  }

  // The three kinds of cells of the stream.
  lemma ShortCell(lay: Layout, data: seq<Gf>, eccs: seq<seq<Gf>>, blocks: seq<seq<Gf>>, k: nat, j: nat)
    requires lay.Valid() && |data| == lay.DataCodewords() && Parities(lay, data, eccs)
    requires Padded(lay, data, eccs, blocks) && Uniform(lay, blocks) && k < lay.numBlocks && j < lay.ShortData()
    ensures CellIs(Rows(lay, blocks, lay.ShortLen() + 1), j * lay.numBlocks + k, DataBlock(lay, data, k)[j])
  {
    hide IsCodeword, Rows, Row, Parities, Padded, DataBlock;
    RowsCell(lay, blocks, lay.ShortLen() + 1, j, k);
    PaddedCells(lay, data, eccs, blocks, k);
  }

  lemma LongCell(lay: Layout, data: seq<Gf>, eccs: seq<seq<Gf>>, blocks: seq<seq<Gf>>, k: nat)
    requires lay.Valid() && |data| == lay.DataCodewords() && Parities(lay, data, eccs)
    requires Padded(lay, data, eccs, blocks) && Uniform(lay, blocks) && lay.ShortBlocks() <= k < lay.numBlocks
    ensures CellIs(Rows(lay, blocks, lay.ShortLen() + 1), lay.ShortData() * lay.numBlocks + (k - lay.ShortBlocks()),
                   DataBlock(lay, data, k)[lay.ShortData()])
  {
    hide IsCodeword, Rows, Row, Parities, Padded, DataBlock;
    RowsCell(lay, blocks, lay.ShortLen() + 1, lay.ShortData(), k);
    PaddedCells(lay, data, eccs, blocks, k);
  }

  lemma ParityCell(lay: Layout, data: seq<Gf>, eccs: seq<seq<Gf>>, blocks: seq<seq<Gf>>, k: nat, j: nat)
    requires lay.Valid() && |data| == lay.DataCodewords() && Parities(lay, data, eccs)
    requires Padded(lay, data, eccs, blocks) && Uniform(lay, blocks) && k < lay.numBlocks && j < lay.eccLen
    ensures |eccs| == lay.numBlocks && |eccs[k]| == lay.eccLen
    ensures CellIs(Rows(lay, blocks, lay.ShortLen() + 1),
                   lay.ShortData() * lay.numBlocks + lay.LongBlocks() + j * lay.numBlocks + k, eccs[k][j])
  {
    hide IsCodeword, Rows, Row, Parities, Padded, DataBlock, Layout.LongBlocks;
    ParityBlock(lay, data, eccs, k);
    PaddedCells(lay, data, eccs, blocks, k);
    RowsCell(lay, blocks, lay.ShortLen() + 1, lay.ShortData() + 1 + j, k);
    assert (lay.ShortData() + j) * lay.numBlocks == lay.ShortData() * lay.numBlocks + j * lay.numBlocks;
  }

  lemma RowsInterleaved(lay: Layout, data: seq<Gf>, eccs: seq<seq<Gf>>, blocks: seq<seq<Gf>>)
    requires lay.Valid() && |data| == lay.DataCodewords() && Parities(lay, data, eccs)
    requires Padded(lay, data, eccs, blocks) && Uniform(lay, blocks)
    ensures Interleaved(lay, data, eccs, Rows(lay, blocks, lay.ShortLen() + 1))
  {
    hide IsCodeword, Rows, Row, CellIs, Padded;
    var out := Rows(lay, blocks, lay.ShortLen() + 1);
    RowsLength(lay, blocks, lay.ShortLen() + 1);
    lay.StartEnd();
    assert |out| == lay.rawCodewords by {
      assert lay.ShortLen() * lay.numBlocks == lay.ShortData() * lay.numBlocks + lay.eccLen * lay.numBlocks;
    }
    forall k, j | 0 <= k < lay.numBlocks && 0 <= j < lay.ShortData()
      ensures CellIs(out, j * lay.numBlocks + k, DataBlock(lay, data, k)[j])
    {
      ShortCell(lay, data, eccs, blocks, k, j);
    }
    forall k | lay.ShortBlocks() <= k < lay.numBlocks
      ensures CellIs(out, lay.ShortData() * lay.numBlocks + (k - lay.ShortBlocks()), DataBlock(lay, data, k)[lay.ShortData()])
    {
      LongCell(lay, data, eccs, blocks, k);
    }
    forall k, j | 0 <= k < lay.numBlocks && 0 <= j < lay.eccLen
      ensures CellIs(out, lay.ShortData() * lay.numBlocks + lay.LongBlocks() + j * lay.numBlocks + k, eccs[k][j])
    {
      ParityCell(lay, data, eccs, blocks, k, j);
    }
  }

  method AddEccAndInterleave(lay: Layout, data: seq<Gf>) returns (r: Option<seq<Gf>>)
    requires lay.Valid()
    ensures r.Some? <==> |data| == lay.DataCodewords()
    ensures r.Some? ==> Encodes(lay, data, r.value)
  {
    hide IsCodeword;
    if |data| != lay.DataCodewords() {
      return None;
    }
    var numShortBlocks := lay.numBlocks - lay.rawCodewords % lay.numBlocks;
    var shortBlockLen := lay.rawCodewords / lay.numBlocks;
    var blocks, k := [], 0;
    ghost var eccs := [];
    lay.StartEnd();
    for i := 0 to lay.numBlocks
      invariant k == lay.DataStart(i)
      invariant |blocks| == |eccs| == i
      invariant forall b :: 0 <= b < i ==>
                  |eccs[b]| == lay.eccLen && IsCodeword(DataBlock(lay, data, b) + eccs[b], lay.eccLen)
      invariant forall b :: 0 <= b < i ==>
                  blocks[b] == DataBlock(lay, data, b) + (if b < lay.ShortBlocks() then [ZERO] else []) + eccs[b]
    {
      lay.StartStep(i);
      lay.StartMonotonic(i + 1, lay.numBlocks);
      var dat := data[k..k + shortBlockLen - lay.eccLen + if i < numShortBlocks then 0 else 1];
      assert dat == DataBlock(lay, data, i);
      k := k + |dat|;
      var ecc := EncodeBlock(dat, lay.eccLen);
      eccs := eccs + [ecc.value];
      blocks := blocks + [dat + (if i < numShortBlocks then [ZERO] else []) + ecc.value];
    }
    assert Parities(lay, data, eccs);
    assert Padded(lay, data, eccs, blocks);
    assert Uniform(lay, blocks);
    var result := Interleave(lay, blocks);
    RowsInterleaved(lay, data, eccs, blocks);
    r := Some(result);
  }

  method Interleave(lay: Layout, blocks: seq<seq<Gf>>) returns (result: seq<Gf>)
    requires lay.Valid() && Uniform(lay, blocks)
    ensures result == Rows(lay, blocks, lay.ShortLen() + 1)
  {
    result := [];
    for i := 0 to |blocks[0]|
      invariant result == Rows(lay, blocks, i)
    {
      ghost var before := result;
      for j := 0 to |blocks|
        invariant result == before + Row(lay, blocks, i, j)
      {
        // skip the padding byte in short blocks
        if i != lay.ShortLen() - lay.eccLen || j >= lay.ShortBlocks() {
          result := result + [blocks[j][i]];
        }
      }
    }
  }

  /* ---------- the way back ---------- */

  function Place(start: int, j: int, stride: int): int { start + j * stride }

  lemma PlaceBetween(start: int, j: nat, last: nat, stride: nat)
    requires j <= last
    ensures start <= Place(start, j, stride) <= start + last * stride
  {
    StrideBound(j, last, stride);
  }

  // dst[at + j] = raw[start + j * stride]
  method Gather(raw: array<Gf>, dst: array<Gf>, at: nat, n: nat, start: nat, stride: nat)
    requires raw != dst && at + n <= dst.Length && (n > 0 ==> start + (n - 1) * stride < raw.Length)
    modifies dst
    ensures forall k :: 0 <= k < dst.Length && !(at <= k < at + n) ==> dst[k] == old(dst[k])
    ensures forall j :: 0 <= j < n ==> CellIs(raw[..], Place(start, j, stride), dst[at + j])
  {
    hide Place;
    for j := 0 to n
      invariant forall k :: 0 <= k < dst.Length && !(at <= k < at + n) ==> dst[k] == old(dst[k])
      invariant forall k :: 0 <= k < j ==> CellIs(raw[..], Place(start, k, stride), dst[at + k])
    {
      PlaceBetween(start, j, n - 1, stride);
      var c := Place(start, j, stride);
      dst[at + j] := raw[c];
    }
  }

  lemma StrideBound(j: nat, n: nat, stride: nat)
    requires j <= n
    ensures 0 <= j * stride <= n * stride
  {
  }

  // Every index the decoder reads is inside the stream.
  lemma FetchBounds(lay: Layout, i: nat)
    requires lay.Valid() && i < lay.numBlocks
    ensures lay.DataLen(i) > 0 ==> i + (lay.DataLen(i) - 1) * lay.numBlocks < lay.rawCodewords
    ensures lay.ShortData() * lay.numBlocks + lay.LongBlocks() + i + (lay.eccLen - 1) * lay.numBlocks < lay.rawCodewords
  {
    lay.StartEnd();
    StrideBound(2, lay.eccLen, lay.numBlocks);
    if lay.DataLen(i) > 0 { StrideBound(lay.DataLen(i) - 1, lay.ShortData(), lay.numBlocks); }
    assert (lay.eccLen - 1) * lay.numBlocks == lay.eccLen * lay.numBlocks - lay.numBlocks;
  }

  // got holds block i as the decoder reads it: its data and parity codewords are where the encoder put them, except
  // that the last data codeword of a long block is taken from ShortBlocks cells further on.
  predicate Fetched(lay: Layout, stream: seq<Gf>, got: seq<Gf>, i: nat)
    requires lay.Valid()
  {
    && |got| == lay.DataLen(i) + lay.eccLen
    && (forall j :: 0 <= j < lay.DataLen(i) ==> CellIs(stream, Place(i, j, lay.numBlocks), got[j]))
    && (forall j :: 0 <= j < lay.eccLen ==>
          CellIs(stream, Place(lay.EccFirst(i), j, lay.numBlocks), got[lay.DataLen(i) + j]))
  }

  // What the two gathers leave in dst, seen from the fetched block.
  lemma FetchedCells(lay: Layout, raw: seq<Gf>, got: seq<Gf>, off: nat, i: nat, dw: nat, dst: seq<Gf>)
    requires lay.Valid() && i < lay.numBlocks && dw == lay.DataLen(i)
    requires lay.rawCodewords <= |raw| && off + dw + lay.eccLen <= |dst| && got == dst[off..off + dw + lay.eccLen]
    requires forall j :: 0 <= j < dw ==> CellIs(raw, Place(i, j, lay.numBlocks), dst[off + j])
    requires forall j :: 0 <= j < lay.eccLen ==>
               CellIs(raw, Place(lay.EccFirst(i), j, lay.numBlocks), dst[off + dw + j])
    ensures Fetched(lay, raw[..lay.rawCodewords], got, i)
  {
    hide Place, Layout.DataLen, Layout.EccFirst, Layout.Valid;
    forall j | 0 <= j < dw ensures CellIs(raw[..lay.rawCodewords], Place(i, j, lay.numBlocks), got[j]) {
      InStream(lay, i, j);
      assert CellIs(raw, Place(i, j, lay.numBlocks), dst[off + j]);
    }
    forall j | 0 <= j < lay.eccLen
      ensures CellIs(raw[..lay.rawCodewords], Place(lay.EccFirst(i), j, lay.numBlocks), got[dw + j])
    {
      InStream(lay, i, j);
      assert dst[off + dw + j] == got[dw + j];
      assert CellIs(raw, Place(lay.EccFirst(i), j, lay.numBlocks), dst[off + dw + j]);
    }
  }

  lemma InStream(lay: Layout, i: nat, j: nat)
    requires lay.Valid() && i < lay.numBlocks
    ensures j < lay.DataLen(i) ==> 0 <= Place(i, j, lay.numBlocks) < lay.rawCodewords
    ensures j < lay.eccLen ==> 0 <= Place(lay.EccFirst(i), j, lay.numBlocks) < lay.rawCodewords
  {
    hide Place;
    FetchBounds(lay, i);
    EccStartSign(lay);
    if j < lay.DataLen(i) { PlaceBetween(i, j, lay.DataLen(i) - 1, lay.numBlocks); }
    if j < lay.eccLen { PlaceBetween(lay.EccFirst(i), j, lay.eccLen - 1, lay.numBlocks); }
  }

  lemma EccStartSign(lay: Layout)
    requires lay.Valid()
    ensures forall i: nat :: lay.EccFirst(i) == lay.EccStart() + i
    ensures lay.EccStart() >= 0 && lay.EccStart() == lay.ShortData() * lay.numBlocks + lay.LongBlocks()
  {
    StrideBound(0, lay.ShortData(), lay.numBlocks);
  }

  // A fetched block differs from the block sent in at most the symbol after the short data.
  lemma FetchedOneOff(lay: Layout, data: seq<Gf>, eccs: seq<seq<Gf>>, raw: seq<Gf>, got: seq<Gf>, i: nat)
    requires lay.Valid() && |data| == lay.DataCodewords() && Parities(lay, data, eccs) && i < lay.numBlocks
    requires Interleaved(lay, data, eccs, raw) && Fetched(lay, raw, got, i)
    ensures |eccs| == lay.numBlocks
    ensures OneOff(got, DataBlock(lay, data, i) + eccs[i], lay.ShortData())
  {
    hide IsCodeword;
    var dw, sent := lay.DataLen(i), DataBlock(lay, data, i) + eccs[i];
    forall j | 0 <= j < |sent| && j != lay.ShortData() ensures got[j] == sent[j] {
      if j < dw {
        assert CellIs(raw, Place(i, j, lay.numBlocks), got[j]);
        assert CellIs(raw, j * lay.numBlocks + i, DataBlock(lay, data, i)[j]);
      } else {
        var c := j - dw;
        assert got[j] == got[dw + c];
        assert CellIs(raw, Place(lay.EccFirst(i), c, lay.numBlocks), got[dw + c]);
        assert CellIs(raw, lay.ShortData() * lay.numBlocks + lay.LongBlocks() + c * lay.numBlocks + i, eccs[i][c]);
      }
    }
  }

  // The decoder computes the number of long blocks from the size of the symbol.
  lemma LongBlockCount(lay: Layout)
    requires lay.Valid()
    ensures (lay.rawCodewords - lay.ShortLen() * lay.ShortBlocks()) / (lay.ShortLen() + 1) == lay.LongBlocks()
  {
    var bs, lb := lay.ShortLen(), lay.LongBlocks();
    assert lay.rawCodewords == bs * lay.numBlocks + lb;
    assert bs * lay.ShortBlocks() == bs * lay.numBlocks - bs * lb;
    assert (bs + 1) * lb == bs * lb + lb;
    DivModUnique((bs + 1) * lb, bs + 1, lb, 0);
  }

  lemma DecoderParameters(lay: Layout)
    requires lay.Valid()
    ensures (lay.rawCodewords - lay.ShortLen() * lay.ShortBlocks()) / (lay.ShortLen() + 1) == lay.LongBlocks()
    ensures lay.ShortBlocks() + lay.LongBlocks() == lay.numBlocks && lay.ShortLen() == lay.ShortData() + lay.eccLen
    ensures lay.DataStart(0) == 0 && lay.DataStart(lay.numBlocks) == lay.DataCodewords()
    ensures lay.EccStart() == lay.ShortData() * lay.numBlocks + lay.LongBlocks()
  {
    LongBlockCount(lay);
    lay.StartEnd();
  }

  lemma BlockStep(lay: Layout, i: nat)
    requires lay.Valid() && i < lay.numBlocks
    ensures lay.DataLen(i) == if i < lay.ShortBlocks() then lay.ShortData() else lay.ShortData() + 1
    ensures lay.DataStart(i + 1) == lay.DataStart(i) + lay.DataLen(i) <= lay.DataCodewords()
    ensures lay.DataStart(i) + lay.DataLen(i) + lay.eccLen <= lay.rawCodewords
  {
    lay.StartStep(i);
    lay.StartMonotonic(i + 1, lay.numBlocks);
    lay.StartEnd();
    StrideBound(1, lay.numBlocks, lay.eccLen);
  }

  lemma BlockExtends(lay: Layout, data: seq<Gf>, i: nat)
    requires lay.Valid() && i < lay.numBlocks && |data| == lay.DataCodewords()
    ensures lay.DataStart(i) + lay.DataLen(i) <= |data|
    ensures data[..lay.DataStart(i) + lay.DataLen(i)] == data[..lay.DataStart(i)] + DataBlock(lay, data, i)
  {
    BlockStep(lay, i);
  }

  lemma ParityWitness(lay: Layout, data: seq<Gf>, stream: seq<Gf>) returns (eccs: seq<seq<Gf>>)
    requires lay.Valid() && Encodes(lay, data, stream)
    ensures |data| == lay.DataCodewords() && Parities(lay, data, eccs) && Interleaved(lay, data, eccs, stream)
  {
    hide Parities, Interleaved;
    eccs :| Parities(lay, data, eccs) && Interleaved(lay, data, eccs, stream);
  }

  lemma ParityBlock(lay: Layout, data: seq<Gf>, eccs: seq<seq<Gf>>, i: nat)
    requires lay.Valid() && |data| == lay.DataCodewords() && Parities(lay, data, eccs) && i < lay.numBlocks
    ensures |eccs| == lay.numBlocks && |eccs[i]| == lay.eccLen
    ensures IsCodeword(DataBlock(lay, data, i) + eccs[i], lay.eccLen)
  {
    hide IsCodeword;
  }

  lemma BlockLimits(lay: Layout, i: nat)
    requires lay.Valid() && i < lay.numBlocks
    ensures 2 <= lay.eccLen <= MAX_POLY && lay.DataLen(i) + lay.eccLen <= 255
  {
  }

  // One block: fetch it, repair it, leave its data at off.
  method DecodeBlock(raw: array<Gf>, dst: array<Gf>, off: nat, i: nat, bs: nat, dw: nat, bc: nat, eccOffset: nat,
                     ghost lay: Layout, ghost data: seq<Gf>, ghost eccs: seq<seq<Gf>>) returns (good: bool)
    requires lay.Valid() && i < lay.numBlocks == bc && dw == lay.DataLen(i) && bs == dw + lay.eccLen
    requires eccOffset == lay.EccStart()
    requires lay.rawCodewords <= raw.Length && off + bs <= dst.Length && raw != dst
    modifies dst
    ensures forall k :: 0 <= k < off ==> dst[k] == old(dst[k])
    ensures |data| == lay.DataCodewords() && Parities(lay, data, eccs)
            && Interleaved(lay, data, eccs, raw[..lay.rawCodewords])
            ==> good && dst[off..off + dw] == DataBlock(lay, data, i)
  {
    hide *;
    BlockLimits(lay, i);
    ghost var sent := [];
    ghost var stream := raw[..lay.rawCodewords];
    ghost var encoded := |data| == lay.DataCodewords() && Parities(lay, data, eccs) && Interleaved(lay, data, eccs, stream);
    FetchBlock(raw, dst, off, i, bs, dw, bc, eccOffset, lay);
    if encoded {
      ParityBlock(lay, data, eccs, i);
      sent := DataBlock(lay, data, i) + eccs[i];
      FetchedOneOff(lay, data, eccs, stream, dst[off..off + bs], i);
    }
    good := CorrectBlock(dst, off, bs, dw, sent, lay.ShortData());
    assert dst[off..off + dw] == dst[off..off + bs][..dw];
    assert encoded ==> DataBlock(lay, data, i) == sent[..dw];
  }

  // The next block: its data comes behind what is decoded already.
  method DecodeNext(raw: array<Gf>, dst: array<Gf>, off: nat, i: nat, bs: nat, dw: nat, bc: nat, eccOffset: nat,
                    ghost lay: Layout, ghost data: seq<Gf>, ghost eccs: seq<seq<Gf>>, ghost encoded: bool) returns (good: bool)
    requires lay.Valid() && i < lay.numBlocks == bc && dw == lay.DataLen(i) && bs == dw + lay.eccLen
    requires eccOffset == lay.EccStart() && off == lay.DataStart(i)
    requires lay.rawCodewords <= raw.Length && off + bs <= dst.Length && raw != dst
    requires encoded ==> |data| == lay.DataCodewords() && Parities(lay, data, eccs)
                         && Interleaved(lay, data, eccs, raw[..lay.rawCodewords])
    requires encoded ==> off <= |data| && dst[..off] == data[..off]
    modifies dst
    ensures encoded ==> good && off + dw <= |data| && dst[..off + dw] == data[..off + dw]
  {
    hide *;
    ghost var before := dst[..off];
    good := DecodeBlock(raw, dst, off, i, bs, dw, bc, eccOffset, lay, data, eccs);
    assert dst[..off] == before;
    if encoded { BlockExtends(lay, data, i); }
    assert dst[..off + dw] == dst[..off] + dst[off..off + dw];
  }

  method FetchBlock(raw: array<Gf>, dst: array<Gf>, off: nat, i: nat, bs: nat, dw: nat, bc: nat, eccOffset: nat,
                    ghost lay: Layout)
    requires lay.Valid() && i < lay.numBlocks == bc && dw == lay.DataLen(i) && bs == dw + lay.eccLen
    requires eccOffset == lay.EccStart()
    requires lay.rawCodewords <= raw.Length && off + bs <= dst.Length && raw != dst
    modifies dst
    ensures forall k :: 0 <= k < off ==> dst[k] == old(dst[k])
    ensures Fetched(lay, raw[..lay.rawCodewords], dst[off..off + bs], i)
  {
    hide *;
    FetchBounds(lay, i);
    EccStartSign(lay);
    BlockLimits(lay, i);
    Gather(raw, dst, off, dw, i, bc);
    ghost var first := dst[..];
    Gather(raw, dst, off + dw, bs - dw, eccOffset + i, bc);
    assert forall k :: off <= k < off + dw ==> dst[k] == first[k];
    FetchedCells(lay, raw[..], dst[off..off + bs], off, i, dw, dst[..]);
  }

  /** For the stream the encoder made of any data, every block is accepted and the data codewords come out unchanged,
      although the last data codeword of each long block is read from the wrong place. */
  method CodestreamEcc(raw: array<Gf>, dst: array<Gf>, bs: nat, dw: nat, ns: nat, dataBytes: nat,
                       ghost lay: Layout, ghost data: seq<Gf>) returns (ok: bool, dataLen: nat)
    requires lay.Valid() && bs == lay.ShortLen() && dw == lay.ShortData() && ns == lay.ShortBlocks()
    requires dataBytes == lay.rawCodewords <= raw.Length && lay.rawCodewords <= dst.Length && raw != dst
    modifies dst
    ensures dataLen <= dst.Length
    ensures Encodes(lay, data, raw[..dataBytes]) ==> ok && dataLen == |data| && dst[..dataLen] == data
  {
    hide *;
    DecoderParameters(lay);
    var lbCount := (dataBytes - bs * ns) / (bs + 1);
    var bc := lbCount + ns;
    var eccOffset := dw * bc + lbCount;
    dataLen := 0;
    ghost var stream := raw[..dataBytes];
    ghost var encoded := Encodes(lay, data, stream);
    ghost var eccs: seq<seq<Gf>> := [];
    if encoded { eccs := ParityWitness(lay, data, stream); }
    for i := 0 to bc
      invariant raw[..dataBytes] == stream
      invariant dataLen == lay.DataStart(i) <= dst.Length && (encoded ==> dataLen <= |data|)
      invariant encoded ==> dst[..dataLen] == data[..dataLen]
    {
      BlockStep(lay, i);
      var dwi, bsi := if i < ns then dw else dw + 1, if i < ns then bs else bs + 1;
      var good := DecodeNext(raw, dst, dataLen, i, bsi, dwi, bc, eccOffset, lay, data, eccs, encoded);
      if !good {
        return false, 0;
      }
      dataLen := dataLen + dwi;
    }
    ok := true;
  }

  // The whole way: every data vector survives interleaving, the misread and the repair.
  method EncodeThenDecode(lay: Layout, data: seq<Gf>) returns (decoded: Option<seq<Gf>>)
    requires lay.Valid()
    ensures |data| == lay.DataCodewords() ==> decoded == Some(data)
    ensures |data| != lay.DataCodewords() ==> decoded == None
  {
    hide Encodes;
    var stream := AddEccAndInterleave(lay, data);
    if stream.None? {
      return None;
    }
    EncodesLength(lay, data, stream.value);
    var raw := new Gf[|stream.value|](i requires 0 <= i < |stream.value| => stream.value[i]);
    var dst := new Gf[|stream.value|](_ => ZERO);
    assert raw[..lay.rawCodewords] == stream.value;
    var ok, n := CodestreamEcc(raw, dst, lay.ShortLen(), lay.ShortData(), lay.ShortBlocks(), lay.rawCodewords, lay, data);
    decoded := Some(dst[..n]);
  }

  lemma EncodesLength(lay: Layout, data: seq<Gf>, out: seq<Gf>)
    requires lay.Valid() && Encodes(lay, data, out)
    ensures |out| == lay.rawCodewords && |data| == lay.DataCodewords()
  {
  }
}
