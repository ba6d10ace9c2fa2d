/** From text to module matrix and back: the encoder and the decoder end to end. */
module QrRoundTrip {
  import opened Bytes
  import opened BitStreams
  import opened GaloisField
  import opened ReedSolomonEncoder
  import opened Options
  import opened Codestream
  import opened Segments
  import opened SegmentEncoder
  import opened PayloadDecoder
  import opened SymbolGeometry
  import opened AlignmentCentres
  import opened ModuleCount
  import opened FormatCode
  import opened QrMatrix
  import opened GridReader

  /** What the two sides look up: block layouts and capacities by version and
      level, and the decoder's alignment centres by version. */
  datatype Tables = Tables(layout: (nat, nat) -> Layout, centres: nat -> seq<nat>, capacity: Capacity) {
    // The layout accounts for every codeword the symbol has room for.
    ghost predicate Sound(version: nat, level: nat) {
      && 1 <= version <= 40 && layout(version, level).Valid()
      && layout(version, level).rawCodewords == RawDataModules(version) / 8
      && capacity(version, level) == layout(version, level).DataCodewords()
      && AlignmentOk(Size(version), centres(version))
    }

    ghost predicate AllSound() {
      forall v, l :: 1 <= v <= 40 && 0 <= l < 4 ==> Sound(v, l)
    }

    // The decoder lists the centres the encoder draws.
    ghost predicate Agrees(version: nat) { version >= 1 && EncoderCentres(version, centres(version)) }
  }

  // The free cells take all codewords.
  lemma RoomForAll(t: Tables, version: nat, level: nat, ps: seq<nat>)
    requires t.Sound(version, level) && EncoderCentres(version, ps)
    ensures AlignmentOk(Size(version), ps)
    ensures 8 * t.layout(version, level).rawCodewords <= |FullPath(version, ps)| <= MAX_BITS
  {
    hide RawDataModules, FullPath;
    EncoderCentresSpaced(version, ps);
    FreeCellsCounted(version, ps);
    RawDataBound(version);
  }

  // What reading through the mask finds.
  lemma ReadsWhatWasDrawn(qr: QrCode, ps: seq<nat>, stream: seq<Gf>, mask: nat, raw: seq<Gf>)
    requires qr.Valid() && mask < 8 && qr.Masked(ps, CodeBits(stream), mask)
    requires OnGrid(qr.modules, FullPath(qr.version, ps)) && HoldsBits(raw, qr.modules, mask, FullPath(qr.version, ps))
    requires 8 * |stream| <= |FullPath(qr.version, ps)|
    ensures |stream| <= |raw| && raw[..|stream|] == stream
    ensures forall k :: 8 * |stream| <= k < 8 * |raw| ==> !BitAt(raw[k / 8], k % 8)
  {
    hide BitAt, MaskBit, Inverted, FullPath;
    var path, bits := FullPath(qr.version, ps), CodeBits(stream);
    forall k | 0 <= k < 8 * |raw| ensures BitAt(raw[k / 8], k % 8) == (k < |bits| && bits[k]) {
      if k < |path| { MaskBitIsInverted(mask, path[k].x, path[k].y); }
    }
    var got := raw[..|stream|];
    forall k | 0 <= k < 8 * |stream| ensures CodeBits(got)[k] == bits[k] {
      assert got[k / 8] == raw[k / 8];
    }
    CodeBitsInjective(got, stream);
  }

  // Codewords to modules, and the mask used.
  method DrawSymbol(t: Tables, version: nat, level: nat, codewords: seq<Gf>, msk: int,
                    penalties: seq<nat>)
    returns (qr: QrCode, mask: nat, ghost stream: seq<Gf>, ps: seq<nat>)
    requires 1 <= version <= 40 && t.Sound(version, level) && |codewords| == t.capacity(version, level)
    requires level < 4 && -1 <= msk <= 7 && |penalties| == 8
    ensures fresh(qr) && fresh(qr.modules) && qr.Valid() && qr.version == version && mask < 8
    ensures Encodes(t.layout(version, level), codewords, stream)
    ensures EncoderCentres(version, ps) && qr.Masked(ps, CodeBits(stream), mask)
    ensures qr.Coloured(ps, FormatBits(level, mask), VersionBits(version))
  {
    hide Encodes, CodeBits, FunctionCell, QrCode.Coloured, FormatBits, VersionBits;
    var all := AddEccAndInterleave(t.layout(version, level), codewords);
    stream := all.value;
    qr := new QrCode(version);
    ps := AlignmentPositions(version);
    RoomForAll(t, version, level, ps);
    EncodesLength(t.layout(version, level), codewords, stream);
    var drawn := qr.Draw(ps, all.value, level, msk, penalties);
    mask := drawn.value;
  }

  // Both copies of the format word are where the decoder looks for them.
  lemma DrawnFormat(qr: QrCode, ps: seq<nat>, level: nat, mask: nat, second: bool)
    requires qr.Valid() && level < 4 && mask < 8 && qr.Coloured(ps, FormatBits(level, mask), VersionBits(qr.version))
    ensures qr.modules.Length0 == qr.modules.Length1 >= 21 && ShowsFormat(qr.modules, second, level, mask)
  {
    hide FormatWord, VersionWord, Bit, FunctionColour, FormatCell, FormatInfo, FormatDark, FunctionCell;
    var bits, size := FormatBits(level, mask), qr.size;
    forall j | 0 <= j < 15
      ensures var c := FormatCell(size, second, j); qr.modules[c.y, c.x] == Bit(FormatWord(level, mask), j)
    {
      var c := FormatCell(size, second, j);
      FormatCellShows(qr.version, ps, bits, VersionBits(qr.version), second, j, qr.modules[c.y, c.x]);
    }
  }

  lemma FormatCellShows(version: nat, ps: seq<nat>, bits: seq<bool>, versionBits: seq<bool>, second: bool, j: nat, dark: bool)
    requires 1 <= version <= 40 && |bits| == 15 && |versionBits| == 18 && j < 15
    ensures var c := FormatCell(Size(version), second, j);
      FunctionCell(version, ps, c.x, c.y) && (FunctionColour(version, ps, bits, versionBits, c.x, c.y, dark) ==> dark == bits[j])
  {
    hide Alignment, PatternColour, VersionDark, TimingDark, FinderDark;
  }

  // The first copy of the format word, or else the second.
  method ReadEitherFormat(grid: array2<bool>, repair: bv32 -> bv32) returns (r: Option<(nat, nat)>)
    requires grid.Length0 == grid.Length1 >= 21 && forall u :: repair(u) < 0x8000
    ensures r.Some? ==> r.value.0 < 4 && r.value.1 < 8
    ensures forall level: nat, mask: nat :: level < 4 && mask < 8 && ShowsFormat(grid, false, level, mask) ==> r == Some((level, mask))
  {
    hide ShowsFormat, FormatWord, FromBits, FormatRead;
    r := ReadFormat(grid, false, repair);
    if r.None? {
      r := ReadFormat(grid, true, repair);
    }
  }

  // Modules back to data codewords: level and mask from the format word, the
  // alignment patterns by the decoder's own list of centres.
  method ReadSymbol(t: Tables, qr: QrCode, repair: bv32 -> bv32, ghost level: nat, ghost mask: nat, ghost codewords: seq<Gf>,
                    ghost stream: seq<Gf>, ghost ps: seq<nat>)
    returns (data: Option<seq<Gf>>)
    requires qr.Valid() && t.AllSound() && level < 4 && mask < 8 && t.Sound(qr.version, level) && forall u :: repair(u) < 0x8000
    requires Encodes(t.layout(qr.version, level), codewords, stream)
    requires EncoderCentres(qr.version, ps) && qr.Masked(ps, CodeBits(stream), mask)
    requires qr.Coloured(ps, FormatBits(level, mask), VersionBits(qr.version))
    ensures ps == t.centres(qr.version) ==> data == Some(codewords)
  {
    hide Encodes, CodeBits, FunctionCell, FullPath, HoldsBits, QrCode.Masked, QrCode.Coloured, FormatBits, VersionBits, ShowsFormat, Tables.Sound;
    DrawnFormat(qr, ps, level, mask, false);
    var format := ReadEitherFormat(qr.modules, repair);
    assert format == Some((level, mask));
    data := ReadCodewords(t, qr, format.value.0, format.value.1, codewords, stream, ps);
  }

  method ReadCodewords(t: Tables, qr: QrCode, level: nat, mask: nat, ghost codewords: seq<Gf>, ghost stream: seq<Gf>, ghost ps: seq<nat>)
    returns (data: Option<seq<Gf>>)
    requires qr.Valid() && t.Sound(qr.version, level) && mask < 8
    requires Encodes(t.layout(qr.version, level), codewords, stream)
    requires EncoderCentres(qr.version, ps) && qr.Masked(ps, CodeBits(stream), mask)
    ensures ps == t.centres(qr.version) ==> data == Some(codewords)
  {
    hide Encodes, CodeBits, FunctionCell, FullPath, HoldsBits, QrCode.Masked;
    var lay := t.layout(qr.version, level);
    EncodesLength(lay, codewords, stream);
    RoomForAll(t, qr.version, level, ps);
    RawDataBound(qr.version);
    DataBits(lay);
    var raw := new Gf[MAX_RAW](_ => ZERO);
    var dataBits := ReadData(qr.modules, qr.version, t.centres(qr.version), mask, raw);
    if ps == t.centres(qr.version) {
      ReadsWhatWasDrawn(qr, ps, stream, mask, raw[..]);
      assert raw[..lay.rawCodewords] == stream;
    }
    var dst := new Gf[MAX_RAW](_ => ZERO);
    var ok, n := CodestreamEcc(raw, dst, lay.ShortLen(), lay.ShortData(), lay.ShortBlocks(), lay.rawCodewords, lay, codewords);
    data := if ok then Some(dst[..n]) else None;
  }

  // Data codewords back to text.
  method ReadPayload(data: seq<Gf>, version: nat, ghost segs: seq<Segment>, ghost texts: seq<seq<byte>>)
    returns (r: Option<seq<byte>>)
    requires 1 <= version <= 40
    ensures AllMadeOf(segs, texts) && Holds(segs, version, data) && 8 * |data| <= MAX_BITS ==> r == Some(Joined(texts))
  {
    hide ReadAll, CodeBits, Stream, AllMadeOf, Holds;
    if AllMadeOf(segs, texts) && Holds(segs, version, data) && 8 * |data| <= MAX_BITS {
      PayloadRoundTrip(segs, texts, version, data);
    }
    var d := new Decoder(data, 8 * |data|, version);
    assert CodeBits(data)[..8 * |data|] == CodeBits(data);
    var s := d.DecodePayload();
    r := if s == Success then Some(d.payload[..d.payloadLen]) else None;
  }

  /** Every list of segments the encoder accepts is drawn into a symbol from which
      the decoder reads the texts back, for every mask and every block layout,
      provided it looks for the alignment patterns where they were drawn.  Only
      segments that fit no version are refused, with version 0. */
  method SendSegments(t: Tables, segs: seq<Segment>, ghost texts: seq<seq<byte>>, level: nat, boost: bool, msk: int,
                      penalties: seq<nat>, repair: bv32 -> bv32)
    returns (version: nat, r: Option<seq<byte>>)
    requires t.AllSound() && AllMadeOf(segs, texts) && level < 4
    requires -1 <= msk <= 7 && |penalties| == 8 && forall u :: repair(u) < 0x8000
    ensures version <= 40 && (t.Agrees(version) ==> r == Some(Joined(texts)))
    ensures version == 0 <==> forall v :: 1 <= v <= 40 ==> !VersionFits(segs, t.capacity, v, level)
  {
    hide Holds, Encodes, CodeBits, AllMadeOf, FullPath, QrCode.Masked, QrCode.Coloured, FormatBits, VersionBits, VersionFits, EncoderCentres;
    var e := EncodeSegments(segs, level, 1, 40, msk, boost, t.capacity);
    if e.DataTooLong? {
      return 0, None;
    }
    version := e.version;
    assert t.Sound(e.version, e.level);
    var qr, mask, stream, ps := DrawSymbol(t, e.version, e.level, e.codewords, msk, penalties);
    var data := ReadSymbol(t, qr, repair, e.level, mask, e.codewords, stream, ps);
    if t.Agrees(version) { EncoderCentresUnique(version, ps, t.centres(version)); }
    RoomForAll(t, e.version, e.level, ps);
    DataBits(t.layout(e.version, e.level));
    if data.None? {
      return version, None;
    }
    r := ReadPayload(data.value, qr.version, segs, texts);
  }

  lemma DataBits(lay: Layout)
    requires lay.Valid()
    ensures lay.DataCodewords() <= lay.rawCodewords
  {
  }

  // The segments a text is spelled with.
  ghost function SegmentsOf(text: seq<byte>): seq<Segment> {
    if text == [] then []
    else [Segment(DensestMode(text), |text|, Packed(DensestMode(text), Symbols(DensestMode(text), text)))]
  }

  /** Every text that fits a symbol comes back unchanged, if the decoder agrees
      with the encoder on the alignment patterns of its version; only a text that
      fits none is refused. */
  method SendText(t: Tables, text: seq<byte>, level: nat, msk: int,
                  penalties: seq<nat>, repair: bv32 -> bv32)
    returns (version: nat, r: Option<seq<byte>>)
    requires t.AllSound() && level < 4
    requires -1 <= msk <= 7 && |penalties| == 8 && forall u :: repair(u) < 0x8000
    ensures version <= 40 && (t.Agrees(version) ==> r == Some(text))
    ensures version == 0 <==> || (DensestMode(text) == Byte && |text| > INT_MAX)
                              || (forall v :: 1 <= v <= 40 ==> !VersionFits(SegmentsOf(text), t.capacity, v, level))
  {
    hide VersionFits, Tables.AllSound, EncoderCentres, Packed, Symbols;
    var segs := MakeSegments(text);
    if segs.None? {
      return 0, None;
    }
    ghost var texts := if text == [] then [] else [text];
    assert Joined(texts) == text;
    assert segs.value == SegmentsOf(text);
    version, r := SendSegments(t, segs.value, texts, level, true, msk, penalties, repair);
  }
}
