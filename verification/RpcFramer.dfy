/** The response side of the RPC byte stream: frames [u32 id][u8 status][u32 length][data], little endian, cut anywhere
    by the socket's reads. */
module RpcFramer {
  import opened Bytes

  datatype Frame = Frame(id: nat, status: byte, data: seq<byte>)

  const HEADER := 9
  const INT_LIMIT := 0x8000_0000

  /* ---------- the header ---------- */

  function FrameLen(buf: seq<byte>): nat
    requires |buf| >= HEADER
  {
    HEADER + Load32(buf[5..9])
  }

  // A whole frame stands at the head of the buffer.
  predicate Complete(buf: seq<byte>) {
    |buf| >= HEADER && |buf| >= FrameLen(buf)
  }

  // The payload is cut with a length cast to int: from 2^31 on it is negative, and the cut runs to the end of the buffer.
  function Head(buf: seq<byte>): Frame
    requires Complete(buf)
  {
    Frame(Load32(buf[0..4]), buf[4], if Load32(buf[5..9]) < INT_LIMIT then buf[HEADER..FrameLen(buf)] else buf[HEADER..])
  }

  /* ---------- parsing a whole stream ---------- */

  function Frames(buf: seq<byte>): seq<Frame> {
    if !Complete(buf) then [] else [Head(buf)] + Frames(buf[FrameLen(buf)..])
  }

  function Rest(buf: seq<byte>): (r: seq<byte>)
    ensures !Complete(r)
  {
    if !Complete(buf) then buf else Rest(buf[FrameLen(buf)..])
  }

  lemma ParseStep(buf: seq<byte>)
    requires Complete(buf)
    ensures Frames(buf) == [Head(buf)] + Frames(buf[FrameLen(buf)..]) && Rest(buf) == Rest(buf[FrameLen(buf)..])
    ensures SmallFrames(buf) <==> Load32(buf[5..9]) < INT_LIMIT && SmallFrames(buf[FrameLen(buf)..])
  {
  }

  lemma ParseStop(buf: seq<byte>)
    requires !Complete(buf)
    ensures Frames(buf) == [] && Rest(buf) == buf && SmallFrames(buf)
  {
  }

  // Every whole frame of the buffer has a payload below 2^31 bytes.
  predicate SmallFrames(buf: seq<byte>) {
    Complete(buf) ==> Load32(buf[5..9]) < INT_LIMIT && SmallFrames(buf[FrameLen(buf)..])
  }

  // Bytes that arrive later do not change the frame at the head, as long as its payload is small.
  lemma HeadStable(a: seq<byte>, b: seq<byte>)
    requires Complete(a)
    ensures Complete(a + b) && FrameLen(a + b) == FrameLen(a)
    ensures (a + b)[FrameLen(a)..] == a[FrameLen(a)..] + b
    ensures Load32(a[5..9]) < INT_LIMIT || b == [] <==> Head(a + b) == Head(a)
  {
    assert (a + b)[5..9] == a[5..9] && (a + b)[0..4] == a[0..4];
    assert (a + b)[HEADER..FrameLen(a)] == a[HEADER..FrameLen(a)];
    assert (a + b)[HEADER..] == a[HEADER..] + b;
    if b != [] { assert |(a + b)[HEADER..]| > |a[HEADER..]|; }
  }

  // Parsing can stop anywhere and go on when more bytes come,
  lemma {:induction false} ParseResumes(a: seq<byte>, b: seq<byte>)
    requires SmallFrames(a)
    ensures Frames(a + b) == Frames(a) + Frames(Rest(a) + b)
    ensures Rest(a + b) == Rest(Rest(a) + b)
    ensures SmallFrames(a + b) <==> SmallFrames(Rest(a) + b)
    decreases |a|
  {
    hide Frames, Rest, Head, Load32, SmallFrames, Complete;
    if Complete(a) {
      HeadStable(a, b);
      assert (a + b)[5..9] == a[5..9];
      ParseStep(a);
      ParseStep(a + b);
      var t := a[FrameLen(a)..];
      ParseResumes(t, b);
      assert ([Head(a)] + Frames(t)) + Frames(Rest(a) + b) == [Head(a)] + (Frames(t) + Frames(Rest(a) + b));
    } else {
      ParseStop(a);
      assert [] + Frames(a + b) == Frames(a + b);
    }
  }

  // and only then: a larger payload swallows whatever else the read brought.
  lemma {:induction false} ParseResumesOnlyIf(a: seq<byte>, b: seq<byte>)
    requires !SmallFrames(a) && b != []
    ensures Frames(a + b) != Frames(a) + Frames(Rest(a) + b)
    decreases |a|
  {
    hide Frames, Rest, Head, Load32, SmallFrames, Complete;
    if !Complete(a) {
      ParseStop(a);
    } else {
      HeadStable(a, b);
      ParseStep(a);
      ParseStep(a + b);
      var t, rest := a[FrameLen(a)..], Frames(Rest(a) + b);
      if Load32(a[5..9]) < INT_LIMIT {
        ParseResumesOnlyIf(t, b);
        assert Frames(a + b)[1..] == Frames(t + b);
        assert (Frames(a) + rest)[1..] == Frames(t) + rest;
      } else {
        assert Frames(a + b)[0] == Head(a + b) && (Frames(a) + rest)[0] == Head(a);
      }
    }
  }

  // Such a buffer: a header that announces 2^31 bytes, and as many zeros.
  function Oversized(): seq<byte> {
    Store32(0) + [0] + Store32(INT_LIMIT) + seq(INT_LIMIT, i => 0)
  }

  lemma OversizedSwallows(b: seq<byte>)
    requires b != []
    ensures !SmallFrames(Oversized())
    ensures Frames(Oversized() + b) != Frames(Oversized()) + Frames(Rest(Oversized()) + b)
  {
    hide Frames, Rest, Head, Load32, SmallFrames;
    var buf := Oversized();
    assert buf[5..9] == Store32(INT_LIMIT);
    ParseStep(buf);
    ParseResumesOnlyIf(buf, b);
  }

  function Concat(chunks: seq<seq<byte>>): seq<byte> {
    if chunks == [] then [] else Concat(chunks[..|chunks| - 1]) + chunks[|chunks| - 1]
  }

  /* ---------- the sender's side ---------- */

  predicate Sendable(f: Frame) {
    f.id < 0x1_0000_0000 && |f.data| < INT_LIMIT
  }

  function Encode(f: Frame): seq<byte>
    requires Sendable(f)
  {
    Store32(f.id) + [f.status] + Store32(|f.data|) + f.data
  }

  function EncodeAll(fs: seq<Frame>): seq<byte>
    requires forall f :: f in fs ==> Sendable(f)
  {
    if fs == [] then [] else Encode(fs[0]) + EncodeAll(fs[1..])
  }

  lemma EncodeHead(f: Frame, tail: seq<byte>)
    requires Sendable(f)
    ensures var s := Encode(f) + tail; Complete(s) && Head(s) == f && s[FrameLen(s)..] == tail && Load32(s[5..9]) < INT_LIMIT
  {
    var s := Encode(f) + tail;
    assert s[0..4] == Store32(f.id) && s[5..9] == Store32(|f.data|) && s[4] == f.status;
    assert s[HEADER..HEADER + |f.data|] == f.data;
  }

  // A stream of encoded frames, ending in any part of a further one, parses to exactly those frames.
  lemma {:induction false} ParseInvertsEncode(fs: seq<Frame>, tail: seq<byte>)
    requires (forall f :: f in fs ==> Sendable(f)) && !Complete(tail)
    ensures Frames(EncodeAll(fs) + tail) == fs && Rest(EncodeAll(fs) + tail) == tail && SmallFrames(EncodeAll(fs) + tail)
  {
    hide Frames, Rest, Head, Load32, SmallFrames, Complete, FrameLen, Encode;
    if fs == [] {
      assert EncodeAll(fs) + tail == tail;
      ParseStop(tail);
    } else {
      var s := EncodeAll(fs) + tail;
      assert s == Encode(fs[0]) + (EncodeAll(fs[1..]) + tail);
      EncodeHead(fs[0], EncodeAll(fs[1..]) + tail);
      ParseStep(s);
      ParseInvertsEncode(fs[1..], tail);
    }
  }

  // Every strict prefix of a frame is incomplete.
  lemma PrefixIncomplete(f: Frame, n: nat)
    requires Sendable(f) && n < |Encode(f)|
    ensures !Complete(Encode(f)[..n])
  {
    var e := Encode(f);
    if n >= HEADER {
      assert e[..n][5..9] == Store32(|f.data|);
    }
  }

  /* ---------- reads ---------- */

  // The frames delivered and the bytes left when the chunks are read one after the other into a buffer holding buf.
  function Feed(buf: seq<byte>, chunks: seq<seq<byte>>): (seq<Frame>, seq<byte>) {
    if chunks == [] then ([], buf)
    else
      var (fs, rest) := Feed(buf, chunks[..|chunks| - 1]);
      var now := rest + chunks[|chunks| - 1];
      (fs + Frames(now), Rest(now))
  }

  // However the stream is cut into reads, the same frames come out and the same part of one frame is left.
  lemma {:induction false} FeedIsParse(chunks: seq<seq<byte>>)
    requires SmallFrames(Concat(chunks))
    ensures Feed([], chunks) == (Frames(Concat(chunks)), Rest(Concat(chunks)))
  {
    if chunks == [] {
      assert Concat(chunks) == [] && Frames([]) == [] && Rest([]) == [];
    } else {
      var a, b := Concat(chunks[..|chunks| - 1]), chunks[|chunks| - 1];
      SmallPrefix(a, b);
      FeedIsParse(chunks[..|chunks| - 1]);
      ParseResumes(a, b);
    }
  }

  lemma {:induction false} SmallPrefix(a: seq<byte>, b: seq<byte>)
    requires SmallFrames(a + b)
    ensures SmallFrames(a)
    decreases |a|
  {
    if Complete(a) {
      HeadStable(a, b);
      assert (a + b)[5..9] == a[5..9];
      SmallPrefix(a[FrameLen(a)..], b);
    }
  }

  // What the core sent on one connection is what is delivered, for every cut and every unfinished last frame.
  lemma SentIsDelivered(fs: seq<Frame>, tail: seq<byte>, chunks: seq<seq<byte>>)
    requires (forall f :: f in fs ==> Sendable(f)) && !Complete(tail) && Concat(chunks) == EncodeAll(fs) + tail
    ensures Feed([], chunks) == (fs, tail)
  {
    ParseInvertsEncode(fs, tail);
    FeedIsParse(chunks);
  }

  /* ---------- reads and reconnects ---------- */

  datatype Event = Read(chunk: seq<byte>) | Swap

  // The frames delivered and the bytes left after a run of reads and replaced sockets.
  function Deliver(events: seq<Event>): (seq<Frame>, seq<byte>) {
    if events == [] then ([], [])
    else
      var (fs, rest) := Deliver(events[..|events| - 1]);
      match events[|events| - 1]
      case Read(chunk) => (fs + Frames(rest + chunk), Rest(rest + chunk))
      case Swap => (fs, [])
  }

  // What arrived on each connection, the current one last.
  function Streams(events: seq<Event>): (ss: seq<seq<byte>>)
    ensures ss != []
  {
    if events == [] then [[]]
    else
      var ss := Streams(events[..|events| - 1]);
      match events[|events| - 1]
      case Read(chunk) => ss[..|ss| - 1] + [ss[|ss| - 1] + chunk]
      case Swap => ss + [[]]
  }

  function AllFrames(streams: seq<seq<byte>>): seq<Frame> {
    if streams == [] then [] else AllFrames(streams[..|streams| - 1]) + Frames(streams[|streams| - 1])
  }

  predicate AllSmall(streams: seq<seq<byte>>) {
    forall i :: 0 <= i < |streams| ==> SmallFrames(streams[i])
  }

  lemma AllFramesAppend(streams: seq<seq<byte>>, last: seq<byte>)
    ensures AllFrames(streams + [last]) == AllFrames(streams) + Frames(last)
  {
    assert (streams + [last])[..|streams|] == streams;
  }

  lemma EmptyStream()
    ensures Frames([]) == [] && Rest([]) == []
  {
  }

  // More bytes on the current connection.
  lemma StreamGrows(before: seq<seq<byte>>, last: seq<byte>, chunk: seq<byte>)
    requires SmallFrames(last + chunk)
    ensures SmallFrames(last)
    ensures AllFrames(before + [last + chunk]) == AllFrames(before + [last]) + Frames(Rest(last) + chunk)
    ensures Rest(last + chunk) == Rest(Rest(last) + chunk)
  {
    hide *;
    SmallPrefix(last, chunk);
    ParseResumes(last, chunk);
    AllFramesAppend(before, last);
    AllFramesAppend(before, last + chunk);
  }

  // Over any mix of reads and reconnects, each connection's own stream is parsed by itself, in order.
  lemma {:induction false} DeliveredByConnection(events: seq<Event>)
    requires AllSmall(Streams(events))
    ensures var ss := Streams(events); Deliver(events) == (AllFrames(ss), Rest(ss[|ss| - 1]))
    decreases |events|
  {
    hide Frames, Rest, SmallFrames, AllFrames;
    EmptyStream();
    if events == [] {
      OneStream();
    } else {
      var init, last := events[..|events| - 1], events[|events| - 1];
      var ss, now := Streams(init), Streams(events);
      var n := |ss| - 1;
      assert ss == ss[..n] + [ss[n]];
      if last.Swap? {
        assert forall i :: 0 <= i < |ss| ==> now[i] == ss[i];
        DeliveredByConnection(init);
        AllFramesAppend(ss, []);
        assert AllFrames(ss) + [] == AllFrames(ss);
      } else {
        assert now[n] == ss[n] + last.chunk;
        StreamGrows(ss[..n], ss[n], last.chunk);
        assert forall i :: 0 <= i < n ==> now[i] == ss[i];
        DeliveredByConnection(init);
      }
    }
  }

  lemma OneStream()
    ensures AllFrames([[]]) == []
  {
    EmptyStream();
    var none: seq<seq<byte>> := [];
    assert AllFrames(none) == [] && none + [[]] == [[]];
    AllFramesAppend(none, []);
  }

  class Reader {
    var readBuf: seq<byte>

    constructor ()
      ensures readBuf == []
    {
      readBuf := [];
    }

    // onReadyRead followed by processBuffer; the frames are handed over in order.
    method OnReadyRead(chunk: seq<byte>) returns (delivered: seq<Frame>)
      modifies this
      ensures delivered == Frames(old(readBuf) + chunk) && readBuf == Rest(old(readBuf) + chunk)
    {
      hide Frames, Rest;
      readBuf := readBuf + chunk;
      ghost var all := readBuf;
      delivered := [];
      while |readBuf| >= HEADER
        invariant Frames(all) == delivered + Frames(readBuf) && Rest(all) == Rest(readBuf)
        decreases |readBuf|
      {
        var id, status, dataLen := Load32(readBuf[0..4]), readBuf[4], Load32(readBuf[5..9]);
        var totalSize := HEADER + dataLen;
        if |readBuf| < totalSize {
          break;
        }
        var data := if dataLen < INT_LIMIT then readBuf[HEADER..HEADER + dataLen] else readBuf[HEADER..];
        ParseStep(readBuf);
        assert delivered + Frames(readBuf) == (delivered + [Frame(id, status, data)]) + Frames(readBuf[totalSize..]);
        readBuf := readBuf[totalSize..];
        delivered := delivered + [Frame(id, status, data)];
      }
      ParseStop(readBuf);
      assert delivered + [] == delivered;
    }

    // The socket is replaced: what is left of the old connection is dropped, so parsing restarts on a frame boundary.
    method Swap()
      modifies this
      ensures readBuf == []
    {
      readBuf := [];
    }

    // The reader's thread: reads and reconnects as they come.
    method Run(events: seq<Event>) returns (delivered: seq<Frame>)
      requires readBuf == []
      modifies this
      ensures (delivered, readBuf) == Deliver(events)
      ensures AllSmall(Streams(events)) ==> delivered == AllFrames(Streams(events))
    {
      hide Frames, Rest, AllFrames, AllSmall, Streams;
      delivered := [];
      for i := 0 to |events|
        invariant (delivered, readBuf) == Deliver(events[..i])
      {
        assert events[..i + 1][..i] == events[..i];
        match events[i]
        case Read(chunk) =>
          var frames := OnReadyRead(chunk);
          delivered := delivered + frames;
        case Swap =>
          Swap();
      }
      assert events[..|events|] == events;
      if AllSmall(Streams(events)) { DeliveredByConnection(events); }
    }
  }
}
