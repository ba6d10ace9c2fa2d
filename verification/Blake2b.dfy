/** BLAKE2b streaming: buffering, the 128-bit counter and the digest, over an
    arbitrary compression function.  The sixteen little-endian words of the
    input buffer are seen as their 128 bytes. */
module Blake2b {
  const U64: nat := 0x1_0000_0000_0000_0000

  type State = s: seq<bv64> | |s| == 8 witness [0, 0, 0, 0, 0, 0, 0, 0]

  // Chaining value, message block, both counter words, last-block flag.
  type Compression = (State, seq<bv8>, nat, nat, bool) -> State

  // -------------------------------------------------------------------
  // Section 3.3 of RFC 7693
  // -------------------------------------------------------------------

  function Compressed(f: Compression, h: State, block: seq<bv8>, counter: nat, last: bool): State {
    f(h, block, counter % U64, counter / U64 % U64, last)
  }

  // The chaining value after the first n blocks of a message that goes on.
  function Absorb(f: Compression, h: State, m: seq<bv8>, n: nat): State
    requires 128 * n <= |m|
  {
    if n == 0 then h
    else Compressed(f, Absorb(f, h, m, n - 1), m[128 * n - 128..128 * n], 128 * n, false)
  }

  function Padded(m: seq<bv8>): seq<bv8>
    requires |m| <= 128
  {
    m + seq(128 - |m|, _ => 0)
  }

  // How many blocks come before the last one.
  function Before(size: nat): (n: nat)
    ensures 128 * n <= size <= 128 * n + 128 && (size > 0 ==> 128 * n < size)
  {
    if size == 0 then 0 else (size - 1) / 128
  }

  function Hash(f: Compression, h: State, m: seq<bv8>): State {
    var n := Before(|m|);
    Compressed(f, Absorb(f, h, m, n), Padded(m[128 * n..]), |m|, true)
  }

  const Iv: State := [
    0x6a09e667f3bcc908, 0xbb67ae8584caa73b, 0x3c6ef372fe94f82b, 0xa54ff53a5f1d36f1,
    0x510e527fade682d1, 0x9b05688c2b3e6c1f, 0x1f83d9abfb41bd6b, 0x5be0cd19137e2179]

  function Initial(hashSize: nat, keySize: nat): State
    requires hashSize < U64 && keySize <= 128
  {
    Iv[0 := Iv[0] ^ 0x01010000 ^ ((keySize as bv64) << 8) ^ (hashSize as bv64)]
  }

  // A key counts as one block of its own.
  function KeyBlock(key: seq<bv8>): seq<bv8>
    requires |key| <= 128
  {
    if key == [] then [] else Padded(key)
  }

  function ByteOf(h: State, i: nat): bv8
    requires i < 64
  {
    ((h[i / 8] >> (8 * (i % 8))) & 0xff) as bv8
  }

  function Serialized(h: State): seq<bv8> {
    seq(64, i requires 0 <= i < 64 => ByteOf(h, i))
  }

  lemma {:induction false} AbsorbPrefix(f: Compression, h: State, m: seq<bv8>, x: seq<bv8>, n: nat)
    requires 128 * n <= |m|
    ensures Absorb(f, h, m + x, n) == Absorb(f, h, m, n)
  {
    if n > 0 {
      AbsorbPrefix(f, h, m, x, n - 1);
      assert (m + x)[128 * n - 128..128 * n] == m[128 * n - 128..128 * n];
    }
  }

  // The carry between the two counter words.
  lemma CounterAdds(t: nat, y: nat)
    requires y <= 128
    ensures (t + y) % U64 == (t % U64 + y) % U64
    ensures (t + y) / U64 % U64 == if (t % U64 + y) % U64 < y then (t / U64 % U64 + 1) % U64 else t / U64 % U64
  {
  }

  /** `n` blocks of the message are compressed into the hash and counted. */
  ghost predicate Chained(f: Compression, start: State, hash: State, low: nat, high: nat, m: seq<bv8>, n: nat) {
    && 128 * n <= |m| && hash == Absorb(f, start, m, n)
    && low == 128 * n % U64 && high == 128 * n / U64 % U64
  }

  lemma ChainExtends(f: Compression, start: State, hash: State, low: nat, high: nat, m: seq<bv8>, n: nat, x: seq<bv8>)
    requires Chained(f, start, hash, low, high, m, n)
    ensures Chained(f, start, hash, low, high, m + x, n)
  {
    AbsorbPrefix(f, start, m, x, n);
  }

  ghost predicate Holds(buffer: seq<bv8>, idx: nat, tail: seq<bv8>) {
    |buffer| == 128 && idx <= 128 && buffer[..idx] == tail
  }

  ghost predicate ZeroFrom(buffer: seq<bv8>, idx: nat) {
    forall i :: idx <= i < |buffer| ==> buffer[i] == 0
  }

  lemma HoldsMore(buffer: seq<bv8>, idx: nat, m: seq<bv8>, n: nat, x: seq<bv8>, after: seq<bv8>)
    requires n <= |m| && Holds(buffer, idx, m[n..]) && idx + |x| <= 128
    requires after == buffer[..idx] + x + buffer[idx + |x|..]
    ensures Holds(after, idx + |x|, (m + x)[n..])
    ensures ZeroFrom(buffer, idx) ==> ZeroFrom(after, idx + |x|)
  {
    assert (m + x)[n..] == m[n..] + x;
  }

  // Ors bytes, one at a time, into a buffer that is zero there.
  method OrInto(input: array<bv8>, at: nat, bytes: seq<bv8>)
    requires at + |bytes| <= input.Length && ZeroFrom(input[..], at)
    modifies input
    ensures input[..] == old(input[..])[..at] + bytes + old(input[..])[at + |bytes|..]
  {
    ghost var was := input[..];
    for i := 0 to |bytes|
      invariant input[..] == was[..at] + bytes[..i] + was[at + i..]
    {
      OrZero(bytes[i]);
      input[at + i] := input[at + i] | bytes[i];
    }
    assert bytes[..|bytes|] == bytes;
  }

  // Copies whole words into the buffer.
  method CopyWords(input: array<bv8>, at: nat, bytes: seq<bv8>)
    requires |bytes| % 8 == 0 && (bytes != [] ==> at + |bytes| <= input.Length)
    modifies input
    ensures bytes == [] ==> input[..] == old(input[..])
    ensures bytes != [] ==> input[..] == old(input[..])[..at] + bytes + old(input[..])[at + |bytes|..]
  {
    ghost var was := input[..];
    for i := 0 to |bytes| / 8
      invariant if bytes == [] then input[..] == was else input[..] == was[..at] + bytes[..8 * i] + was[at + 8 * i..]
    {
      forall k | 0 <= k < 8 { input[at + 8 * i + k] := bytes[8 * i + k]; }
    }
    assert bytes[..|bytes|] == bytes;
  }

  class Context {
    const compress: Compression
    const hashSize: nat
    const input: array<bv8>
    ghost const key: seq<bv8>

    var hash: State
    var offsetLow: nat
    var offsetHigh: nat
    var inputIdx: nat
    ghost var message: seq<bv8>   // the key block and everything fed in
    ghost var blocks: nat         // how many blocks of it are compressed

    ghost predicate Buffered()
      reads this, input
    {
      && |key| <= 128 && hashSize < U64
      && inputIdx <= 128 && |message| == 128 * blocks + inputIdx
      && Holds(input[..], inputIdx, message[128 * blocks..])
      && Chained(compress, Initial(hashSize, |key|), hash, offsetLow, offsetHigh, message, blocks)
    }

    ghost predicate Clean()
      reads this, input
    {
      ZeroFrom(input[..], inputIdx)
    }

    /** Between calls the buffer is the zero-padded tail of the message; the last
        block is never compressed, even when it is full. */
    ghost predicate Valid()
      reads this, input
    {
      Buffered() && Clean() && (inputIdx == 0 ==> message == [])
    }

    constructor (compress: Compression, hashSize: nat, key: seq<bv8>)
      requires hashSize < U64 && |key| <= 128
      ensures Valid() && fresh(input)
      ensures this.compress == compress && this.hashSize == hashSize && this.key == key
      ensures message == KeyBlock(key)
    {
      hide Initial;
      this.compress := compress;
      this.hashSize := hashSize;
      this.key := key;
      hash := Initial(hashSize, |key|);
      offsetLow := 0;
      offsetHigh := 0;
      inputIdx := if |key| > 0 then 128 else 0;
      input := new bv8[128](i requires 0 <= i < 128 => if i < |key| then key[i] else 0);
      message := KeyBlock(key);
      blocks := 0;
      new;
      assert input[..inputIdx] == message;
    }

    // Counts the buffered bytes and compresses the buffer.
    method Compress(last: bool)
      requires inputIdx <= 128 && |message| == 128 * blocks + inputIdx
      requires offsetLow == 128 * blocks % U64 && offsetHigh == 128 * blocks / U64 % U64
      modifies this`hash, this`offsetLow, this`offsetHigh
      ensures hash == Compressed(compress, old(hash), input[..], |message|, last)
      ensures offsetLow == |message| % U64 && offsetHigh == |message| / U64 % U64
    {
      CounterAdds(128 * blocks, inputIdx);
      offsetLow := (offsetLow + inputIdx) % U64;
      if offsetLow < inputIdx {
        offsetHigh := (offsetHigh + 1) % U64;
      }
      hash := compress(hash, input[..], offsetLow, offsetHigh, last);
    }

    // A full buffer into the chaining value, since more is to come.
    method Flush()
      requires Buffered() && inputIdx == 128
      modifies this`hash, this`offsetLow, this`offsetHigh, this`inputIdx, this`blocks
      ensures Buffered() && inputIdx == 0
    {
      hide Initial, Compressed, Absorb;
      assert input[..][..128] == input[..];
      assert input[..] == message[128 * blocks..128 * (blocks + 1)];
      AbsorbNext(compress, Initial(hashSize, |key|), message, blocks);
      Compress(false);
      blocks := blocks + 1;
      inputIdx := 0;
    }

    // Bytes into a clean buffer.
    method OrBytes(bytes: seq<bv8>)
      requires Buffered() && Clean() && inputIdx + |bytes| <= 128
      modifies this`inputIdx, this`message, input
      ensures Buffered() && Clean() && inputIdx == old(inputIdx) + |bytes| && message == old(message) + bytes
    {
      hide Chained, Initial;
      ghost var was := input[..];
      OrInto(input, inputIdx, bytes);
      HoldsMore(was, inputIdx, message, 128 * blocks, bytes, input[..]);
      ChainExtends(compress, Initial(hashSize, |key|), hash, offsetLow, offsetHigh, message, blocks, bytes);
      inputIdx := inputIdx + |bytes|;
      message := message + bytes;
    }

    // Whole words from position `at` on, which must be the write position
    // unless there are none.
    method LoadWords(at: nat, bytes: seq<bv8>)
      requires Buffered() && inputIdx + |bytes| <= 128 && |bytes| % 8 == 0
      requires bytes != [] ==> at == inputIdx
      modifies this`inputIdx, this`message, input
      ensures Buffered() && inputIdx == old(inputIdx) + |bytes| && message == old(message) + bytes
      ensures old(Clean()) ==> Clean()
    {
      hide Chained, Initial, ZeroFrom;
      ghost var was := input[..];
      CopyWords(input, at, bytes);
      assert bytes == [] ==> was == was[..inputIdx] + bytes + was[inputIdx + |bytes|..];
      HoldsMore(was, inputIdx, message, 128 * blocks, bytes, input[..]);
      ChainExtends(compress, Initial(hashSize, |key|), hash, offsetLow, offsetHigh, message, blocks, bytes);
      inputIdx := inputIdx + |bytes|;
      message := message + bytes;
    }

    // Up to a word boundary.
    method AlignWord(bytes: seq<bv8>) returns (used: nat)
      requires Valid()
      modifies this`inputIdx, this`message, input
      ensures used <= |bytes| && Valid() && message == old(message) + bytes[..used]
      ensures inputIdx % 8 == 0 || used == |bytes|
    {
      hide Chained, Initial;
      used := 0;
      if inputIdx % 8 != 0 {
        var gap := 8 - inputIdx % 8;
        used := if gap < |bytes| then gap else |bytes|;
        OrBytes(bytes[..used]);
      } else {
        assert message == message + bytes[..0];
      }
    }

    // Up to a block boundary, by whole words.
    method AlignBlock(bytes: seq<bv8>) returns (used: nat)
      requires Valid() && (inputIdx % 8 == 0 || bytes == [])
      modifies this`inputIdx, this`message, input
      ensures used <= |bytes| && Valid() && message == old(message) + bytes[..used]
      ensures inputIdx == 0 || inputIdx == 128 || (|bytes| - used < 8 && (|bytes| == used || inputIdx % 8 == 0))
    {
      hide Chained, Initial;
      used := 0;
      if inputIdx % 128 != 0 {
        var gap := 128 - inputIdx;
        used := (if gap < |bytes| then gap else |bytes|) / 8 * 8;
        LoadWords(inputIdx, bytes[..used]);
      } else {
        assert message == message + bytes[..0];
      }
    }

    // Block by block; the last one stays in the buffer.
    method LoadBlocks(bytes: seq<bv8>)
      requires Valid() && |bytes| % 128 == 0
      requires bytes != [] ==> inputIdx == 0 || inputIdx == 128
      modifies this`hash, this`offsetLow, this`offsetHigh, this`inputIdx, this`blocks, this`message, input
      ensures Valid() && message == old(message) + bytes
      ensures inputIdx == if bytes == [] then old(inputIdx) else 128
    {
      hide Chained, Initial;
      for i := 0 to |bytes| / 128
        invariant Valid() && message == old(message) + bytes[..128 * i]
        invariant inputIdx == if i == 0 then old(inputIdx) else 128
      {
        if inputIdx == 128 {
          Flush();
        }
        LoadWords(0, bytes[128 * i..128 * i + 128]);
        assert bytes[..128 * (i + 1)] == bytes[..128 * i] + bytes[128 * i..128 * i + 128];
      }
      assert bytes[..128 * (|bytes| / 128)] == bytes;
    }

    // Compresses a full buffer and clears an empty one.
    method MakeRoom()
      requires Valid()
      modifies this`hash, this`offsetLow, this`offsetHigh, this`inputIdx, this`blocks, input
      ensures Buffered() && Clean() && inputIdx < 128
      ensures inputIdx == if old(inputIdx) == 128 then 0 else old(inputIdx)
    {
      hide Chained, Initial;
      if inputIdx == 128 {
        Flush();
      }
      if inputIdx == 0 {
        forall i | 0 <= i < 128 { input[i] := 0; }
      }
    }

    // What is left, less than a block.
    method LoadTail(bytes: seq<bv8>)
      requires Valid() && 0 < |bytes| < 128
      requires inputIdx == 0 || inputIdx == 128 || (|bytes| < 8 && inputIdx % 8 == 0)
      modifies this`hash, this`offsetLow, this`offsetHigh, this`inputIdx, this`blocks, this`message, input
      ensures Valid() && message == old(message) + bytes
    {
      hide Buffered, Clean;
      MakeRoom();
      var nbWords := |bytes| / 8;
      LoadWords(0, bytes[..8 * nbWords]);
      OrBytes(bytes[8 * nbWords..]);
      assert bytes == bytes[..8 * nbWords] + bytes[8 * nbWords..];
    }

    method Update(bytes: seq<bv8>)
      requires Valid()
      modifies this`hash, this`offsetLow, this`offsetHigh, this`inputIdx, this`blocks, this`message, input
      ensures Valid() && message == old(message) + bytes
    {
      hide Buffered, Clean;
      if |bytes| == 0 {
        assert message + bytes == message;
        return;
      }
      var used := AlignWord(bytes);
      var more := AlignBlock(bytes[used..]);
      JoinPrefixes(old(message), bytes, used, more);
      used := used + more;
      var rest := bytes[used..];
      var whole := 128 * (|rest| / 128);
      LoadBlocks(rest[..whole]);
      var tail := rest[whole..];
      if tail != [] {
        LoadTail(tail);
      }
      Regroup(old(message), bytes, used, whole);
    }

    /** The digest of the key block and everything fed in, however it was cut
        into updates. */
    method Final() returns (digest: seq<bv8>)
      requires Valid()
      modifies this`hash, this`offsetLow, this`offsetHigh
      ensures digest == Serialized(Hash(compress, Initial(hashSize, |key|), message))[..if hashSize < 64 then hashSize else 64]
    {
      hide Absorb, Initial, Compressed, ByteOf;
      assert blocks == Before(|message|) by { BeforeIs(|message|, blocks, inputIdx); }
      assert input[..] == Padded(message[128 * blocks..]);
      Compress(true);
      var size := if hashSize < 64 then hashSize else 64;
      var nbWords := size / 8;
      var h := hash;
      digest := seq(8 * nbWords, i requires 0 <= i < 8 * nbWords => ByteOf(h, i));
      for i := 8 * nbWords to size
        modifies {}
        invariant digest == Serialized(h)[..i]
      {
        digest := digest + [ByteOf(h, i)];
      }
    }
  }

  lemma BeforeIs(size: nat, n: nat, idx: nat)
    requires size == 128 * n + idx && idx <= 128 && (idx == 0 ==> size == 0)
    ensures n == Before(size)
  {
  }

  lemma JoinPrefixes(m: seq<bv8>, bytes: seq<bv8>, i: nat, j: nat)
    requires i + j <= |bytes|
    ensures (m + bytes[..i]) + bytes[i..][..j] == m + bytes[..i + j]
  {
  }

  lemma Regroup(m: seq<bv8>, bytes: seq<bv8>, i: nat, j: nat)
    requires i + j <= |bytes|
    ensures ((m + bytes[..i]) + bytes[i..][..j]) + bytes[i..][j..] == m + bytes
    ensures bytes[i..][j..] == [] ==> (m + bytes[..i]) + bytes[i..][..j] == m + bytes
  {
  }

  /** The whole state is a function of the concatenation: two contexts that were
      fed the same bytes are in the same state, whatever the calls were. */
  lemma SameBytesSameState(a: Context, b: Context)
    requires a.Valid() && b.Valid()
    requires a.compress == b.compress && a.hashSize == b.hashSize && a.key == b.key
    requires a.message == b.message
    ensures a.hash == b.hash && a.inputIdx == b.inputIdx && a.input[..] == b.input[..]
    ensures a.offsetLow == b.offsetLow && a.offsetHigh == b.offsetHigh
    ensures a.offsetLow + U64 * a.offsetHigh == (|a.message| - a.inputIdx) % (U64 * U64)
  {
    hide Absorb, Initial;
    BeforeIs(|a.message|, a.blocks, a.inputIdx);
    BeforeIs(|b.message|, b.blocks, b.inputIdx);
    assert a.input[..] == Padded(a.message[128 * a.blocks..]);
    assert b.input[..] == Padded(b.message[128 * b.blocks..]);
    CounterIsWhole(128 * a.blocks);
  }

  lemma CounterIsWhole(t: nat)
    ensures t % U64 + U64 * (t / U64 % U64) == t % (U64 * U64)
  {
  }

  lemma OrZero(b: bv8)
    ensures 0 | b == b
  {
  }

  lemma AbsorbNext(f: Compression, h: State, m: seq<bv8>, n: nat)
    requires 128 * n + 128 <= |m|
    ensures Absorb(f, h, m, n + 1) == Compressed(f, Absorb(f, h, m, n), m[128 * n..128 * n + 128], 128 * n + 128, false)
  {
    hide Compressed;
  }
}
