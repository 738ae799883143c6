/** The streaming hash of abup_md5.c: whatever the pieces, the digest is that of the whole message. */
module Md5Stream {
  import opened Bytes
  import opened Md5Bits
  import opened Md5

  // ----- whole blocks and the rest

  /** The part of a message that has been compressed. */
  function Whole(message: seq<byte>): (p: seq<byte>)
    ensures Aligned(|p|)
  {
    message[..|message| - |message| % 64]
  }

  /** The part that waits in the buffer. */
  function Rest(message: seq<byte>): (p: seq<byte>)
    ensures |p| < 64
  {
    message[|message| - |message| % 64..]
  }

  lemma Split(message: seq<byte>)
    ensures message == Whole(message) + Rest(message) && |Rest(message)| == |message| % 64
  {}

  /** There is only one way to cut off whole blocks. */
  lemma CutIsUnique(message: seq<byte>, whole: seq<byte>, rest: seq<byte>)
    requires message == whole + rest && Aligned(|whole|) && |rest| < 64
    ensures Whole(message) == whole && Rest(message) == rest
  {}

  /** Data that does not fill the current block only lengthens the rest. */
  lemma StaysInBlock(message: seq<byte>, data: seq<byte>)
    requires |Rest(message)| + |data| < 64
    ensures Whole(message + data) == Whole(message) && Rest(message + data) == Rest(message) + data
  {
    Split(message);
    hide Whole, Rest, Aligned;
    assert message + data == Whole(message) + (Rest(message) + data);
    CutIsUnique(message + data, Whole(message), Rest(message) + data);
  }

  /** After whole blocks, the rest is the rest of the new data. */
  lemma ContinuesAtBlock(message: seq<byte>, data: seq<byte>)
    requires Aligned(|message|)
    ensures Whole(message) == message && Rest(message) == []
    ensures Whole(message + data) == message + Whole(data) && Rest(message + data) == Rest(data)
  {
    Split(data);
    hide Whole, Rest, Aligned;
    CutIsUnique(message, message, []);
    AlignedAdds(|message|, |Whole(data)|);
    assert message + data == (message + Whole(data)) + Rest(data);
    CutIsUnique(message + data, message + Whole(data), Rest(data));
  }

  /** Data that completes the current block makes it the next one to compress. */
  lemma FillsBlock(message: seq<byte>, data: seq<byte>)
    requires |Rest(message)| + |data| == 64
    ensures Aligned(|message + data|) && Aligned(|Rest(message) + data|)
    ensures CompressAll(INIT, message + data) == CompressAll(CompressAll(INIT, Whole(message)), Rest(message) + data)
  {
    Split(message);
    assert Aligned(64);
    hide CompressAll, Whole, Rest, Aligned;
    assert message + data == Whole(message) + (Rest(message) + data);
    CompressAllAppend(INIT, Whole(message), Rest(message) + data);
  }

  // ----- one block

  /** The body of the do-while loop: sixteen groups of four STEP lines on the registers a, b, c, d. */
  method Block(w: Words, block: seq<byte>) returns (r: Words)
    requires |block| == 64
    ensures r == Compress(w, block)
  {
    hide StepLine, Operation, Add, WordAt;
    var x := BlockWords(block);
    var a, b, c, d := w.a, w.b, w.c, w.d;
    for g := 0 to 16
      invariant Words(a, b, c, d) == Operations(w, x, 4 * g)
    {
      StepLineIsOperation(4 * g, Words(a, b, c, d), x);
      a := StepLine(4 * g, a, b, c, d, x);
      assert Words(d, a, b, c) == Operations(w, x, 4 * g + 1);
      StepLineIsOperation(4 * g + 1, Words(d, a, b, c), x);
      d := StepLine(4 * g + 1, d, a, b, c, x);
      assert Words(c, d, a, b) == Operations(w, x, 4 * g + 2);
      StepLineIsOperation(4 * g + 2, Words(c, d, a, b), x);
      c := StepLine(4 * g + 2, c, d, a, b, x);
      assert Words(b, c, d, a) == Operations(w, x, 4 * g + 3);
      StepLineIsOperation(4 * g + 3, Words(b, c, d, a), x);
      b := StepLine(4 * g + 3, b, c, d, a, x);
      assert Words(a, b, c, d) == Operations(w, x, 4 * g + 4);
    }
    r := Words(Add(w.a, a), Add(w.b, b), Add(w.c, c), Add(w.d, d));
  }

  // ----- the context

  class Context {
    var lo: u32
    var hi: u32
    var words: Words
    const buffer: array<byte>
    ghost var message: seq<byte>

    /** What the fields mean once `message` has been fed. */
    ghost predicate Valid()
      reads this, buffer
    {
      Counts(hi, lo, |message|) && Hashed()
    }

    ghost predicate Hashed()
      reads this, buffer
    {
      && buffer.Length == 64
      && words == CompressAll(INIT, Whole(message))
      && buffer[..|Rest(message)|] == Rest(message)
    }

    /** abup_MD5_Init. */
    constructor ()
      ensures Valid() && message == [] && fresh(buffer)
    {
      lo, hi, words, message := 0, 0, INIT, [];
      buffer := new byte[64];
    }

    /** body: one or more 64-byte blocks. */
    method Body(data: seq<byte>)
      requires |data| > 0 && Aligned(|data|)
      modifies this`words
      ensures words == CompressAll(old(words), data)
    {
      hide Compress, Aligned;
      var ptr := 0;
      assert data[0..] == data;
      while ptr < |data|
        invariant 0 <= ptr <= |data| && Aligned(|data| - ptr)
        invariant CompressAll(words, data[ptr..]) == CompressAll(old(words), data)
      {
        OneBlockLess(|data| - ptr);
        assert data[ptr..][..64] == data[ptr..ptr + 64] && data[ptr..][64..] == data[ptr + 64..];
        words := Block(words, data[ptr..ptr + 64]);
        ptr := ptr + 64;
      }
    }

    /** memcpy into the buffer at `used`. */
    method CopyIn(used: nat, data: seq<byte>)
      requires used + |data| <= buffer.Length
      modifies buffer
      ensures buffer[..used + |data|] == old(buffer[..used]) + data
    {
      var k := 0;
      while k < |data|
        invariant 0 <= k <= |data|
        invariant buffer[..used + k] == old(buffer[..used]) + data[..k]
      {
        buffer[used + k] := data[k];
        k := k + 1;
      }
      assert data[..k] == data;
    }

    /** The whole blocks among the data. */
    method AbsorbBlocks(data: seq<byte>)
      requires Aligned(|message|) && Aligned(|message + Whole(data)|) && words == CompressAll(INIT, message)
      modifies this`words
      ensures words == CompressAll(INIT, message + Whole(data))
    {
      CutData(data);
      hide *;
      if |data| >= 64 {
        Body(data[..|Whole(data)|]);
        CompressAllAppend(INIT, message, Whole(data));
      } else {
        assert message + Whole(data) == message;
      }
    }

    /** The last part of abup_MD5_Update, once the buffer is empty. */
    method Absorb(data: seq<byte>)
      requires Aligned(|message|) && Hashed()
      modifies this`words, this`message, buffer
      ensures Hashed() && message == old(message) + data
    {
      hide CompressAll, Whole, Rest, Aligned, Counts;
      ContinuesAtBlock(message, data);
      CutData(data);
      AbsorbBlocks(data);
      CopyIn(0, data[|Whole(data)|..]);
      message := message + data;
      assert buffer[..|Rest(data)|] == Rest(data);
    }

    /** abup_MD5_Update: the fields now stand for the longer message. */
    method Update(data: seq<byte>)
      requires Valid() && |data| < 0x1_0000_0000
      modifies this, buffer
      ensures Valid() && message == old(message) + data
    {
      hide CompressAll, Whole, Rest, Aligned, Counts;
      var savedLo, size := lo, |data|;
      Count(size);
      var used := savedLo % 64;
      var data' := data;
      if used != 0 {
        var available := 64 - used;
        if size < available {
          StaysInBlock(message, data);
          CopyIn(used, data);
          message := message + data;
          return;
        }
        FillsBlock(message, data[..available]);
        CopyIn(used, data[..available]);
        data' := data[available..];
        assert buffer[..64] == buffer[..];
        Body(buffer[..]);
        message := message + data[..available];
        ContinuesAtBlock(message, []);
      } else {
        EmptyRest(message);
      }
      Absorb(data');
      assert message == old(message) + data;
    }

    /** The byte counters of abup_MD5_Update. */
    method Count(size: u32)
      requires Counts(hi, lo, |message|)
      modifies this`lo, this`hi
      ensures Counts(hi, lo, |message| + size)
      ensures old(lo) % 64 == |Rest(message)|
    {
      Split(message);
      CountAdds(hi, lo, |message|, size);
      UsedIsRest(hi, lo, |message|);
      var savedLo := lo;
      lo := (savedLo + size) % TWO29;
      hi := (hi + (if lo < savedLo then 1 else 0) + size / TWO29) % TWO32;
    }

    /** The last block of abup_MD5_Final: zeros from `used` on, then the length. */
    method LastBlock(used: nat)
      requires used <= 56 && buffer.Length == 64 && lo < TWO29
      modifies this`words, this`lo, buffer
      ensures words == CompressAll(old(words), BlockEnd(old(buffer[..used]), old(lo), hi))
    {
      hide CompressAll, LittleEndian;
      CopyIn(used, Zeros(56 - used));
      lo := 8 * lo % TWO32;
      CopyIn(56, LittleEndian(lo, 4));
      CopyIn(60, LittleEndian(hi, 4));
      assert buffer[..64] == buffer[..] == BlockEnd(old(buffer[..used]), old(lo), hi);
      Body(buffer[..]);
    }

    /** The padding of abup_MD5_Final, with the first `used` buffer bytes still to hash. */
    method PadAndHash(used0: nat)
      requires used0 < 64 && buffer.Length == 64 && lo < TWO29
      modifies this`words, this`lo, buffer
      ensures words == CompressAll(old(words), FinalBlocks(old(buffer[..used0]), old(lo), hi))
    {
      hide CompressAll, BlockEnd;
      ghost var r, w := buffer[..used0], words;
      var used := used0;
      CopyIn(used, [0x80]);
      used := used + 1;
      var available := 64 - used;
      if available < 8 {
        CopyIn(used, Zeros(available));
        assert buffer[..64] == buffer[..] == r + [0x80] + Zeros(63 - |r|);
        Body(buffer[..]);
        assert buffer[..0] == [];
        CompressAllAppend(w, r + [0x80] + Zeros(63 - |r|), BlockEnd([], lo, hi));
        used := 0;
      }
      LastBlock(used);
    }

    /** abup_MD5_Final: the digest of everything that was fed, and a wiped context. */
    method Final() returns (digest: seq<byte>)
      requires Valid()
      modifies this, buffer
      ensures digest == Digest(old(message))
      ensures lo == 0 && hi == 0 && words == Words(0, 0, 0, 0) && buffer[..] == Zeros(64)
    {
      LastBlocksParts(message, hi, lo);
      UsedIsRest(hi, lo, |message|);
      Split(message);
      LastBlocksHash(message);
      hide CompressAll, Digest, LastBlocks, FinalBlocks, Counts, Output;
      PadAndHash(lo % 64);
      digest := Output(words);
      lo, hi, words := 0, 0, Words(0, 0, 0, 0);
      CopyIn(0, Zeros(64));
      assert buffer[..64] == buffer[..];
    }
  }

  /** A last block: what is there, zeros, and the 64-bit count in bits. */
  function BlockEnd(start: seq<byte>, lo: u32, hi: u32): (b: seq<byte>)
    requires |start| <= 56
    ensures |b| == 64
  {
    start + Zeros(56 - |start|) + LittleEndian(8 * lo, 4) + LittleEndian(hi, 4)
  }

  /** One block if the length still fits behind the 0x80 byte, else two. */
  function FinalBlocks(r: seq<byte>, lo: u32, hi: u32): (b: seq<byte>)
    requires |r| < 64
    ensures |b| == 64 || |b| == 128
  {
    if |r| < 56 then BlockEnd(r + [0x80], lo, hi)
    else (r + [0x80] + Zeros(63 - |r|)) + BlockEnd([], lo, hi)
  }

  lemma CutData(data: seq<byte>)
    ensures var whole := |Whole(data)|;
            && whole <= |data| && data[..whole] == Whole(data) && data[whole..] == Rest(data)
            && (|data| < 64 ==> Whole(data) == []) && (|data| >= 64 ==> whole > 0)
  {}

  lemma EmptyRest(message: seq<byte>)
    requires |Rest(message)| == 0
    ensures Aligned(|message|)
  {}

  lemma UsedIsRest(hi: u32, lo: u32, length: nat)
    requires Counts(hi, lo, length)
    ensures lo % 64 == length % 64
  {
    var q := length / TWO61 * 0x80_0000_0000_0000 + hi * 0x80_0000 + lo / 64;
    assert length == q * 64 + lo % 64;
    ModUnique(length, 64, q, lo % 64);
  }

  /** The one or two blocks that abup_MD5_Final compresses. */
  function LastBlocks(message: seq<byte>): (b: seq<byte>)
  {
    Rest(message) + Padding(|message|)
  }

  lemma LastBlocksHash(message: seq<byte>)
    ensures Aligned(|LastBlocks(message)|)
    ensures Digest(message) == Output(CompressAll(CompressAll(INIT, Whole(message)), LastBlocks(message)))
  {
    Split(message);
    hide CompressAll, Padding, Output, Whole, Rest, Aligned;
    AlignedAdds(|Whole(message)|, |LastBlocks(message)|);
    assert message + Padding(|message|) == Whole(message) + LastBlocks(message);
    CompressAllAppend(INIT, Whole(message), LastBlocks(message));
  }

  lemma LastBlocksParts(message: seq<byte>, hi: u32, lo: u32)
    requires Counts(hi, lo, |message|)
    ensures LastBlocks(message) == FinalBlocks(Rest(message), lo, hi)
  {
    LengthBytes(hi, lo, |message|);
    Split(message);
    var r, n := Rest(message), PadZeros(|message|);
    PadZerosIs(|message|);
    assert LastBlocks(message) == r + ([0x80] + Zeros(n) + (LittleEndian(8 * lo, 4) + LittleEndian(hi, 4)));
    hide Rest, PadZeros, LittleEndian, Padding, LastBlocks, Counts;
    if |r| < 56 {
      OneBlock(r, LittleEndian(8 * lo, 4), LittleEndian(hi, 4));
    } else {
      TwoBlocks(r, LittleEndian(8 * lo, 4), LittleEndian(hi, 4));
    }
  }

  lemma PadZerosIs(length: nat)
    ensures PadZeros(length) == if length % 64 < 56 then 55 - length % 64 else 119 - length % 64
  {}

  lemma OneBlock(r: seq<byte>, lo: seq<byte>, hi: seq<byte>)
    requires |r| < 56
    ensures r + ([0x80] + Zeros(55 - |r|) + (lo + hi)) == (r + [0x80]) + Zeros(55 - |r|) + lo + hi
  {}

  lemma TwoBlocks(r: seq<byte>, lo: seq<byte>, hi: seq<byte>)
    requires 56 <= |r| < 64
    ensures r + ([0x80] + Zeros(119 - |r|) + (lo + hi)) == (r + [0x80] + Zeros(63 - |r|)) + ([] + Zeros(56) + lo + hi)
  {
    assert Zeros(119 - |r|) == Zeros(63 - |r|) + Zeros(56);
    hide Zeros;
    var z, y := Zeros(63 - |r|), Zeros(56);
    assert [] + y == y;
    assert r + ([0x80] + (z + y) + (lo + hi)) == (r + [0x80] + z) + (y + lo + hi);
  }

  // ----- chunking

  function Flatten(chunks: seq<seq<byte>>): (m: seq<byte>)
  {
    if chunks == [] then [] else Flatten(chunks[..|chunks| - 1]) + chunks[|chunks| - 1]
  }

  /** Any way of cutting a message into updates gives the digest of RFC 1321 for the whole message. */
  method HashChunks(chunks: seq<seq<byte>>) returns (digest: seq<byte>)
    requires forall i :: 0 <= i < |chunks| ==> |chunks[i]| < 0x1_0000_0000
    ensures digest == Digest(Flatten(chunks))
  {
    hide Digest, CompressAll;
    var ctx := new Context();
    for i := 0 to |chunks|
      invariant ctx.Valid() && fresh(ctx) && fresh(ctx.buffer)
      invariant ctx.message == Flatten(chunks[..i])
    {
      ctx.Update(chunks[i]);
      assert chunks[..i + 1][..i] == chunks[..i];
    }
    assert chunks[..|chunks|] == chunks;
    digest := ctx.Final();
  }

  /** The 512-byte loop of abup_http.c: the digest of the whole downloaded region. */
  method HashRegion(region: seq<byte>, size: nat) returns (digest: seq<byte>)
    requires size <= |region|
    ensures digest == Digest(region[..size])
  {
    hide Digest, CompressAll;
    var ctx := new Context();
    var i, total := 0, size;
    while total > 0
      invariant 0 <= total <= size
      invariant total > 0 ==> 512 * i + total == size
      invariant ctx.Valid() && fresh(ctx) && fresh(ctx.buffer)
      invariant ctx.message == region[..size - total]
      decreases total
    {
      if total > 512 {
        ctx.Update(region[512 * i..512 * i + 512]);
        i := i + 1;
        total := total - 512;
      } else {
        ctx.Update(region[512 * i..512 * i + total]);
        total := 0;
      }
    }
    digest := ctx.Final();
  }
}
