/** Any sequence of packets of any size, from a fresh context: what the whole stream decides and leaves. */
module FirmwareStream {
  import opened Bytes
  import opened NorFlash
  import opened Firmware

  /** Every packet can be handed over: its size and that of the region fit one 32-bit address space. */
  predicate AllAddressable(maxLen: u32, chunks: seq<seq<cell>>)
  {
    forall i :: 0 <= i < |chunks| ==> |chunks[i]| + maxLen < 0x1_0000_0000
  }

  function Concat(chunks: seq<seq<cell>>): (stream: seq<cell>)
  {
    if chunks == [] then [] else Concat(chunks[..|chunks| - 1]) + chunks[|chunks| - 1]
  }

  /** The packets in order, up to the first that is not accepted; `ok` says that all were. */
  function Feed(base: int, maxLen: u32, f0: Flash, chunks: seq<seq<cell>>, version: VersionCheck): (r: Outcome)
    requires AllAddressable(maxLen, chunks)
    ensures Valid(r.ota) && r.ota.maxLen == maxLen
  {
    if chunks == [] then Outcome(Init(base, maxLen), f0, true)
    else
      var before := Feed(base, maxLen, f0, chunks[..|chunks| - 1], version);
      if !before.ok then before else Process(before.ota, before.flash, chunks[|chunks| - 1], version)
  }

  /** The whole stream fits the region, and if it is long enough to have a header, the checks accept it. */
  predicate Acceptable(base: int, maxLen: u32, stream: seq<cell>, version: VersionCheck)
  {
    && |stream| <= maxLen
    && (|stream| >= HEADER ==>
          var head := stream[..HEADER];
          Magic(head) == MAGIC_NUM && version(head) && PacketBase(head) >= base)
  }

  /** If all packets are accepted, flash, header, HMAC input and byte count are those of the concatenated stream. */
  lemma {:induction false} StreamIsAccepted(base: int, maxLen: u32, f0: Flash, chunks: seq<seq<cell>>, version: VersionCheck)
    requires AllAddressable(maxLen, chunks)
    ensures var r := Feed(base, maxLen, f0, chunks, version);
            r.ok ==> Accepted(r.ota, r.flash, f0, Concat(chunks), base, version)
  {
    if chunks != [] {
      var before, last := chunks[..|chunks| - 1], chunks[|chunks| - 1];
      StreamIsAccepted(base, maxLen, f0, before, version);
      var r := Feed(base, maxLen, f0, before, version);
      hide Accepted, Process;
      if r.ok {
        ProcessExtends(r.ota, r.flash, f0, Concat(before), base, last, version);
      }
    } else {
      assert [] + Blank(HEADER) == Blank(HEADER);
    }
  }

  /** A packet behind an accepted stream is accepted exactly when the longer stream is acceptable. */
  lemma PacketDecides(o: Ota, f: Flash, f0: Flash, stream: seq<cell>, base: int, data: seq<cell>, version: VersionCheck)
    requires Accepted(o, f, f0, stream, base, version) && Addressable(o, data)
    ensures Process(o, f, data, version).ok <==> Acceptable(base, o.maxLen, stream + data, version)
  {
    hide Holds, Magic, PacketBase, Write, Erase;
    var whole := stream + data;
    if |whole| >= HEADER {
      if |stream| < HEADER {
        var need := HEADER - |stream|;
        assert Overlay(o.head, o.recv, data[..need]) == whole[..HEADER];
      } else {
        assert whole[..HEADER] == stream[..HEADER];
      }
    }
  }

  /** A stream with an unacceptable beginning is unacceptable. */
  lemma PrefixDecides(base: int, maxLen: u32, stream: seq<cell>, data: seq<cell>, version: VersionCheck)
    requires Acceptable(base, maxLen, stream + data, version)
    ensures Acceptable(base, maxLen, stream, version)
  {
    hide Magic, PacketBase;
    if |stream| >= HEADER {
      assert (stream + data)[..HEADER] == stream[..HEADER];
    }
  }

  /** All packets are accepted exactly when their concatenation is acceptable, so the cutting does not matter. */
  lemma {:induction false} AcceptedIff(base: int, maxLen: u32, f0: Flash, chunks: seq<seq<cell>>, version: VersionCheck)
    requires AllAddressable(maxLen, chunks)
    ensures Feed(base, maxLen, f0, chunks, version).ok <==> Acceptable(base, maxLen, Concat(chunks), version)
  {
    if chunks != [] {
      var before, last := chunks[..|chunks| - 1], chunks[|chunks| - 1];
      AcceptedIff(base, maxLen, f0, before, version);
      StreamIsAccepted(base, maxLen, f0, before, version);
      var r := Feed(base, maxLen, f0, before, version);
      hide Accepted, Process, Acceptable;
      if r.ok {
        PacketDecides(r.ota, r.flash, f0, Concat(before), base, last, version);
      } else if Acceptable(base, maxLen, Concat(chunks), version) {
        PrefixDecides(base, maxLen, Concat(before), last, version);
      }
    }
  }

  /** Two cuttings of one stream: both are accepted or neither is, and if they are, context and flash are the same. */
  lemma CuttingIsIrrelevant(base: int, maxLen: u32, f0: Flash, a: seq<seq<cell>>, b: seq<seq<cell>>, version: VersionCheck)
    requires AllAddressable(maxLen, a) && AllAddressable(maxLen, b) && Concat(a) == Concat(b)
    ensures var r, s := Feed(base, maxLen, f0, a, version), Feed(base, maxLen, f0, b, version);
            && r.ok == s.ok
            && (r.ok ==> r.ota == s.ota && forall x :: r.flash(x) == s.flash(x))
  {
    AcceptedIff(base, maxLen, f0, a, version);
    AcceptedIff(base, maxLen, f0, b, version);
    StreamIsAccepted(base, maxLen, f0, a, version);
    StreamIsAccepted(base, maxLen, f0, b, version);
    hide Feed, Magic, PacketBase, Acceptable;
  }

  // ----- outside the reserved region

  /** No cell outside the reserved region differs from what was there before. */
  ghost predicate StaysInside(base: int, maxLen: u32, f0: Flash, chunks: seq<seq<cell>>, version: VersionCheck)
    requires AllAddressable(maxLen, chunks)
  {
    forall x :: x < base || x >= base + maxLen ==> Feed(base, maxLen, f0, chunks, version).flash(x) == f0(x)
  }

  /** The packets in front of the first that is refused. */
  function Taken(base: int, maxLen: u32, chunks: seq<seq<cell>>, version: VersionCheck): (taken: seq<seq<cell>>)
    ensures AllAddressable(maxLen, chunks) ==> AllAddressable(maxLen, taken)
    ensures Acceptable(base, maxLen, Concat(taken), version)
  {
    if chunks == [] || Acceptable(base, maxLen, Concat(chunks), version) then chunks
    else Taken(base, maxLen, chunks[..|chunks| - 1], version)
  }

  /** A refused packet leaves the flash as it was. */
  lemma {:induction false} RefusedWritesNothing(base: int, maxLen: u32, f0: Flash, chunks: seq<seq<cell>>, version: VersionCheck)
    requires AllAddressable(maxLen, chunks)
    ensures Feed(base, maxLen, f0, chunks, version).flash ==
            Feed(base, maxLen, f0, Taken(base, maxLen, chunks, version), version).flash
  {
    hide Acceptable, Accepted, Process;
    if chunks != [] && !Acceptable(base, maxLen, Concat(chunks), version) {
      var before, last := chunks[..|chunks| - 1], chunks[|chunks| - 1];
      RefusedWritesNothing(base, maxLen, f0, before, version);
      AcceptedIff(base, maxLen, f0, chunks, version);
      AcceptedIff(base, maxLen, f0, before, version);
      StreamIsAccepted(base, maxLen, f0, before, version);
      var r := Feed(base, maxLen, f0, before, version);
      if r.ok {
        ProcessExtends(r.ota, r.flash, f0, Concat(before), base, last, version);
      }
    }
  }

  /** The writer stays inside the reserved region, whatever the flash held, exactly when the packets that were taken have no
      complete header or it names the start of the region. A later packet base is accepted, and then the cells behind the
      region are erased as well. */
  lemma StaysInsideIff(base: int, maxLen: u32, chunks: seq<seq<cell>>, version: VersionCheck)
    requires AllAddressable(maxLen, chunks)
    ensures var stream := Concat(Taken(base, maxLen, chunks, version));
            (forall f0: Flash :: StaysInside(base, maxLen, f0, chunks, version))
            <==> |stream| < HEADER || PacketBase(stream[..HEADER]) == base
  {
    var taken := Taken(base, maxLen, chunks, version);
    hide StaysInside, Acceptable, PacketBase, Concat;
    AcceptableStaysInsideIff(base, maxLen, taken, version);
    forall f0: Flash
      ensures StaysInside(base, maxLen, f0, chunks, version) <==> StaysInside(base, maxLen, f0, taken, version)
    {
      RefusedWritesNothing(base, maxLen, f0, chunks, version);
      SameFlashSameRegion(base, maxLen, f0, chunks, taken, version);
    }
  }

  lemma SameFlashSameRegion(base: int, maxLen: u32, f0: Flash, a: seq<seq<cell>>, b: seq<seq<cell>>, version: VersionCheck)
    requires AllAddressable(maxLen, a) && AllAddressable(maxLen, b)
    requires Feed(base, maxLen, f0, a, version).flash == Feed(base, maxLen, f0, b, version).flash
    ensures StaysInside(base, maxLen, f0, a, version) <==> StaysInside(base, maxLen, f0, b, version)
  {
    hide Feed;
  }

  lemma AcceptableStaysInsideIff(base: int, maxLen: u32, chunks: seq<seq<cell>>, version: VersionCheck)
    requires AllAddressable(maxLen, chunks) && Acceptable(base, maxLen, Concat(chunks), version)
    ensures (forall f0: Flash :: StaysInside(base, maxLen, f0, chunks, version))
            <==> |Concat(chunks)| < HEADER || PacketBase(Concat(chunks)[..HEADER]) == base
  {
    hide StaysInside, Acceptable, PacketBase;
    if |Concat(chunks)| < HEADER || PacketBase(Concat(chunks)[..HEADER]) == base {
      forall f0: Flash
        ensures StaysInside(base, maxLen, f0, chunks, version)
      {
        Inside(base, maxLen, f0, chunks, version);
      }
    } else {
      var f0 := Outside(base, maxLen, chunks, version);
    }
  }

  /** What the flash holds after an acceptable stream. */
  lemma FinalFlash(base: int, maxLen: u32, f0: Flash, chunks: seq<seq<cell>>, version: VersionCheck)
    requires AllAddressable(maxLen, chunks) && Acceptable(base, maxLen, Concat(chunks), version)
    ensures var stream, f := Concat(chunks), Feed(base, maxLen, f0, chunks, version).flash;
            if |stream| < HEADER then f == f0
            else PacketBase(stream[..HEADER]) >= base
                 && Holds(f, f0, PacketBase(stream[..HEADER]), maxLen, stream)
  {
    AcceptedIff(base, maxLen, f0, chunks, version);
    StreamIsAccepted(base, maxLen, f0, chunks, version);
    hide Feed, Magic, PacketBase, Holds, Concat;
  }

  lemma Inside(base: int, maxLen: u32, f0: Flash, chunks: seq<seq<cell>>, version: VersionCheck)
    requires AllAddressable(maxLen, chunks) && Acceptable(base, maxLen, Concat(chunks), version)
    requires |Concat(chunks)| < HEADER || PacketBase(Concat(chunks)[..HEADER]) == base
    ensures StaysInside(base, maxLen, f0, chunks, version)
  {
    FinalFlash(base, maxLen, f0, chunks, version);
    hide Feed, Acceptable, PacketBase, Concat, Holds;
    var f := Feed(base, maxLen, f0, chunks, version).flash;
    if |Concat(chunks)| >= HEADER {
      OutsideIsUntouched(f, f0, base, maxLen, Concat(chunks));
    }
  }

  /** The last erased cell lies behind the region and changes if the flash held something else there. */
  lemma Outside(base: int, maxLen: u32, chunks: seq<seq<cell>>, version: VersionCheck) returns (f0: Flash)
    requires AllAddressable(maxLen, chunks) && Acceptable(base, maxLen, Concat(chunks), version)
    requires |Concat(chunks)| >= HEADER && PacketBase(Concat(chunks)[..HEADER]) != base
    ensures !StaysInside(base, maxLen, f0, chunks, version)
  {
    hide Feed, Acceptable, PacketBase, Concat, Holds, StaysInside, AllAddressable;
    var stream := Concat(chunks);
    var at := PacketBase(stream[..HEADER]);
    var last: cell := if |stream| == maxLen then stream[|stream| - 1] else 0xFF;
    f0 := y => !last;
    FinalFlash(base, maxLen, f0, chunks, version);
    Complement(last);
    HoldsLast(Feed(base, maxLen, f0, chunks, version).flash, f0, at, maxLen, stream, last);
    LeavesRegion(base, maxLen, f0, chunks, version, at + maxLen - 1);
  }

  lemma LeavesRegion(base: int, maxLen: u32, f0: Flash, chunks: seq<seq<cell>>, version: VersionCheck, x: int)
    requires AllAddressable(maxLen, chunks) && x >= base + maxLen
    requires Feed(base, maxLen, f0, chunks, version).flash(x) != f0(x)
    ensures !StaysInside(base, maxLen, f0, chunks, version)
  {
    hide Feed;
  }

  lemma HoldsLast(f: Flash, f0: Flash, at: int, maxLen: nat, stream: seq<cell>, last: cell)
    requires Holds(f, f0, at, maxLen, stream) && stream != []
    requires last == if |stream| == maxLen then stream[|stream| - 1] else 0xFF
    ensures f(at + maxLen - 1) == last
  {
    assert f(at + maxLen - 1) == Cell(f0, at, maxLen, stream, at + maxLen - 1);
  }

  lemma Complement(b: cell)
    ensures !b != b
  {}
}
