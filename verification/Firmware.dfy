/** The firmware stream of xy_fota.c: header assembly, flash writes and what the HMAC sees. */
module Firmware {
  import opened Bytes
  import opened NorFlash

  // ----- the packet header

  const HEADER := 164
  const UNSIGNED := 84
  const MAGIC_NUM := 3513

  function LittleEndian32(b: seq<cell>): (v: int)
    requires |b| == 4
  {
    b[0] as int + 0x100 * (b[1] as int) + 0x1_0000 * (b[2] as int) + 0x100_0000 * (b[3] as int)
  }

  function Magic(head: seq<cell>): (v: int)
    requires |head| == HEADER
  {
    LittleEndian32(head[..4])
  }

  function PacketBase(head: seq<cell>): (v: int)
    requires |head| == HEADER
  {
    LittleEndian32(head[148..152])
  }

  /** Where the two fields are that decide: a magic number at the front and the packet base at byte 148, low byte first. */
  lemma HeaderFields(head: seq<cell>)
    requires |head| == 164
    ensures Magic(head) == head[0] as int + 256 * (head[1] as int) + 65536 * (head[2] as int) + 16777216 * (head[3] as int)
    ensures PacketBase(head) ==
            head[148] as int + 256 * (head[149] as int) + 65536 * (head[150] as int) + 16777216 * (head[151] as int)
  {
    assert head[148..152][0] == head[148] && head[148..152][1] == head[149];
    assert head[148..152][2] == head[150] && head[148..152][3] == head[151];
  }

  /** `head` is the header as received so far, `fed` what the HMAC has been given. */
  datatype Ota = Ota(flashBase: int, maxLen: u32, recv: u32, head: seq<cell>, fed: seq<cell>)

  /** The version check compares the header with the running image. */
  type VersionCheck = seq<cell> -> bool

  predicate HeaderAccepted(o: Ota, head: seq<cell>, version: VersionCheck)
    requires |head| == HEADER
  {
    Magic(head) == MAGIC_NUM && version(head) && PacketBase(head) >= o.flashBase
  }

  function Overlay(b: seq<cell>, at: nat, data: seq<cell>): (r: seq<cell>)
    requires at + |data| <= |b|
    ensures |r| == |b|
  {
    b[..at] + data + b[at + |data|..]
  }

  predicate Valid(o: Ota)
  {
    |o.head| == HEADER && o.recv <= o.maxLen
  }

  /** The packet buffer and the flash region are disjoint parts of one 32-bit address space,
      so the sums of their sizes do not wrap. */
  predicate Addressable(o: Ota, data: seq<cell>)
  {
    |data| + o.maxLen < 0x1_0000_0000
  }

  datatype Outcome = Outcome(ota: Ota, flash: Flash, ok: bool)

  /** Storing payload once the header is complete: the region is erased when exactly the header has been received. */
  function Store(o: Ota, f: Flash, input: seq<cell>): (r: Outcome)
    requires Valid(o) && o.recv + |input| <= o.maxLen
  {
    var o' := o.(recv := o.recv + |input|, fed := o.fed + input);
    if o.recv == HEADER then
      var f1 := Write(Erase(f, o.flashBase, o.maxLen), o.flashBase, o.head);
      Outcome(o', if input == [] then f1 else Write(f1, o.flashBase + HEADER, input), true)
    else Outcome(o', Write(f, o.flashBase + o.recv, input), true)
  }

  /** ota_downlink_packet_proc. */
  function Process(o: Ota, f: Flash, data: seq<cell>, version: VersionCheck): (r: Outcome)
    requires Valid(o) && Addressable(o, data)
    ensures Valid(r.ota) && r.ota.maxLen == o.maxLen
  {
    var total := o.recv + |data|;
    if total > o.maxLen then Outcome(o, f, false)
    else if total < HEADER then Outcome(o.(head := Overlay(o.head, o.recv, data), recv := total), f, true)
    else if o.recv < HEADER then
      var need := HEADER - o.recv;
      var head := Overlay(o.head, o.recv, data[..need]);
      var o1 := o.(head := head, recv := HEADER);
      if !HeaderAccepted(o, head, version) then Outcome(o1, f, false)
      else Store(o1.(flashBase := PacketBase(head), fed := o.fed + head[UNSIGNED..]), f, data[need..])
    else Store(o, f, data)
  }

  /** ota_update_Init: a zeroed header and nothing received. */
  function Init(flashBase: int, maxLen: u32): (o: Ota)
    ensures Valid(o)
  {
    Ota(flashBase, maxLen, 0, Blank(HEADER), [])
  }

  function Blank(n: nat): (b: seq<cell>)
    ensures |b| == n
  {
    seq(n, _ => 0)
  }

  // ----- what a context means

  /** The cell at x when the region at `base` holds the stream followed by erased cells, and the rest is as in f0. */
  function Cell(f0: Flash, base: int, maxLen: nat, stream: seq<cell>, x: int): (b: cell)
  {
    if base <= x < base + |stream| then stream[x - base]
    else if base <= x < base + maxLen then 0xFF
    else f0(x)
  }

  /** The region at `base` holds exactly the stream, followed by erased cells; nothing outside it was touched. */
  ghost predicate Holds(f: Flash, f0: Flash, base: int, maxLen: nat, stream: seq<cell>)
  {
    |stream| <= maxLen && forall x :: f(x) == Cell(f0, base, maxLen, stream, x)
  }

  /** After the stream was accepted: while it is shorter than the header nothing but the header buffer has changed;
      from then on the flash holds it, and the HMAC has seen it from byte 84 on. */
  ghost predicate Accepted(o: Ota, f: Flash, f0: Flash, stream: seq<cell>, base0: int, version: VersionCheck)
  {
    && Valid(o) && o.recv == |stream|
    && if |stream| < HEADER then
         o.flashBase == base0 && o.head == stream + Blank(HEADER - |stream|) && o.fed == [] && f == f0
       else
         && o.head == stream[..HEADER] && o.fed == stream[UNSIGNED..]
         && Magic(o.head) == MAGIC_NUM && version(o.head) && PacketBase(o.head) >= base0
         && o.flashBase == PacketBase(o.head)
         && Holds(f, f0, o.flashBase, o.maxLen, stream)
  }

  /** Writing behind the stream appends to it, because the cells there are erased. */
  lemma WriteHolds(f: Flash, f0: Flash, base: int, maxLen: nat, stream: seq<cell>, data: seq<cell>)
    requires Holds(f, f0, base, maxLen, stream) && |stream| + |data| <= maxLen
    ensures Holds(Write(f, base + |stream|, data), f0, base, maxLen, stream + data)
  {
    var f' := Write(f, base + |stream|, data);
    forall x
      ensures f'(x) == Cell(f0, base, maxLen, stream + data, x)
    {
      if base + |stream| <= x < base + |stream| + |data| {
        MaskIsIdentity(data[x - base - |stream|]);
      }
    }
  }

  lemma OutsideIsUntouched(f: Flash, f0: Flash, base: int, maxLen: nat, stream: seq<cell>)
    requires Holds(f, f0, base, maxLen, stream)
    ensures forall x :: x < base || x >= base + maxLen ==> f(x) == f0(x)
  {}

  /** Erasing the region makes it hold the empty stream. */
  lemma EraseHolds(f: Flash, f0: Flash, base: int, maxLen: nat)
    requires forall x :: x < base || x >= base + maxLen ==> f(x) == f0(x)
    ensures Holds(Erase(f, base, maxLen), f0, base, maxLen, [])
  {}

  /** The first store after the header, whatever was in the region before. */
  lemma FirstStoreHolds(o: Ota, f: Flash, f0: Flash, input: seq<cell>)
    requires Valid(o) && o.recv == HEADER && HEADER + |input| <= o.maxLen
    requires forall x :: x < o.flashBase || x >= o.flashBase + o.maxLen ==> f(x) == f0(x)
    ensures Holds(Store(o, f, input).flash, f0, o.flashBase, o.maxLen, o.head + input)
  {
    hide Holds;
    var base := o.flashBase;
    EraseHolds(f, f0, base, o.maxLen);
    var f1 := Erase(f, base, o.maxLen);
    WriteHolds(f1, f0, base, o.maxLen, [], o.head);
    assert [] + o.head == o.head;
    var f2 := Write(f1, base, o.head);
    WriteHolds(f2, f0, base, o.maxLen, o.head, input);
    assert input == [] ==> o.head + input == o.head;
  }

  /** An accepted call extends the stream; a refused one either changes nothing or was stopped by the header. */
  lemma ProcessExtends(o: Ota, f: Flash, f0: Flash, stream: seq<cell>, base0: int, data: seq<cell>, version: VersionCheck)
    requires Accepted(o, f, f0, stream, base0, version) && Addressable(o, data)
    ensures var r := Process(o, f, data, version);
            if r.ok then Accepted(r.ota, r.flash, f0, stream + data, base0, version)
            else r.flash == f && (r.ota == o || (|stream| < HEADER && r.ota.recv == HEADER && r.ota.fed == o.fed))
  {
    var r := Process(o, f, data, version);
    if r.ok {
      if |stream| + |data| < HEADER {
        assert r.ota.head == (stream + data) + Blank(HEADER - |stream| - |data|);
      } else if |stream| < HEADER {
        CompletingExtends(o, f, f0, stream, base0, data, version);
      } else {
        StoringExtends(o, f, f0, stream, base0, data, version);
      }
    }
  }

  lemma CompletingExtends(o: Ota, f: Flash, f0: Flash, stream: seq<cell>, base0: int, data: seq<cell>, version: VersionCheck)
    requires Accepted(o, f, f0, stream, base0, version) && Addressable(o, data)
    requires |stream| < HEADER <= |stream| + |data| && Process(o, f, data, version).ok
    ensures var r := Process(o, f, data, version); Accepted(r.ota, r.flash, f0, stream + data, base0, version)
  {
    hide Magic, PacketBase, Holds, Write, Erase, Cell;
    var need := HEADER - |stream|;
    var head := Overlay(o.head, o.recv, data[..need]);
    var input := data[need..];
    assert head == stream + data[..need];
    assert stream + data == head + input;
    assert (stream + data)[..HEADER] == head && head[UNSIGNED..] + input == (stream + data)[UNSIGNED..];
    var o1 := o.(head := head, recv := HEADER, flashBase := PacketBase(head), fed := o.fed + head[UNSIGNED..]);
    FirstStoreHolds(o1, f, f0, input);
    assert o1.fed + input == (stream + data)[UNSIGNED..];
  }

  lemma StoringExtends(o: Ota, f: Flash, f0: Flash, stream: seq<cell>, base0: int, data: seq<cell>, version: VersionCheck)
    requires Accepted(o, f, f0, stream, base0, version) && Addressable(o, data)
    requires HEADER <= |stream| && Process(o, f, data, version).ok
    ensures var r := Process(o, f, data, version); Accepted(r.ota, r.flash, f0, stream + data, base0, version)
  {
    hide Magic, PacketBase, Holds, Write, Erase, Cell;
    OutsideIsUntouched(f, f0, o.flashBase, o.maxLen, stream);
    assert (stream + data)[..HEADER] == stream[..HEADER];
    assert stream[UNSIGNED..] + data == (stream + data)[UNSIGNED..];
    if |stream| == HEADER {
      assert o.head == stream;
      FirstStoreHolds(o, f, f0, data);
    } else {
      WriteHolds(f, f0, o.flashBase, o.maxLen, stream, data);
    }
  }
}
