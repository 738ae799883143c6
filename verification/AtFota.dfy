/** The AT+NFWUPD command machine of at_fota.c on top of the firmware stream. */
module AtFota {
  import opened Bytes
  import opened NorFlash
  import opened Firmware

  datatype Status = Idle | Downing | Downed | Updating

  /** What stays outside: the flash region, the version check and the signature check of ota_delta_check_sync,
      which looks at the bytes given to the HMAC and at the header. */
  datatype Device = Device(base: int, maxLen: u32, version: VersionCheck, genuine: (seq<cell>, seq<cell>) -> bool)
  {
    predicate Valid() {
      maxLen + 512 < 0x1_0000_0000
    }
  }

  /** The static variables of the file and the flash. */
  datatype Machine = Machine(status: Status, blockNum: nat, ota: Ota, flash: Flash)

  /** The parameters of a download command: whether they parse, and what the two hex strings decode to. */
  datatype Download = Download(parses: bool, sn: int, len: int, textLength: nat,
                               bytes: Option<seq<cell>>, crc: Option<cell>)

  datatype Command = EraseFlash | Down(download: Download) | Check | Update | Unknown

  function Sum(data: seq<cell>): (x: cell)
  {
    if data == [] then 0 else Sum(data[..|data| - 1]) ^ data[|data| - 1]
  }

  /** The checksum is the exclusive or of all bytes, however they are grouped. */
  lemma {:induction false} SumOfParts(a: seq<cell>, b: seq<cell>, x: cell)
    ensures Sum([x]) == x && Sum(a + b) == Sum(a) ^ Sum(b)
    decreases |b|
  {
    XorFacts(0, x, 0);
    assert [x][..0] == [];
    if b == [] {
      assert a + b == a;
      XorFacts(Sum(a), 0, 0);
    } else {
      var c, y := b[..|b| - 1], b[|b| - 1];
      assert (a + b)[..|a + b| - 1] == a + c;
      SumOfParts(a, c, x);
      XorFacts(Sum(a), Sum(c), y);
    }
  }

  lemma XorFacts(x: cell, y: cell, z: cell)
    ensures (x ^ y) ^ z == x ^ (y ^ z) && 0 ^ y == y && x ^ 0 == x
  {}

  /** The checks of at_fota_downing before the packet is processed. */
  predicate WellFormed(m: Machine, d: Download)
  {
    && m.status.Downing? && d.parses && d.sn == m.blockNum
    && 0 < d.len <= 512 && d.textLength == 2 * d.len
    && d.bytes.Some? && |d.bytes.value| == d.len
    && d.crc.Some? && Sum(d.bytes.value) == d.crc.value
  }

  /** One command: the new machine, and whether the reply is OK. */
  function Next(dev: Device, m: Machine, c: Command): (r: (Machine, bool))
    requires dev.Valid() && Valid(m.ota) && m.ota.maxLen == dev.maxLen
    ensures Valid(r.0.ota) && r.0.ota.maxLen == dev.maxLen
  {
    match c
    case EraseFlash => (Machine(Downing, 0, Init(dev.base, dev.maxLen), m.flash), true)
    case Down(d) =>
      if !WellFormed(m, d) then (m, false)
      else
        var r := Process(m.ota, m.flash, d.bytes.value, dev.version);
        var m' := m.(ota := r.ota, flash := r.flash);
        if r.ok then (m'.(blockNum := m.blockNum + 1), true) else (m', false)
    case Check =>
      if !m.status.Downing? || m.blockNum == 0 || !dev.genuine(m.ota.fed, m.ota.head) then (m, false)
      else (m.(status := Downed), true)
    case Update => if !m.status.Downed? then (m, false) else (m.(status := Updating), true)
    case Unknown => (m, false)
  }

  function Run(dev: Device, f0: Flash, cs: seq<Command>): (m: Machine)
    requires dev.Valid()
    ensures Valid(m.ota) && m.ota.maxLen == dev.maxLen
  {
    if cs == [] then Machine(Idle, 0, Init(dev.base, dev.maxLen), f0)
    else Next(dev, Run(dev, f0, cs[..|cs| - 1]), cs[|cs| - 1]).0
  }

  // ----- history since the last erase command

  /** The numbers and contents of the blocks accepted since the last erase. */
  function Blocks(dev: Device, f0: Flash, cs: seq<Command>): (bs: seq<(int, seq<cell>)>)
    requires dev.Valid()
  {
    if cs == [] then []
    else
      var before, c := cs[..|cs| - 1], cs[|cs| - 1];
      if c.EraseFlash? then []
      else if c.Down? && c.download.bytes.Some? && Next(dev, Run(dev, f0, before), c).1
      then Blocks(dev, f0, before) + [(c.download.sn, c.download.bytes.value)]
      else Blocks(dev, f0, before)
  }

  function Contents(bs: seq<(int, seq<cell>)>): (data: seq<cell>)
  {
    if bs == [] then [] else Contents(bs[..|bs| - 1]) + bs[|bs| - 1].1
  }

  /** The flash when the last erase command came. */
  function FlashAtErase(dev: Device, f0: Flash, cs: seq<Command>): (f: Flash)
    requires dev.Valid()
  {
    if cs == [] then f0
    else
      var before := cs[..|cs| - 1];
      if cs[|cs| - 1].EraseFlash? then Run(dev, f0, before).flash else FlashAtErase(dev, f0, before)
  }

  /** Since the last erase, some block completed the header and was refused because of it. */
  predicate HeaderRefused(dev: Device, f0: Flash, cs: seq<Command>)
    requires dev.Valid()
  {
    if cs == [] then false
    else
      var before, c := cs[..|cs| - 1], cs[|cs| - 1];
      var m := Run(dev, f0, before);
      if c.EraseFlash? then false
      else HeaderRefused(dev, f0, before) || (c.Down? && RefusesHeader(dev, m, c.download))
  }

  /** The guard that fails: a well-formed block that completes a header which the checks reject. */
  predicate RefusesHeader(dev: Device, m: Machine, d: Download)
    requires Valid(m.ota) && m.ota.maxLen == dev.maxLen
  {
    && WellFormed(m, d) && m.ota.recv < HEADER <= m.ota.recv + d.len <= m.ota.maxLen
    && !HeaderAccepted(m.ota, Overlay(m.ota.head, m.ota.recv, d.bytes.value[..HEADER - m.ota.recv]), dev.version)
  }

  /** The blocks accepted after the header was refused. */
  function Later(dev: Device, f0: Flash, cs: seq<Command>): (bs: seq<(int, seq<cell>)>)
    requires dev.Valid()
  {
    if cs == [] then []
    else
      var before, c := cs[..|cs| - 1], cs[|cs| - 1];
      if c.EraseFlash? || !HeaderRefused(dev, f0, before) then []
      else if c.Down? && c.download.bytes.Some? && Next(dev, Run(dev, f0, before), c).1
      then Later(dev, f0, before) + [(c.download.sn, c.download.bytes.value)]
      else Later(dev, f0, before)
  }

  ghost predicate InOrder(bs: seq<(int, seq<cell>)>)
  {
    forall i :: 0 <= i < |bs| ==> bs[i].0 == i
  }

  /** After a header was refused: it stays in the context and counts as received, the later blocks are stored behind it at
      the start of the reserved region as if it had been accepted, and the HMAC has seen the later blocks alone. */
  ghost predicate Refused(dev: Device, m: Machine, bs: seq<(int, seq<cell>)>, later: seq<(int, seq<cell>)>, f0: Flash)
  {
    && |later| <= |bs|
    && var earlier := Contents(bs[..|bs| - |later|]);
    && |m.ota.head| == HEADER && |earlier| < HEADER && earlier <= m.ota.head
    && Contents(bs) == earlier + Contents(later)
    && m.ota.flashBase == dev.base && !HeaderAccepted(m.ota, m.ota.head, dev.version)
    && m.ota.recv == HEADER + |Contents(later)| && m.ota.fed == Contents(later)
    && (Contents(later) == [] ==> m.flash == f0)
    && (Contents(later) != [] ==> Holds(m.flash, f0, dev.base, dev.maxLen, m.ota.head + Contents(later)))
  }

  /** What every command keeps. */
  ghost predicate Inv(dev: Device, m: Machine, bs: seq<(int, seq<cell>)>, later: seq<(int, seq<cell>)>, f0: Flash,
                      refused: bool)
  {
    && Valid(m.ota) && m.ota.maxLen == dev.maxLen
    && |bs| == m.blockNum && InOrder(bs)
    && (m.status.Downed? || m.status.Updating? ==> m.blockNum >= 1 && dev.genuine(m.ota.fed, m.ota.head))
    && (if refused then Refused(dev, m, bs, later, f0)
        else later == [] && Accepted(m.ota, m.flash, f0, Contents(bs), dev.base, dev.version))
  }

  lemma InitAccepted(dev: Device, f: Flash)
    ensures Accepted(Init(dev.base, dev.maxLen), f, f, [], dev.base, dev.version)
  {
    assert [] + Blank(HEADER) == Blank(HEADER);
  }

  lemma {:induction false} RunKeeps(dev: Device, f0: Flash, cs: seq<Command>)
    requires dev.Valid()
    ensures Inv(dev, Run(dev, f0, cs), Blocks(dev, f0, cs), Later(dev, f0, cs), FlashAtErase(dev, f0, cs),
                HeaderRefused(dev, f0, cs))
  {
    if cs == [] {
      InitAccepted(dev, f0);
    } else {
      var before, c := cs[..|cs| - 1], cs[|cs| - 1];
      RunKeeps(dev, f0, before);
      var m := Run(dev, f0, before);
      if c.EraseFlash? {
        InitAccepted(dev, m.flash);
      } else if c.Down? && WellFormed(m, c.download) {
        hide Accepted, Refused, Process;
        DownKeeps(dev, m, Blocks(dev, f0, before), Later(dev, f0, before), FlashAtErase(dev, f0, before),
                  HeaderRefused(dev, f0, before), c.download);
      } else {
        hide Accepted, Process, Holds;
        assert Refused(dev, m, Blocks(dev, f0, before), Later(dev, f0, before), FlashAtErase(dev, f0, before)) ==>
          Refused(dev, Next(dev, m, c).0, Blocks(dev, f0, before), Later(dev, f0, before), FlashAtErase(dev, f0, before));
      }
    }
  }

  lemma DownKeeps(dev: Device, m: Machine, bs: seq<(int, seq<cell>)>, later: seq<(int, seq<cell>)>, f0: Flash,
                  refused: bool, d: Download)
    requires dev.Valid() && Inv(dev, m, bs, later, f0, refused) && WellFormed(m, d)
    ensures var (m', ok) := Next(dev, m, Down(d));
            var block := (d.sn, d.bytes.value);
            Inv(dev, m', if ok then bs + [block] else bs, if ok && refused then later + [block] else later, f0,
                refused || RefusesHeader(dev, m, d))
  {
    hide Magic, PacketBase, Accepted, Refused, Process, Contents, Sum;
    if refused {
      RefusedDown(dev, m, bs, later, f0, d);
    } else {
      AcceptedDown(dev, m, bs, f0, d);
    }
  }

  /** A block while no header was refused: it extends the stream, changes nothing, or completes a header that is refused. */
  lemma AcceptedDown(dev: Device, m: Machine, bs: seq<(int, seq<cell>)>, f0: Flash, d: Download)
    requires dev.Valid() && Valid(m.ota) && m.ota.maxLen == dev.maxLen && WellFormed(m, d)
    requires Accepted(m.ota, m.flash, f0, Contents(bs), dev.base, dev.version)
    ensures var (m', ok) := Next(dev, m, Down(d));
            if RefusesHeader(dev, m, d) then !ok && Refused(dev, m', bs, [], f0)
            else Accepted(m'.ota, m'.flash, f0, Contents(if ok then bs + [(d.sn, d.bytes.value)] else bs),
                          dev.base, dev.version)
  {
    var data := d.bytes.value;
    ContentsSnoc(bs, (d.sn, data));
    ProcessExtends(m.ota, m.flash, f0, Contents(bs), dev.base, data, dev.version);
    if RefusesHeader(dev, m, d) {
      FirstRefusal(dev, m, bs, f0, d);
    }
    hide Magic, PacketBase, Accepted, Refused, Write, Erase, Sum, Contents;
  }

  lemma ContentsSnoc(bs: seq<(int, seq<cell>)>, b: (int, seq<cell>))
    ensures Contents(bs + [b]) == Contents(bs) + b.1
  {
    assert (bs + [b])[..|bs|] == bs;
  }

  /** The block that completes a header which is refused. */
  lemma FirstRefusal(dev: Device, m: Machine, bs: seq<(int, seq<cell>)>, f0: Flash, d: Download)
    requires dev.Valid() && Valid(m.ota) && m.ota.maxLen == dev.maxLen && RefusesHeader(dev, m, d)
    requires Accepted(m.ota, m.flash, f0, Contents(bs), dev.base, dev.version)
    ensures Refused(dev, Next(dev, m, Down(d)).0, bs, [], f0) && !Next(dev, m, Down(d)).1
  {
    hide Magic, PacketBase, Holds, Write, Erase, Sum;
    var stream := Contents(bs);
    assert bs[..|bs| - 0] == bs && Contents([]) == [] && stream + [] == stream;
    assert stream <= Overlay(m.ota.head, m.ota.recv, d.bytes.value[..HEADER - m.ota.recv]);
  }

  /** A block after that is stored unchecked, or does not fit and changes nothing. */
  lemma RefusedDown(dev: Device, m: Machine, bs: seq<(int, seq<cell>)>, later: seq<(int, seq<cell>)>, f0: Flash, d: Download)
    requires dev.Valid() && Valid(m.ota) && m.ota.maxLen == dev.maxLen && WellFormed(m, d)
    requires Refused(dev, m, bs, later, f0)
    ensures var (m', ok) := Next(dev, m, Down(d));
            var block := (d.sn, d.bytes.value);
            Refused(dev, m', if ok then bs + [block] else bs, if ok then later + [block] else later, f0)
  {
    var data, block := d.bytes.value, (d.sn, d.bytes.value);
    if m.ota.recv + |data| <= m.ota.maxLen {
      assert Next(dev, m, Down(d)) == (var r := Store(m.ota, m.flash, data);
                                       m.(ota := r.ota, flash := r.flash, blockNum := m.blockNum + 1), true);
      OneMoreLater(bs, later, block);
      StoreRefused(dev, m.ota, m.flash, Contents(later), f0, data);
      hide Next, Process, WellFormed, Magic, PacketBase, Contents, Sum, Write, Erase, Holds;
    } else {
      hide Magic, PacketBase, Contents, Sum, Holds, Store, WellFormed;
    }
  }

  lemma OneMoreLater(bs: seq<(int, seq<cell>)>, later: seq<(int, seq<cell>)>, block: (int, seq<cell>))
    requires |later| <= |bs| && Contents(bs) == Contents(bs[..|bs| - |later|]) + Contents(later)
    ensures var bs', later' := bs + [block], later + [block];
            && bs'[..|bs'| - |later'|] == bs[..|bs| - |later|]
            && Contents(later') == Contents(later) + block.1
            && Contents(bs') == Contents(bs[..|bs| - |later|]) + Contents(later')
  {
    hide Contents;
    ContentsSnoc(bs, block);
    ContentsSnoc(later, block);
    EarlierStays(bs, later, block);
    Associates(Contents(bs[..|bs| - |later|]), Contents(later), block.1);
  }

  lemma Associates(a: seq<cell>, b: seq<cell>, c: seq<cell>)
    ensures (a + b) + c == a + (b + c)
  {}

  lemma EarlierStays(bs: seq<(int, seq<cell>)>, later: seq<(int, seq<cell>)>, block: (int, seq<cell>))
    requires |later| <= |bs|
    ensures (bs + [block])[..|bs + [block]| - |later + [block]|] == bs[..|bs| - |later|]
  {}

  lemma StoreRefused(dev: Device, o: Ota, f: Flash, later: seq<cell>, f0: Flash, data: seq<cell>)
    requires Valid(o) && o.recv == HEADER + |later| && o.recv + |data| <= o.maxLen == dev.maxLen && data != []
    requires o.flashBase == dev.base
    requires if later == [] then f == f0 else Holds(f, f0, dev.base, dev.maxLen, o.head + later)
    ensures Holds(Store(o, f, data).flash, f0, dev.base, dev.maxLen, o.head + (later + data))
  {
    hide Holds, Erase, Cell;
    assert o.head + later + data == o.head + (later + data);
    if later == [] {
      assert later + data == data;
      FirstStoreHolds(o, f, f0, data);
    } else {
      WriteHolds(f, f0, o.flashBase, o.maxLen, o.head + later, data);
    }
  }

  /** In every command run, the update starts only if the blocks accepted since the last erase were numbered 0, 1, ...
      in order without gap or repeat, there was at least one, and the signature check succeeded on exactly the bytes
      those blocks left. If no header was refused, header and hashed bytes are those of their concatenation,
      and once that is at least a header long the flash holds it. */
  lemma UpdateIsSafe(dev: Device, f0: Flash, cs: seq<Command>)
    requires dev.Valid() && Run(dev, f0, cs).status.Updating?
    ensures var m := Run(dev, f0, cs);
            var bs := Blocks(dev, f0, cs);
            var image := Contents(bs);
            && |bs| >= 1 && InOrder(bs)
            && dev.genuine(m.ota.fed, m.ota.head)
            && (!HeaderRefused(dev, f0, cs) && |image| >= HEADER ==>
                  && dev.genuine(image[UNSIGNED..], image[..HEADER])
                  && m.ota.flashBase == PacketBase(image[..HEADER])
                  && Holds(m.flash, FlashAtErase(dev, f0, cs), m.ota.flashBase, dev.maxLen, image))
  {
    RunKeeps(dev, f0, cs);
  }

  /** The byte count of the context agrees with the accepted blocks exactly when no header was refused since the erase. After
      a refusal the header stays, the blocks that follow are stored behind it unchecked, and the signature check sees them
      alone. */
  lemma RefusedHeaderShifts(dev: Device, f0: Flash, cs: seq<Command>)
    requires dev.Valid()
    ensures var m, bs, later := Run(dev, f0, cs), Blocks(dev, f0, cs), Later(dev, f0, cs);
            && (m.ota.recv == |Contents(bs)| <==> !HeaderRefused(dev, f0, cs))
            && (HeaderRefused(dev, f0, cs) ==> Refused(dev, m, bs, later, FlashAtErase(dev, f0, cs)))
            && (m.status.Updating? ==> dev.genuine(m.ota.fed, m.ota.head))
  {
    RunKeeps(dev, f0, cs);
  }

  lemma {:induction false} BlankSum(n: nat)
    ensures Sum(Blank(n)) == 0
    decreases n
  {
    if n > 0 {
      assert Blank(n)[..n - 1] == Blank(n - 1);
      BlankSum(n - 1);
    }
  }

  /** A run in which a header is refused: one block of zeros. The byte count says 164, and no block was accepted. */
  lemma BlankHeaderIsRefused(dev: Device, f0: Flash)
    requires dev.Valid() && dev.maxLen >= HEADER
    ensures var cs := [EraseFlash, Down(Download(true, 0, HEADER, 2 * HEADER, Some(Blank(HEADER)), Some(0)))];
            && HeaderRefused(dev, f0, cs) && Blocks(dev, f0, cs) == [] && Run(dev, f0, cs).ota.recv == HEADER
  {
    var d := Download(true, 0, HEADER, 2 * HEADER, Some(Blank(HEADER)), Some(0));
    var first, cs := [EraseFlash], [EraseFlash, Down(d)];
    assert first[..0] == [] && cs[..1] == first;
    BlankSum(HEADER);
    hide Sum;
    var m := Run(dev, f0, first);
    hide Magic, PacketBase, Process, Contents;
    assert Run(dev, f0, []) == Machine(Idle, 0, Init(dev.base, dev.maxLen), f0);
    assert m == Next(dev, Run(dev, f0, first[..0]), first[0]).0;
    assert m == Machine(Downing, 0, Init(dev.base, dev.maxLen), f0);
    assert WellFormed(m, d);
    var head := Overlay(Blank(HEADER), 0, Blank(HEADER)[..HEADER]);
    assert head == Blank(HEADER);
    BlankMagic(head);
    assert RefusesHeader(dev, m, d);
    assert HeaderRefused(dev, f0, cs);
    RefusedReply(dev, m, d);
  }

  lemma BlankMagic(head: seq<cell>)
    requires head == Blank(HEADER)
    ensures Magic(head) == 0
  {
    assert head[..4] == Blank(4);
  }

  lemma RefusedReply(dev: Device, m: Machine, d: Download)
    requires dev.Valid() && Valid(m.ota) && m.ota.maxLen == dev.maxLen && RefusesHeader(dev, m, d)
    ensures var (m', ok) := Next(dev, m, Down(d)); !ok && m'.ota.recv == HEADER
  {
    hide Magic, PacketBase, Sum;
  }

  /** Two command runs whose accepted blocks form the same image leave the same context and the same flash. */
  lemma ChunkingIsIrrelevant(dev: Device, f0: Flash, cs: seq<Command>, cs': seq<Command>)
    requires dev.Valid() && !HeaderRefused(dev, f0, cs) && !HeaderRefused(dev, f0, cs')
    requires Contents(Blocks(dev, f0, cs)) == Contents(Blocks(dev, f0, cs'))
    requires |Contents(Blocks(dev, f0, cs))| >= HEADER && FlashAtErase(dev, f0, cs) == FlashAtErase(dev, f0, cs')
    ensures Run(dev, f0, cs).ota == Run(dev, f0, cs').ota
    ensures forall x :: Run(dev, f0, cs).flash(x) == Run(dev, f0, cs').flash(x)
  {
    RunKeeps(dev, f0, cs);
    RunKeeps(dev, f0, cs');
  }
}
