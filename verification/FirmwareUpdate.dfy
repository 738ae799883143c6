/** That a firmware update of a good image does start: every block is taken, the check succeeds and the update begins. */
module FirmwareUpdate {
  import opened Bytes
  import opened NorFlash
  import opened Firmware
  import opened FirmwareStream
  import opened AtFota

  /** A download command whose number, length and checksum are right. */
  predicate GoodBlock(d: Download, n: nat)
  {
    && d.parses && d.sn == n && 1 <= d.len <= 512 && d.textLength == 2 * d.len
    && d.bytes.Some? && |d.bytes.value| == d.len && d.crc == Some(Sum(d.bytes.value))
  }

  predicate GoodBlocks(ds: seq<Download>)
  {
    forall n :: 0 <= n < |ds| ==> GoodBlock(ds[n], n)
  }

  function Image(ds: seq<Download>): (image: seq<cell>)
    requires GoodBlocks(ds)
  {
    if ds == [] then [] else Image(ds[..|ds| - 1]) + ds[|ds| - 1].bytes.value
  }

  /** An erase command and the download commands. */
  function Commands(ds: seq<Download>): (cs: seq<Command>)
  {
    if ds == [] then [EraseFlash] else Commands(ds[..|ds| - 1]) + [Down(ds[|ds| - 1])]
  }

  lemma RunOne(dev: Device, f0: Flash, cs: seq<Command>, c: Command)
    requires dev.Valid()
    ensures Run(dev, f0, cs + [c]) == Next(dev, Run(dev, f0, cs), c).0
  {
    assert (cs + [c])[..|cs|] == cs;
  }

  /** After the erase and the good blocks of an acceptable image the machine expects the next one, and has what they left. */
  ghost predicate Loaded(dev: Device, m: Machine, f0: Flash, ds: seq<Download>)
    requires GoodBlocks(ds)
  {
    && m.status == Downing && m.blockNum == |ds| && Valid(m.ota) && m.ota.maxLen == dev.maxLen
    && Accepted(m.ota, m.flash, f0, Image(ds), dev.base, dev.version)
  }

  /** The next good block is accepted exactly if the image with it is acceptable: it fits the region, and its header, if complete,
      passes the checks. */
  lemma NextBlockIff(dev: Device, m: Machine, f0: Flash, ds: seq<Download>, d: Download)
    requires dev.Valid() && GoodBlocks(ds) && Loaded(dev, m, f0, ds) && GoodBlock(d, |ds|)
    ensures GoodBlocks(ds + [d]) && Image(ds + [d]) == Image(ds) + d.bytes.value
    ensures var (m', ok) := Next(dev, m, Down(d));
            && (ok <==> Acceptable(dev.base, dev.maxLen, Image(ds + [d]), dev.version))
            && (ok ==> Loaded(dev, m', f0, ds + [d]))
  {
    var data := d.bytes.value;
    ImageSnoc(ds, d);
    hide Image;
    assert WellFormed(m, d);
    PacketDecides(m.ota, m.flash, f0, Image(ds), dev.base, data, dev.version);
    ProcessExtends(m.ota, m.flash, f0, Image(ds), dev.base, data, dev.version);
    hide Process, Accepted, Acceptable, WellFormed, GoodBlocks, Sum;
  }

  lemma ImageSnoc(ds: seq<Download>, d: Download)
    requires GoodBlocks(ds) && GoodBlock(d, |ds|)
    ensures GoodBlocks(ds + [d]) && Image(ds + [d]) == Image(ds) + d.bytes.value
  {
    assert (ds + [d])[..|ds|] == ds;
  }

  lemma ErasedIsLoaded(dev: Device, f0: Flash, before: seq<Command>)
    requires dev.Valid()
    ensures Loaded(dev, Run(dev, f0, before + [EraseFlash]), Run(dev, f0, before).flash, [])
  {
    RunOne(dev, f0, before, EraseFlash);
    InitAccepted(dev, Run(dev, f0, before).flash);
    hide Run, Accepted;
  }

  /** Whatever came before, an erase and the good blocks of an acceptable image are all taken. */
  lemma {:induction false} BlocksAreLoaded(dev: Device, f0: Flash, before: seq<Command>, ds: seq<Download>)
    requires dev.Valid() && GoodBlocks(ds) && Acceptable(dev.base, dev.maxLen, Image(ds), dev.version)
    ensures Loaded(dev, Run(dev, f0, before + Commands(ds)), Run(dev, f0, before).flash, ds)
  {
    hide Run, Next, Loaded, Acceptable;
    if ds == [] {
      ErasedIsLoaded(dev, f0, before);
    } else {
      var fewer, d := ds[..|ds| - 1], ds[|ds| - 1];
      assert ds == fewer + [d];
      PrefixDecides(dev.base, dev.maxLen, Image(fewer), d.bytes.value, dev.version);
      BlocksAreLoaded(dev, f0, before, fewer);
      var cs := before + Commands(fewer);
      NextBlockIff(dev, Run(dev, f0, cs), Run(dev, f0, before).flash, fewer, d);
      RunOne(dev, f0, cs, Down(d));
      assert before + Commands(ds) == cs + [Down(d)];
    }
  }

  /** What the signature check is given for an image: the bytes behind the unsigned part, and the header. */
  function Signed(image: seq<cell>): (s: (seq<cell>, seq<cell>))
  {
    if |image| >= 164 then (image[84..], image[..164]) else ([], image + Blank(164 - |image|))
  }

  /** Whatever came before: after an erase and the good blocks of an acceptable image, at least one, the check succeeds exactly if
      the image is genuine, and then the update starts. */
  lemma GoodImageIsUpdated(dev: Device, f0: Flash, before: seq<Command>, ds: seq<Download>)
    requires dev.Valid() && GoodBlocks(ds) && ds != [] && Acceptable(dev.base, dev.maxLen, Image(ds), dev.version)
    ensures var m := Run(dev, f0, before + Commands(ds));
            var (m1, checked) := Next(dev, m, Check);
            var (m2, started) := Next(dev, m1, Update);
            && (checked <==> dev.genuine(Signed(Image(ds)).0, Signed(Image(ds)).1))
            && m1.status == (if checked then Downed else Downing) && m1.ota == m.ota && m1.flash == m.flash
            && (started <==> checked) && (started ==> m2.status == Updating)
  {
    BlocksAreLoaded(dev, f0, before, ds);
    hide Run, Acceptable, Image;
    LoadedIsChecked(dev, Run(dev, f0, before + Commands(ds)), Run(dev, f0, before).flash, ds);
  }

  lemma LoadedIsChecked(dev: Device, m: Machine, f0: Flash, ds: seq<Download>)
    requires dev.Valid() && GoodBlocks(ds) && ds != [] && Loaded(dev, m, f0, ds)
    ensures (m.ota.fed, m.ota.head) == Signed(Image(ds))
    ensures var (m1, checked) := Next(dev, m, Check);
            var (m2, started) := Next(dev, m1, Update);
            && (checked <==> dev.genuine(Signed(Image(ds)).0, Signed(Image(ds)).1))
            && m1.status == (if checked then Downed else Downing) && m1.ota == m.ota && m1.flash == m.flash
            && (started <==> checked) && (started ==> m2.status == Updating)
  {
    SignedIs(m.ota, m.flash, f0, Image(ds), dev.base, dev.version);
    hide Accepted, Image, Signed, GoodBlocks;
  }

  lemma SignedIs(o: Ota, f: Flash, f0: Flash, image: seq<cell>, base: int, version: VersionCheck)
    requires Accepted(o, f, f0, image, base, version)
    ensures (o.fed, o.head) == Signed(image)
  {
    hide Magic, PacketBase, Holds;
  }
}
