/** ota_downlink_packet_proc and the AT command handlers as they update their context in place. */
module FirmwareCode {
  import opened Bytes
  import opened NorFlash
  import opened Firmware
  import AtFota

  const BUF_LEN := 1024

  /** The flash driver. */
  class Chip {
    var cells: Flash

    constructor (f: Flash)
      ensures cells == f
    {
      cells := f;
    }

    method EraseRegion(at: int, n: nat)
      modifies this
      ensures cells == Erase(old(cells), at, n)
    {
      cells := Erase(cells, at, n);
    }

    method WriteNoErase(at: int, data: seq<cell>)
      modifies this
      ensures cells == Write(old(cells), at, data)
    {
      cells := Write(cells, at, data);
    }
  }

  class Context {
    var flashBase: int
    const maxLen: u32
    var recvSize: u32
    const headInfo: array<cell>
    var hmacInput: seq<cell>

    ghost predicate Ready()
      reads this
    {
      headInfo.Length == HEADER && recvSize <= maxLen
    }

    ghost function View(): (o: Ota)
      reads this, headInfo
    {
      Ota(flashBase, maxLen, recvSize, headInfo[..], hmacInput)
    }

    /** ota_update_Init. */
    constructor (base: int, max: u32)
      ensures Ready() && View() == Init(base, max) && fresh(headInfo)
    {
      flashBase, maxLen, recvSize, hmacInput := base, max, 0, [];
      headInfo := new cell[HEADER](_ => 0);
      new;
      assert headInfo[..] == Blank(HEADER);
    }

    /** memcpy into the header buffer. */
    method FillHeader(data: seq<cell>)
      requires headInfo.Length == HEADER && recvSize + |data| <= HEADER
      modifies headInfo
      ensures headInfo[..] == Overlay(old(headInfo[..]), recvSize, data)
    {
      var k := 0;
      while k < |data|
        invariant 0 <= k <= |data|
        invariant forall j :: 0 <= j < HEADER ==>
                    headInfo[j] == if recvSize <= j < recvSize + k then data[j - recvSize] else old(headInfo[j])
      {
        headInfo[recvSize + k] := data[k];
        k := k + 1;
      }
    }

    /** The HMAC is fed in pieces of BUF_LEN bytes. */
    method FeedHmac(input: seq<cell>)
      modifies this`hmacInput
      ensures hmacInput == old(hmacInput) + input
    {
      var offset, inputLen := 0, |input|;
      while inputLen >= BUF_LEN
        invariant 0 <= inputLen && offset + inputLen == |input|
        invariant hmacInput == old(hmacInput) + input[..offset]
      {
        hmacInput := hmacInput + input[offset..offset + BUF_LEN];
        offset := offset + BUF_LEN;
        inputLen := inputLen - BUF_LEN;
      }
      if inputLen > 0 {
        hmacInput := hmacInput + input[offset..offset + inputLen];
      }
      assert input[..offset] + input[offset..] == input;
    }

    method StorePayload(chip: Chip, input: seq<cell>)
      requires Ready() && recvSize + |input| <= maxLen
      modifies this`recvSize, this`hmacInput, chip
      ensures Ready() && Outcome(View(), chip.cells, true) == Store(old(View()), old(chip.cells), input)
    {
      if recvSize == HEADER {
        chip.EraseRegion(flashBase, maxLen);
        chip.WriteNoErase(flashBase, headInfo[..]);
        if |input| > 0 {
          chip.WriteNoErase(flashBase + HEADER, input);
        }
      } else {
        chip.WriteNoErase(flashBase + recvSize, input);
      }
      recvSize := recvSize + |input|;
      FeedHmac(input);
    }

    method PacketProc(chip: Chip, data: seq<cell>, version: VersionCheck) returns (ok: bool)
      requires Ready() && Addressable(View(), data)
      modifies this`flashBase, this`recvSize, this`hmacInput, headInfo, chip
      ensures Ready() && Outcome(View(), chip.cells, ok) == Process(old(View()), old(chip.cells), data, version)
    {
      hide Magic, PacketBase, Store, Overlay;
      if recvSize + |data| > maxLen {
        return false;
      }
      if recvSize + |data| < HEADER {
        FillHeader(data);
        recvSize := recvSize + |data|;
        return true;
      }
      var input := data;
      if recvSize < HEADER {
        var need := HEADER - recvSize;
        FillHeader(data[..need]);
        input := data[need..];
        recvSize := HEADER;
        var head := headInfo[..];
        if Magic(head) != MAGIC_NUM || !version(head) || PacketBase(head) < flashBase {
          return false;
        }
        flashBase := PacketBase(head);
        hmacInput := hmacInput + head[UNSIGNED..];
      }
      StorePayload(chip, input);
      return true;
    }
  }

  /** One byte of a 32-bit accumulator. */
  function ByteOf(val: bv32, k: bv6): (x: cell)
    requires k < 4
  {
    ((val >> (8 * k)) & 0xFF) as cell
  }

  lemma ByteOfSmall(x: cell)
    ensures ByteOf(x as bv32, 0) == x
    ensures ByteOf(x as bv32, 1) == 0 && ByteOf(x as bv32, 2) == 0 && ByteOf(x as bv32, 3) == 0
  {}

  lemma WidenXor(x: cell, y: cell)
    ensures (x as bv32) ^ (y as bv32) == (x ^ y) as bv32
  {}

  /** Folding an accumulator that holds one byte gives that byte. */
  lemma Folded(x: cell)
    ensures 0 ^ ByteOf(x as bv32, 0) ^ ByteOf(x as bv32, 1) ^ ByteOf(x as bv32, 2) ^ ByteOf(x as bv32, 3) == x
  {
    ByteOfSmall(x);
    hide ByteOf;
    XorZero(x);
  }

  lemma XorZero(x: cell)
    ensures 0 ^ x == x && x ^ 0 == x
  {}

  /** chk_sum: the loop over the bytes, and the folding of its four-byte accumulator. The loop over a tail that follows in
      the source never runs, because the first loop has counted the length down to zero. */
  method CheckSum(data: seq<cell>) returns (ret: cell)
    ensures ret == AtFota.Sum(data)
  {
    ret := 0;
    var val: bv32 := 0;
    var at, length := 0, |data|;
    assert data[..0] == [];
    while length > 0
      invariant length >= 0 && at + length == |data|
      invariant val == AtFota.Sum(data[..at]) as bv32
    {
      assert data[..at + 1][..at] == data[..at];
      WidenXor(AtFota.Sum(data[..at]), data[at]);
      val := val ^ (data[at] as bv32);
      at := at + 1;
      length := length - 1;
    }
    assert data[..at] == data;
    Folded(AtFota.Sum(data));
    hide ByteOf;
    ret := ret ^ ByteOf(val, 0);
    ret := ret ^ ByteOf(val, 1);
    ret := ret ^ ByteOf(val, 2);
    ret := ret ^ ByteOf(val, 3);
  }

  /** The static variables of at_fota.c. */
  class Commands {
    const dev: AtFota.Device
    const chip: Chip
    var status: AtFota.Status
    var blockNum: nat
    var context: Context

    ghost predicate Ready()
      reads this, context
    {
      dev.Valid() && context.Ready() && context.maxLen == dev.maxLen
    }

    ghost function View(): (m: AtFota.Machine)
      reads this, context, context.headInfo, chip
    {
      AtFota.Machine(status, blockNum, context.View(), chip.cells)
    }

    constructor (d: AtFota.Device, c: Chip)
      requires d.Valid()
      ensures Ready() && View() == AtFota.Run(d, c.cells, []) && dev == d && chip == c
    {
      dev, chip, status, blockNum := d, c, AtFota.Idle, 0;
      context := new Context(d.base, d.maxLen);
    }

    method EraseFlash()
      requires Ready()
      modifies this
      ensures Ready() && View() == AtFota.Next(dev, old(View()), AtFota.EraseFlash).0
    {
      context := new Context(dev.base, dev.maxLen);
      blockNum := 0;
      status := AtFota.Downing;
    }

    method Down(d: AtFota.Download) returns (ok: bool)
      requires Ready()
      modifies this, context, context.headInfo, chip
      ensures Ready() && (View(), ok) == AtFota.Next(dev, old(View()), AtFota.Down(d))
    {
      hide Process;
      if !status.Downing? || !d.parses || d.sn != blockNum {
        return false;
      }
      if d.len > 512 || d.len <= 0 || d.textLength != d.len * 2 || d.bytes.None? || |d.bytes.value| != d.len {
        return false;
      }
      if d.crc.None? {
        return false;
      }
      var sum := CheckSum(d.bytes.value);
      if sum != d.crc.value {
        return false;
      }
      ok := context.PacketProc(chip, d.bytes.value, dev.version);
      if ok {
        blockNum := blockNum + 1;
      }
    }

    method Check() returns (ok: bool)
      requires Ready()
      modifies this
      ensures Ready() && (View(), ok) == AtFota.Next(dev, old(View()), AtFota.Check)
    {
      if !status.Downing? || blockNum == 0 || !dev.genuine(context.hmacInput, context.headInfo[..]) {
        return false;
      }
      status := AtFota.Downed;
      return true;
    }

    method Update() returns (ok: bool)
      requires Ready()
      modifies this
      ensures Ready() && (View(), ok) == AtFota.Next(dev, old(View()), AtFota.Update)
    {
      if !status.Downed? {
        return false;
      }
      status := AtFota.Updating;
      return true;
    }
  }
}
