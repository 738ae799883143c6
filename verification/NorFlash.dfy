/** NOR flash: writes can only clear bits, an erase sets them. */
module NorFlash {
  type cell = bv8

  /** Flash contents by address. */
  type Flash = int -> cell

  function Erase(f: Flash, at: int, n: nat): (f': Flash)
  {
    x => if at <= x < at + n then 0xFF else f(x)
  }

  /** xy_flash_write_no_erase: each cell keeps only the bits that were set and that the data sets. */
  function Write(f: Flash, at: int, data: seq<cell>): (f': Flash)
  {
    x => if at <= x < at + |data| then f(x) & data[x - at] else f(x)
  }

  function Read(f: Flash, at: int, n: nat): (data: seq<cell>)
    ensures |data| == n
  {
    seq(n, i requires 0 <= i < n => f(at + i))
  }

  lemma MaskIsIdentity(b: cell)
    ensures 0xFF & b == b
  {}
}
