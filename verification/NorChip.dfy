/**
 * The serial NOR flash as the drivers see it: a device that listens to bytes while
 * chip select is low and carries out the collected frame when chip select rises.
 */
module NorChip {
  import opened Bits

  const FLASH_SIZE: nat := 0x100_0000
  const PAGE_SIZE: nat := 256

  const WRITE_STATUS_CMD: byte := 0x01
  const WRITE_CMD: byte := 0x02
  const READ_CMD: byte := 0x03
  const READ_STATUS_CMD: byte := 0x05
  const WRITE_ENABLE_CMD: byte := 0x06
  const SECT_ERASE_CMD: byte := 0x20
  const READ_STATUS_HIGH_CMD: byte := 0x35
  const BLK32_ERASE_CMD: byte := 0x52
  const CHIP_ERASE_CMD: byte := 0x60
  const PAGE_ERASE_CMD: byte := 0x81
  const BLK64_ERASE_CMD: byte := 0xD8

  /**
   * `busy` counts the status polls that will still read back "busy"; `latency` is
   * the value it takes when an operation starts. `log` keeps every completed frame.
   */
  datatype Chip = Chip(mem: seq<byte>, srLow: byte, srHigh: byte, wel: bool,
                       busy: nat, latency: nat,
                       selected: bool, frame: seq<byte>, log: seq<seq<byte>>)

  ghost predicate Wf(c: Chip) {
    |c.mem| == FLASH_SIZE && (!c.selected ==> c.frame == [])
  }

  /** Deselected, and no operation in progress. */
  ghost predicate Ready(c: Chip) {
    Wf(c) && !c.selected && c.busy == 0
  }

  // ---------------------------------------------------------------- addresses

  /** The three address bytes on the wire, most significant first. */
  function AddrBytes(addr: nat): seq<byte> {
    [addr / 0x10000 % 256, addr / 0x100 % 256, addr % 256]
  }

  /** The address a frame carries after its command byte. */
  function FrameAddr(f: seq<byte>): (a: nat)
    requires |f| >= 4
    ensures a < FLASH_SIZE
  {
    var hi: int, mid: int, lo: int := f[1], f[2], f[3];
    hi * 0x10000 + mid * 0x100 + lo
  }

  /** The chip reads back the address modulo the 24-bit space. */
  lemma AddrRoundTrip(cmd: byte, addr: nat, data: seq<byte>)
    ensures FrameAddr([cmd] + AddrBytes(addr) + data) == addr % FLASH_SIZE
  {
    var f := [cmd] + AddrBytes(addr) + data;
    assert f[1] == addr / 0x10000 % 256 && f[2] == addr / 0x100 % 256 && f[3] == addr % 256;
    assert addr / 0x100 == addr / 0x10000 * 256 + addr / 0x100 % 256;
  }

  // ---------------------------------------------------------------- operations

  /** The 256-byte page buffer after `data` streams in from offset `off`, wrapping at the end of the page. */
  function Latch(buf: seq<byte>, off: nat, data: seq<byte>): (r: seq<byte>)
    requires |buf| == PAGE_SIZE && off < PAGE_SIZE
    ensures |r| == PAGE_SIZE
    decreases |data|
  {
    if data == [] then buf
    else Latch(buf[off := data[0]], (off + 1) % PAGE_SIZE, data[1..])
  }

  function ErasedPage(): (r: seq<byte>)
    ensures |r| == PAGE_SIZE && forall i :: 0 <= i < PAGE_SIZE ==> r[i] == 0xFF
  {
    seq(PAGE_SIZE, i => 0xFF)
  }

  /** Page program: only the page of `addr` can change, and only from 1 to 0. */
  function PageProgram(mem: seq<byte>, addr: nat, data: seq<byte>): (r: seq<byte>)
    requires |mem| == FLASH_SIZE
    ensures |r| == FLASH_SIZE
  {
    var buf := Latch(ErasedPage(), addr % PAGE_SIZE, data);
    seq(FLASH_SIZE, i requires 0 <= i < FLASH_SIZE =>
      if i / PAGE_SIZE == addr / PAGE_SIZE then And(mem[i], buf[i % PAGE_SIZE]) else mem[i])
  }

  /** Erase of the aligned block of `size` bytes that holds `addr`. */
  function EraseBlock(mem: seq<byte>, addr: nat, size: nat): (r: seq<byte>)
    requires |mem| == FLASH_SIZE && size > 0
    ensures |r| == FLASH_SIZE
  {
    seq(FLASH_SIZE, i requires 0 <= i < FLASH_SIZE =>
      if i / size == addr / size then 0xFF else mem[i])
  }

  function EraseSize(cmd: byte): nat {
    if cmd == SECT_ERASE_CMD then 0x1000
    else if cmd == PAGE_ERASE_CMD then 0x100
    else if cmd == BLK32_ERASE_CMD then 0x8000
    else if cmd == BLK64_ERASE_CMD then 0x10000
    else 0
  }

  /** Frames that start an operation when the write latch is set. */
  predicate Starts(f: seq<byte>) {
    f != [] &&
    (|| (f[0] == WRITE_CMD && |f| > 4)
     || (EraseSize(f[0]) > 0 && |f| == 4)
     || (f[0] == CHIP_ERASE_CMD && |f| == 1)
     || (f[0] == WRITE_STATUS_CMD && 2 <= |f| <= 3))
  }

  /** The effect of an operation frame on memory and status registers. */
  function Perform(c: Chip, f: seq<byte>): (r: Chip)
    requires |c.mem| == FLASH_SIZE && Starts(f)
    ensures |r.mem| == FLASH_SIZE
  {
    if f[0] == WRITE_CMD then c.(mem := PageProgram(c.mem, FrameAddr(f), f[4..]))
    else if EraseSize(f[0]) > 0 then c.(mem := EraseBlock(c.mem, FrameAddr(f), EraseSize(f[0])))
    else if f[0] == CHIP_ERASE_CMD then c.(mem := EraseBlock(c.mem, 0, FLASH_SIZE))
    else c.(srLow := f[1] / 4 * 4, srHigh := if |f| == 3 then f[2] else c.srHigh)
  }

  /** What a completed frame does; everything but status polling is ignored while busy. */
  function Execute(c: Chip, f: seq<byte>): (r: Chip)
    requires |c.mem| == FLASH_SIZE
    ensures |r.mem| == FLASH_SIZE
  {
    if c.busy > 0 then c
    else if f == [WRITE_ENABLE_CMD] then c.(wel := true)
    else if c.wel && Starts(f) then Perform(c, f).(wel := false, busy := c.latency)
    else c
  }

  // ---------------------------------------------------------------- pins

  function Select(c: Chip): Chip {
    if c.selected then c else c.(selected := true, frame := [])
  }

  function Deselect(c: Chip): (r: Chip)
    requires |c.mem| == FLASH_SIZE
    ensures |r.mem| == FLASH_SIZE
  {
    if !c.selected then c
    else Execute(c.(selected := false, frame := [], log := c.log + [c.frame]), c.frame)
  }

  function Status(c: Chip): byte {
    (if c.busy > 0 then 1 else 0) + (if c.wel then 2 else 0) + c.srLow / 4 * 4
  }

  /** The byte shifted out while byte number |f| of the frame is shifted in. */
  function OutByte(c: Chip, f: seq<byte>): byte
    requires |c.mem| == FLASH_SIZE
  {
    if |f| >= 1 && f[0] == READ_STATUS_CMD then Status(c)
    else if |f| >= 1 && f[0] == READ_STATUS_HIGH_CMD then c.srHigh
    else if |f| >= 4 && f[0] == READ_CMD && c.busy == 0 then c.mem[(FrameAddr(f) + |f| - 4) % FLASH_SIZE]
    else 0xFF
  }

  /** One byte clocked through a selected chip. */
  function Clock(c: Chip, b: byte): (Chip, byte)
    requires |c.mem| == FLASH_SIZE
  {
    if !c.selected then (c, 0xFF)
    else
      var polled := |c.frame| >= 1 && c.frame[0] == READ_STATUS_CMD && c.busy > 0;
      (c.(frame := c.frame + [b], busy := if polled then c.busy - 1 else c.busy), OutByte(c, c.frame))
  }
}
