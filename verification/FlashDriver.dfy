/**
 * The flash drivers, byte by byte over the memory-mapped SPI master registers.
 * Every method is proved against the whole-frame transactions of FlashTheory.
 */
module FlashDriver {
  import opened Bits
  import opened NorChip
  import opened FlashTheory

  /** flash_wait_done gives up after this many status polls. */
  const POLL_LIMIT: nat := 10_000_000

  datatype StatusType = EightBit | SixteenBitOneCmd | SixteenBitTwoCmd

  class Mspi {
    var chip: Chip
    var ctrl: byte     // master SPI control register: bit 0 is chip select, bit 3 automatic read
    var data: byte     // last byte shifted in
    var irqEn: byte    // global interrupt enable register

    constructor (chip: Chip)
      requires Ready(chip)
      ensures this.chip == chip && ctrl == 1 && irqEn == 1
    {
      this.chip := chip;
      ctrl, data, irqEn := 1, 0, 1;
    }

    /** The chip select line and the chip agree. */
    ghost predicate Wired()
      reads this
    {
      Wf(chip) && (chip.selected <==> ctrl % 2 == 0)
    }

    /** Between driver calls: chip select high, chip ready, and operations finish within the poll limit. */
    ghost predicate Idle()
      reads this
    {
      Wired() && Ready(chip) && chip.latency < POLL_LIMIT
    }

    /** A frame is open, no automatic clocking, and `f` has been shifted out so far. */
    ghost predicate Sending(f: seq<byte>)
      reads this
    {
      Wired() && chip.selected && ctrl == 0 && chip.frame == f
    }

    // ------------------------------------------------------------ registers

    method CtrlWrite(c: byte)
      requires Wired()
      modifies this`chip, this`ctrl
      ensures Wired() && ctrl == c
      ensures chip == if c % 2 == 1 then Deselect(old(chip)) else Select(old(chip))
    {
      ctrl := c;
      chip := if c % 2 == 1 then Deselect(chip) else Select(chip);
    }

    method High()
      requires Wired()
      modifies this`chip, this`ctrl
      ensures Wired() && ctrl == 1 && chip == Deselect(old(chip))
    {
      CtrlWrite(1);
    }

    method Low()
      requires Wired()
      modifies this`chip, this`ctrl
      ensures Wired() && ctrl == 0 && chip == Select(old(chip))
    {
      CtrlWrite(0);
    }

    method Write(c: byte)
      requires Wired()
      modifies this`chip, this`data
      ensures Wired() && (chip, data) == Clock(old(chip), c)
    {
      var (next, out) := Clock(chip, c);
      chip, data := next, out;
    }

    /** Reading the data register; in automatic mode this also clocks the next byte in. */
    method Get() returns (r: byte)
      requires Wired()
      modifies this`chip, this`data
      ensures Wired() && r == old(data)
      ensures ctrl / 8 % 2 == 1 ==> (chip, data) == Clock(old(chip), 0)
      ensures ctrl / 8 % 2 == 0 ==> (chip, data) == (old(chip), old(data))
    {
      r := data;
      if ctrl / 8 % 2 == 1 {
        var (next, out) := Clock(chip, 0);
        chip, data := next, out;
      }
    }

    method Read() returns (r: byte)
      requires Wired() && ctrl / 8 % 2 == 0
      modifies this`chip, this`data
      ensures Wired() && r == Clock(old(chip), 0).1 && chip == Clock(old(chip), 0).0
    {
      Write(0);
      r := Get();
    }

    method IrqDisable() returns (r: byte)
      modifies this`irqEn
      ensures r == old(irqEn) && irqEn == 0
    {
      r := irqEn;
      irqEn := 0;
    }

    method IrqRestore(r: byte)
      modifies this`irqEn
      ensures irqEn == r
    {
      irqEn := r;
    }

    // ------------------------------------------------------------ frame building

    /** Ends whatever frame was open and opens a new one with the command byte. */
    method SendCmd(cmd: byte)
      requires Wired()
      modifies this`chip, this`ctrl, this`data
      ensures Sending([cmd])
      ensures chip == Deselect(old(chip)).(selected := true, frame := [cmd])
    {
      High();
      Low();
      Write(cmd);
    }

    method SendAddr(addr: nat)
      requires Wired() && chip.selected && ctrl == 0 && chip.busy == 0
      modifies this`chip, this`data
      ensures Sending(old(chip.frame) + AddrBytes(addr))
      ensures chip == old(chip).(frame := old(chip.frame) + AddrBytes(addr))
      ensures chip.frame == old(chip.frame) + [addr / 65536 % 256, addr / 256 % 256, addr % 256]
    {
      Write(addr / 0x10000 % 256);
      Write(addr / 0x100 % 256);
      Write(addr % 256);
    }

    method SendData(buf: seq<byte>)
      requires Wired() && chip.selected && ctrl == 0 && chip.busy == 0
      modifies this`chip, this`data
      ensures Sending(old(chip.frame) + buf)
      ensures chip == old(chip).(frame := old(chip.frame) + buf)
    {
      ghost var start := chip;
      for i := 0 to |buf|
        invariant Wired()
        invariant chip == start.(frame := start.frame + buf[..i])
      {
        Write(buf[i]);
        assert buf[..i + 1] == buf[..i] + [buf[i]];
      }
      assert buf[..|buf|] == buf;
    }

    /**
     * Ends the open operation frame and polls the status register until the chip is no
     * longer busy; the poll limit is never what stops the loop.
     */
    method WaitDone()
      requires Wired() && Wf(Deselect(chip)) && !Deselect(chip).selected
      requires Deselect(chip).busy <= POLL_LIMIT - 1
      modifies this`chip, this`ctrl, this`data
      ensures Wired() && ctrl == 1
      ensures chip == Poll(Deselect(old(chip)))
    {
      ghost var c := Deselect(chip);
      SendCmd(READ_STATUS_CMD);
      for i := 0 to POLL_LIMIT
        invariant i <= c.busy && Sending([READ_STATUS_CMD] + Zeros(i))
        invariant chip == c.(selected := true, busy := c.busy - i, frame := [READ_STATUS_CMD] + Zeros(i))
      {
        var s := Read();
        assert [READ_STATUS_CMD] + Zeros(i) + [0] == [READ_STATUS_CMD] + Zeros(i + 1);
        if s % 2 == 0 {
          break;
        }
      }
      assert chip == c.(selected := true, busy := 0, frame := [READ_STATUS_CMD] + Zeros(c.busy + 1));
      High();
    }

    // ------------------------------------------------------------ 826x and 8278: common transfer routines

    /** The operation frame the transfer routines build. */
    static function Frame(cmd: byte, addr: nat, addrEn: bool, buf: seq<byte>): seq<byte> {
      [cmd] + (if addrEn then AddrBytes(addr) else []) + buf
    }

    /**
     * One write transaction. On the wire: a write-enable frame, the operation frame, and
     * status polling; afterwards chip select is high and the interrupt enable is restored.
     */
    method WriteRam(cmd: byte, addr: nat, addrEn: bool, buf: seq<byte>)
      requires Idle()
      modifies this
      ensures Idle() && irqEn == old(irqEn)
      ensures chip == Transaction(old(chip), Frame(cmd, addr, addrEn, buf))
      ensures exists polls: nat ::
                chip.log == old(chip.log) + [[0x06], [cmd] + (if addrEn then AddrBytes(addr) else []) + buf, [0x05] + Zeros(polls)]
    {
      ghost var c, f := chip, Frame(cmd, addr, addrEn, buf);
      var r := IrqDisable();
      SendCmd(WRITE_ENABLE_CMD);
      SendCmd(cmd);
      ghost var e := RunFrame(c, [WRITE_ENABLE_CMD]);
      assert chip == e.(selected := true, frame := [cmd]);
      if addrEn {
        SendAddr(addr);
      }
      SendData(buf);
      assert chip == e.(selected := true, frame := f);
      OpenFrames(c, f);
      High();
      WaitDone();
      TransactionPerforms(c, f);
      IrqRestore(r);
    }

    /** Closing the operation frame after write enable is the second step of the transaction. */
    static lemma OpenFrames(c: Chip, f: seq<byte>)
      requires Ready(c)
      ensures var e := RunFrame(c, [WRITE_ENABLE_CMD]);
              var d := Deselect(e.(selected := true, frame := f));
              && Wf(d) && !d.selected && d.busy <= c.latency && Poll(d) == Transaction(c, f)
    {
      var e := RunFrame(c, [WRITE_ENABLE_CMD]);
      assert !Starts([WRITE_ENABLE_CMD]);
      assert e == c.(wel := true, log := c.log + [[WRITE_ENABLE_CMD]]);
      var fs := [[WRITE_ENABLE_CMD], f];
      assert fs[1..] == [f];
      assert RunFrames(e, [f]) == RunFrames(RunFrame(e, f), []) == RunFrame(e, f);
    }

    /** The automatic-mode loop: reads `len` bytes out of the open frame `g`, then chip select high. */
    method Drain(len: nat, ghost g: seq<byte>) returns (buf: seq<byte>)
      requires Wired() && ctrl == 0x0A && chip.selected && chip.busy == 0
      requires g != [] && chip.frame == g + [0] && data == OutByte(chip, g)
      modifies this`chip, this`data
      ensures Wired() && |buf| == len
      ensures chip == old(chip).(frame := g + Zeros(len + 1))
      ensures forall i :: 0 <= i < len ==> buf[i] == OutByte(old(chip), g + Zeros(i))
    {
      ghost var c := chip;
      buf := [];
      assert g + Zeros(0) == g && g + Zeros(1) == g + [0];
      for i := 0 to len
        invariant Wired() && |buf| == i
        invariant chip == c.(frame := g + Zeros(i + 1))
        invariant data == OutByte(c, g + Zeros(i))
        invariant forall k :: 0 <= k < i ==> buf[k] == OutByte(c, g + Zeros(k))
      {
        var b := Get();
        assert g + Zeros(i + 1) + [0] == g + Zeros(i + 2);
        buf := buf + [b];
      }
    }

    /** One read frame: the bytes clocked out after the command, the address and the dummy bytes. */
    method ReadRam(cmd: byte, addr: nat, addrEn: bool, dummyCnt: byte, len: nat) returns (buf: seq<byte>)
      requires Idle() && !Starts(Frame(cmd, addr, addrEn, Zeros(dummyCnt)) + Zeros(len + 1))
      modifies this
      ensures Idle() && irqEn == old(irqEn)
      ensures chip == old(chip).(log := old(chip.log) + [Frame(cmd, addr, addrEn, Zeros(dummyCnt)) + Zeros(len + 1)])
      ensures |buf| == len
      ensures forall i :: 0 <= i < len ==> buf[i] == OutByte(old(chip), Frame(cmd, addr, addrEn, Zeros(dummyCnt)) + Zeros(i))
    {
      ghost var c, f := chip, Frame(cmd, addr, addrEn, Zeros(dummyCnt));
      var r := IrqDisable();
      SendCmd(cmd);
      if addrEn {
        SendAddr(addr);
      }
      SendData(Zeros(dummyCnt));
      assert chip == c.(selected := true, frame := f);
      Write(0);
      CtrlWrite(0x0A);
      buf := Drain(len, f);
      High();
      IrqRestore(r);
    }

    /** A plain read returns the addressed bytes, wrapping at the end of the address space, and changes nothing. */
    method ReadPage(addr: nat, len: nat) returns (buf: seq<byte>)
      requires Idle()
      modifies this
      ensures Idle() && irqEn == old(irqEn)
      ensures chip == old(chip).(log := old(chip.log) + [[0x03] + AddrBytes(addr) + Zeros(len + 1)])
      ensures |buf| == len && forall i :: 0 <= i < len ==> buf[i] == chip.mem[(addr + i) % FLASH_SIZE]
    {
      ghost var c := chip;
      assert Frame(READ_CMD, addr, true, Zeros(0)) == [0x03] + AddrBytes(addr);
      buf := ReadRam(READ_CMD, addr, true, 0, len);
      forall i | 0 <= i < len
        ensures buf[i] == c.mem[(addr + i) % FLASH_SIZE]
      {
        ReadOut(c, addr, i);
      }
    }

    /** Byte number `i` of a read frame comes from address `addr + i`. */
    static lemma ReadOut(c: Chip, addr: nat, i: nat)
      requires Ready(c)
      ensures OutByte(c, Frame(READ_CMD, addr, true, Zeros(0)) + Zeros(i)) == c.mem[(addr + i) % FLASH_SIZE]
    {
      var f := [READ_CMD] + AddrBytes(addr) + Zeros(i);
      assert Frame(READ_CMD, addr, true, Zeros(0)) + Zeros(i) == f;
      AddrRoundTrip(READ_CMD, addr, Zeros(i));
      assert |f| == 4 + i && FrameAddr(f) == addr % FLASH_SIZE;
      ModStep(addr, i);
    }

    static lemma ModStep(a: nat, i: nat)
      ensures (a % FLASH_SIZE + i) % FLASH_SIZE == (a + i) % FLASH_SIZE
    {
    }

    /** Cross-page write: page-bounded transactions that together are one flat write. */
    method WritePage(addr: nat, buf: seq<byte>)
      requires Idle()
      modifies this
      ensures Idle() && irqEn == old(irqEn)
      ensures chip == RunChunks(old(chip), Chunks(addr, buf))
      ensures addr < FLASH_SIZE && addr + |buf| <= FLASH_SIZE ==> Wrote(old(chip), chip, addr, buf)
      ensures addr < FLASH_SIZE && addr + |buf| <= FLASH_SIZE ==>
                forall i :: 0 <= i < FLASH_SIZE ==>
                  chip.mem[i] == if addr <= i < addr + |buf| then And(old(chip.mem)[i], buf[i - addr]) else old(chip.mem)[i]
    {
      ghost var c, whole := chip, Chunks(addr, buf);
      var ns := PAGE_SIZE - addr % PAGE_SIZE;
      var a: nat, rest := addr, buf;
      var first := true;
      while first || rest != []
        invariant Idle() && irqEn == old(irqEn)
        invariant (first || rest != []) ==> ns == PageRoom(a)
        invariant RunChunks(c, whole) == if first || rest != [] then RunChunks(chip, Chunks(a, rest)) else chip
        decreases first, |rest|
      {
        var nw := if |rest| > ns then ns else |rest|;
        ChunksUnfold(a, rest);
        ghost var before := chip;
        WriteRam(WRITE_CMD, a, true, rest[..nw]);
        assert Frame(WRITE_CMD, a, true, rest[..nw]) == ProgramFrame(Chunk(a, rest[..nw]));
        assert RunChunks(before, Chunks(a, rest)) == RunChunks(chip, Chunks(a, rest)[1..]);
        ns := PAGE_SIZE;
        a := a + nw;
        rest := rest[nw..];
        first := false;
      }
      if addr < FLASH_SIZE && addr + |buf| <= FLASH_SIZE {
        SplitWriteRefinesFlat(c, addr, buf);
      }
    }

    // ------------------------------------------------------------ 826x: status registers

    method WriteStatus(kind: StatusType, value: nat)
      requires Idle() && value < 0x10000
      modifies this
      ensures Idle() && irqEn == old(irqEn)
      ensures chip == match kind
                      case EightBit => Transaction(old(chip), [WRITE_STATUS_CMD, value % 256])
                      case SixteenBitOneCmd => Transaction(old(chip), [WRITE_STATUS_CMD, value % 256, value / 256])
                      case SixteenBitTwoCmd => old(chip)
      ensures chip.mem == old(chip.mem)
      ensures chip.srLow == if kind == SixteenBitTwoCmd then old(chip).srLow else value % 256 / 4 * 4
      ensures chip.srHigh == if kind == SixteenBitOneCmd then value / 256 else old(chip).srHigh
    {
      var buf: seq<byte> := [value % 256, value / 256];
      match kind
      case EightBit =>
        assert Frame(WRITE_STATUS_CMD, 0, false, buf[..1]) == [WRITE_STATUS_CMD, value % 256];
        TransactionPerforms(chip, [WRITE_STATUS_CMD, value % 256]);
        WriteRam(WRITE_STATUS_CMD, 0, false, buf[..1]);
      case SixteenBitOneCmd =>
        assert Frame(WRITE_STATUS_CMD, 0, false, buf) == [WRITE_STATUS_CMD, value % 256, value / 256];
        TransactionPerforms(chip, [WRITE_STATUS_CMD, value % 256, value / 256]);
        WriteRam(WRITE_STATUS_CMD, 0, false, buf);
      case SixteenBitTwoCmd =>
    }

    // ------------------------------------------------------------ 8258: hand-written routines

    /** One program command for the whole buffer, with no splitting at page boundaries. */
    method WritePage8258(addr: nat, buf: seq<byte>)
      requires Idle()
      modifies this
      ensures Idle() && irqEn == old(irqEn)
      ensures chip == Transaction(old(chip), ProgramFrame(Chunk(addr, buf)))
      ensures exists polls: nat :: chip.log == old(chip.log) + [[0x06], [0x02] + AddrBytes(addr) + buf, [0x05] + Zeros(polls)]
      ensures addr < FLASH_SIZE && 0 < |buf| <= 256 ==>
                forall i :: 0 <= i < FLASH_SIZE ==>
                  chip.mem[i] == if i / 256 == addr / 256 && (i - addr) % 256 < |buf|
                                 then And(old(chip.mem)[i], buf[(i - addr) % 256]) else old(chip.mem)[i]
    {
      ghost var c, f := chip, ProgramFrame(Chunk(addr, buf));
      var r := IrqDisable();
      SendCmd(WRITE_ENABLE_CMD);
      SendCmd(WRITE_CMD);
      SendAddr(addr);
      SendData(buf);
      assert chip == RunFrame(c, [WRITE_ENABLE_CMD]).(selected := true, frame := f);
      OpenFrames(c, f);
      High();
      WaitDone();
      TransactionPerforms(c, f);
      if addr < FLASH_SIZE && 0 < |buf| <= 256 {
        UnsplitProgram(c, addr, buf);
      }
      IrqRestore(r);
    }

    /** The sector, page, 32K and 64K erase routines differ only in the command byte; `n` is the size of their block. */
    method Erase8258(cmd: byte, addr: nat, ghost n: nat)
      requires Idle() && EraseCommand(cmd, n)
      modifies this
      ensures Idle() && irqEn == old(irqEn)
      ensures chip == Transaction(old(chip), [cmd] + AddrBytes(addr)) && !chip.wel
      ensures exists polls: nat :: chip.log == old(chip.log) + [[0x06], [cmd] + AddrBytes(addr), [0x05] + Zeros(polls)]
      ensures var lo := addr % FLASH_SIZE / n * n;
              forall i :: 0 <= i < FLASH_SIZE ==> chip.mem[i] == if lo <= i < lo + n then 0xFF else old(chip.mem)[i]
    {
      ghost var c, f := chip, [cmd] + AddrBytes(addr);
      ErasedBlock(chip.mem, addr % FLASH_SIZE, cmd, n);
      var r := IrqDisable();
      SendCmd(WRITE_ENABLE_CMD);
      SendCmd(cmd);
      SendAddr(addr);
      assert chip == RunFrame(c, [WRITE_ENABLE_CMD]).(selected := true, frame := f);
      OpenFrames(c, f);
      High();
      WaitDone();
      TransactionPerforms(c, f);
      PerformErase(c, cmd, addr);
      IrqRestore(r);
    }

    method EraseChip8258()
      requires Idle()
      modifies this
      ensures Idle() && irqEn == old(irqEn)
      ensures chip == Transaction(old(chip), [CHIP_ERASE_CMD])
      ensures exists polls: nat :: chip.log == old(chip.log) + [[0x06], [0x60], [0x05] + Zeros(polls)]
      ensures forall i :: 0 <= i < FLASH_SIZE ==> chip.mem[i] == 0xFF
    {
      ghost var c, f := chip, [CHIP_ERASE_CMD];
      var r := IrqDisable();
      SendCmd(WRITE_ENABLE_CMD);
      SendCmd(CHIP_ERASE_CMD);
      OpenFrames(c, f);
      High();
      WaitDone();
      TransactionPerforms(c, f);
      IrqRestore(r);
    }

    /** Low byte then high byte in one status-write frame. */
    method WriteStatus16(value: nat)
      requires Idle() && value < 0x10000
      modifies this
      ensures Idle() && irqEn == old(irqEn)
      ensures chip == Transaction(old(chip), [WRITE_STATUS_CMD, value % 256, value / 256])
      ensures chip.mem == old(chip.mem) && chip.srLow == value % 256 / 4 * 4 && chip.srHigh == value / 256
      ensures exists polls: nat :: chip.log == old(chip.log) + [[0x06], [0x01, value % 256, value / 256], [0x05] + Zeros(polls)]
    {
      ghost var c, f := chip, [WRITE_STATUS_CMD, value % 256, value / 256];
      var r := IrqDisable();
      SendCmd(WRITE_ENABLE_CMD);
      SendCmd(WRITE_STATUS_CMD);
      Write(value % 256);
      Write(value / 256);
      assert chip == RunFrame(c, [WRITE_ENABLE_CMD]).(selected := true, frame := f);
      OpenFrames(c, f);
      High();
      WaitDone();
      TransactionPerforms(c, f);
      High();
      IrqRestore(r);
    }

    /** Two read frames: high register first, then the low one with its live busy and latch bits. */
    method ReadStatus16() returns (value: nat)
      requires Idle()
      modifies this
      ensures Idle() && irqEn == old(irqEn)
      ensures chip == old(chip).(log := old(chip.log) + [[READ_STATUS_HIGH_CMD, 0], [READ_STATUS_CMD, 0]])
      ensures value == 256 * old(chip).srHigh + Status(old(chip))
    {
      ghost var c := chip;
      var r := IrqDisable();
      SendCmd(READ_STATUS_HIGH_CMD);
      var hi := Read();
      assert [READ_STATUS_HIGH_CMD] + [0] == [READ_STATUS_HIGH_CMD, 0];
      High();
      assert chip == c.(log := c.log + [[READ_STATUS_HIGH_CMD, 0]]);
      SendCmd(READ_STATUS_CMD);
      var lo := Read();
      assert [READ_STATUS_CMD] + [0] == [READ_STATUS_CMD, 0];
      High();
      assert chip.log == c.log + [[READ_STATUS_HIGH_CMD, 0]] + [[READ_STATUS_CMD, 0]];
      IrqRestore(r);
      var h: int := hi;
      value := h * 256 + lo;
    }

    // ------------------------------------------------------------ page splitting above the 8258 driver

    /** The configuration store splits at page boundaries itself, which repairs the unsplit program routine. */
    method CfsFlashWrite(addr: nat, buf: seq<byte>)
      requires Idle()
      modifies this
      ensures Idle() && irqEn == old(irqEn)
      ensures chip == RunChunks(old(chip), Chunks(addr, buf))
      ensures addr < FLASH_SIZE && addr + |buf| <= FLASH_SIZE ==> Wrote(old(chip), chip, addr, buf)
      ensures addr < FLASH_SIZE && addr + |buf| <= FLASH_SIZE ==>
                forall i :: 0 <= i < FLASH_SIZE ==>
                  chip.mem[i] == if addr <= i < addr + |buf| then And(old(chip.mem)[i], buf[i - addr]) else old(chip.mem)[i]
    {
      ghost var c, whole := chip, Chunks(addr, buf);
      var re := addr % 256;
      var pageReLen := if re > 0 then 256 - re else 256;
      var a: nat, rest := addr, buf;
      var remainLen := |buf|;
      var first := true;
      while first || remainLen > 0
        invariant Idle() && irqEn == old(irqEn) && |rest| == remainLen
        invariant (first || remainLen > 0) ==> pageReLen == PageRoom(a)
        invariant RunChunks(c, whole) == if first || remainLen > 0 then RunChunks(chip, Chunks(a, rest)) else chip
        decreases first, remainLen
      {
        var writeLen := remainLen;
        if remainLen <= pageReLen {
          remainLen := 0;
        } else {
          remainLen := remainLen - pageReLen;
          writeLen := pageReLen;
          pageReLen := 256;
        }
        ChunksUnfold(a, rest);
        ghost var before := chip;
        WritePage8258(a, rest[..writeLen]);
        assert RunChunks(before, Chunks(a, rest)) == RunChunks(chip, Chunks(a, rest)[1..]);
        rest := rest[writeLen..];
        a := a + writeLen;
        first := false;
      }
      if addr < FLASH_SIZE && addr + |buf| <= FLASH_SIZE {
        SplitWriteRefinesFlat(c, addr, buf);
      }
    }
  }
}
