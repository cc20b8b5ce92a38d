/** What whole transactions do to the chip, and the flat memory write they are meant to implement. */
module FlashTheory {
  import opened Bits
  import opened NorChip

  function Zeros(n: nat): (z: seq<byte>)
    ensures |z| == n
  {
    seq(n, i => 0)
  }

  /** The chip after a complete frame `f`, chip select low to high. */
  function RunFrame(c: Chip, f: seq<byte>): (r: Chip)
    requires |c.mem| == FLASH_SIZE
    ensures |r.mem| == FLASH_SIZE
  {
    Deselect(c.(selected := true, frame := f))
  }

  function RunFrames(c: Chip, fs: seq<seq<byte>>): (r: Chip)
    requires |c.mem| == FLASH_SIZE
    ensures |r.mem| == FLASH_SIZE
    decreases |fs|
  {
    if fs == [] then c else RunFrames(RunFrame(c, fs[0]), fs[1..])
  }

  /** Status polling until the first byte that reads "not busy". */
  function Poll(c: Chip): Chip {
    c.(busy := 0, log := c.log + [[READ_STATUS_CMD] + Zeros(c.busy + 1)])
  }

  /** Write enable, then the operation frame, then polling to completion. */
  function Transaction(c: Chip, f: seq<byte>): Chip
    requires |c.mem| == FLASH_SIZE
  {
    Poll(RunFrames(c, [[WRITE_ENABLE_CMD], f]))
  }

  /**
   * On a ready chip a transaction performs exactly its operation frame: the latch is set
   * when the frame arrives, nothing is ignored as busy, and three frames cross the bus.
   */
  lemma TransactionPerforms(c: Chip, f: seq<byte>)
    requires Ready(c)
    ensures var r := Transaction(c, f);
            && Ready(r) && r.latency == c.latency
            && r.mem == (if Starts(f) then Perform(c, f).mem else c.mem)
            && r.srLow == (if Starts(f) then Perform(c, f).srLow else c.srLow)
            && r.srHigh == (if Starts(f) then Perform(c, f).srHigh else c.srHigh)
            && r.wel == !Starts(f)
            && r.log == c.log + [[WRITE_ENABLE_CMD], f,
                                 [READ_STATUS_CMD] + Zeros(if Starts(f) then c.latency + 1 else 1)]
  {
    var e := RunFrame(c, [WRITE_ENABLE_CMD]);
    assert !Starts([WRITE_ENABLE_CMD]);
    assert e == c.(wel := true, log := c.log + [[WRITE_ENABLE_CMD]]);
    var fs := [[WRITE_ENABLE_CMD], f];
    assert fs[1..] == [f];
    var p := RunFrame(e, f);
    assert RunFrames(e, [f]) == RunFrames(p, []) == p;
    assert p.log == c.log + [[WRITE_ENABLE_CMD]] + [f];
  }

  // ---------------------------------------------------------------- the flat write

  /** The write a caller asks for: old AND data over [addr, addr+|data|), nothing else touched. */
  function FlatWrite(mem: seq<byte>, addr: nat, data: seq<byte>): (r: seq<byte>)
    requires |mem| == FLASH_SIZE
    ensures |r| == FLASH_SIZE
  {
    seq(FLASH_SIZE, i requires 0 <= i < FLASH_SIZE =>
      if addr <= i < addr + |data| then And(mem[i], data[i - addr]) else mem[i])
  }

  lemma FlatWriteSplit(mem: seq<byte>, addr: nat, d1: seq<byte>, d2: seq<byte>)
    requires |mem| == FLASH_SIZE
    ensures FlatWrite(FlatWrite(mem, addr, d1), addr + |d1|, d2) == FlatWrite(mem, addr, d1 + d2)
  {
  }

  /** As long as the stream does not pass the end of the page, each byte lands in its own slot. */
  lemma {:induction false} LatchFits(buf: seq<byte>, off: nat, data: seq<byte>)
    requires |buf| == PAGE_SIZE && off + |data| <= PAGE_SIZE && off < PAGE_SIZE
    ensures forall j :: 0 <= j < PAGE_SIZE ==>
              Latch(buf, off, data)[j] == if off <= j < off + |data| then data[j - off] else buf[j]
    decreases |data|
  {
    if |data| == 1 {
      assert Latch(buf, off, data) == Latch(buf[off := data[0]], (off + 1) % PAGE_SIZE, []);
    } else if |data| > 1 {
      LatchFits(buf[off := data[0]], off + 1, data[1..]);
    }
  }

  /**
   * A longer stream goes around: its byte `j` ends up in slot (off + j) modulo 256, unless a byte
   * 256 places later overwrites it there.
   */
  lemma {:induction false} LatchWraps(buf: seq<byte>, off: nat, data: seq<byte>, j: nat)
    requires |buf| == PAGE_SIZE && off < PAGE_SIZE && j < |data| <= j + 256
    ensures Latch(buf, off, data)[(off + j) % 256] == data[j]
    decreases |data|
  {
    var b, o, d := buf[off := data[0]], (off + 1) % PAGE_SIZE, data[1..];
    if j > 0 {
      assert (o + (j - 1)) % 256 == (off + j) % 256;
      LatchWraps(b, o, d, j - 1);
    } else {
      LatchKeeps(b, o, d, off);
    }
  }

  /** Slots the stream does not reach keep their byte. */
  lemma {:induction false} LatchKeeps(buf: seq<byte>, off: nat, data: seq<byte>, slot: nat)
    requires |buf| == PAGE_SIZE && off < PAGE_SIZE && slot < PAGE_SIZE
    requires |data| <= (slot - off) % 256
    ensures Latch(buf, off, data)[slot] == buf[slot]
    decreases |data|
  {
    if data != [] {
      LatchKeeps(buf[off := data[0]], (off + 1) % PAGE_SIZE, data[1..], slot);
    }
  }

  /**
   * A program command of up to a page, wherever it starts: every byte lands in the page of its address, at the
   * offset counted around the page, the other bytes of the page and all other pages stay.
   */
  lemma PageProgramWraps(mem: seq<byte>, addr: nat, data: seq<byte>, i: nat)
    requires |mem| == FLASH_SIZE && addr < FLASH_SIZE && |data| <= 256 && i < FLASH_SIZE
    ensures var j := (i - addr) % 256;
            PageProgram(mem, addr, data)[i] == if i / 256 == addr / 256 && j < |data| then And(mem[i], data[j]) else mem[i]
  {
    var off, j := addr % 256, (i - addr) % 256;
    if i / 256 == addr / 256 {
      assert j == (i % 256 - off) % 256;
      if j < |data| {
        assert (off + j) % 256 == i % 256;
        LatchWraps(ErasedPage(), off, data, j);
      } else {
        LatchKeeps(ErasedPage(), off, data, i % 256);
        AndErased(mem[i]);
      }
    }
  }

  /** A page program that stays inside its page is a flat write. */
  lemma PageProgramFits(mem: seq<byte>, addr: nat, data: seq<byte>)
    requires |mem| == FLASH_SIZE && addr < FLASH_SIZE
    requires addr % PAGE_SIZE + |data| <= PAGE_SIZE
    ensures PageProgram(mem, addr, data) == FlatWrite(mem, addr, data)
  {
    var off := addr % PAGE_SIZE;
    LatchFits(ErasedPage(), off, data);
    var p, w := PageProgram(mem, addr, data), FlatWrite(mem, addr, data);
    forall i | 0 <= i < FLASH_SIZE
      ensures p[i] == w[i]
    {
      if i / PAGE_SIZE == addr / PAGE_SIZE {
        var j := i % PAGE_SIZE;
        assert i - addr == j - off;
        AndErased(mem[i]);
      }
    }
  }

  /**
   * An unsplit program command implements the flat write for every memory and every data
   * of its length exactly when the range stays inside one page.
   */
  lemma UnsplitExactlyWithinPage(addr: nat, n: nat)
    requires addr + n <= FLASH_SIZE && n > 0
    ensures (forall mem: seq<byte>, data: seq<byte> :: |mem| == FLASH_SIZE && |data| == n ==>
               PageProgram(mem, addr, data) == FlatWrite(mem, addr, data))
            <==> addr % PAGE_SIZE + n <= PAGE_SIZE
  {
    if addr % PAGE_SIZE + n <= PAGE_SIZE {
      forall mem: seq<byte>, data: seq<byte> | |mem| == FLASH_SIZE && |data| == n
        ensures PageProgram(mem, addr, data) == FlatWrite(mem, addr, data)
      {
        PageProgramFits(mem, addr, data);
      }
    } else {
      var mem: seq<byte> := seq(FLASH_SIZE, i => 0xFF);
      var data: seq<byte> := Zeros(n);
      var last := addr + n - 1;
      assert last / PAGE_SIZE != addr / PAGE_SIZE;
      AndErased(0);
      assert PageProgram(mem, addr, data)[last] == 0xFF;
      assert FlatWrite(mem, addr, data)[last] == 0;
    }
  }

  // ---------------------------------------------------------------- splitting at page boundaries

  datatype Chunk = Chunk(addr: nat, data: seq<byte>)

  function PageRoom(addr: nat): (n: nat)
    ensures 0 < n <= PAGE_SIZE
  {
    PAGE_SIZE - addr % PAGE_SIZE
  }

  /** The pieces the write loops send, in order; an empty request still sends one empty piece. */
  function Chunks(addr: nat, data: seq<byte>): (cs: seq<Chunk>)
    ensures |cs| > 0
    decreases |data|
  {
    var n := if |data| > PageRoom(addr) then PageRoom(addr) else |data|;
    [Chunk(addr, data[..n])] + (if n == |data| then [] else Chunks(addr + n, data[n..]))
  }

  function ProgramFrame(k: Chunk): seq<byte> {
    [WRITE_CMD] + AddrBytes(k.addr) + k.data
  }

  /** One program transaction per piece. */
  function RunChunks(c: Chip, cs: seq<Chunk>): Chip
    requires |c.mem| == FLASH_SIZE
    decreases |cs|
  {
    if cs == [] then c else RunChunks(Transaction(c, ProgramFrame(cs[0])), cs[1..])
  }

  function Joined(cs: seq<Chunk>): seq<byte> {
    if cs == [] then [] else cs[0].data + Joined(cs[1..])
  }

  /** How a list of pieces unfolds: the first piece stays in its page; any further piece starts a fresh page. */
  lemma ChunksUnfold(addr: nat, data: seq<byte>)
    ensures var cs, n := Chunks(addr, data), |Chunks(addr, data)[0].data|;
            && n <= |data| && n <= PageRoom(addr) && cs[0] == Chunk(addr, data[..n])
            && addr % PAGE_SIZE + n <= PAGE_SIZE
            && (n == |data| ==> cs[1..] == [])
            && (n < |data| ==> n > 0 && (addr + n) % PAGE_SIZE == 0 && cs[1..] == Chunks(addr + n, data[n..]))
  {
    var n := if |data| > PageRoom(addr) then PageRoom(addr) else |data|;
    assert |data[..n]| == n;
    if n < |data| {
      assert addr + n == (addr / PAGE_SIZE + 1) * PAGE_SIZE;
    }
  }

  /** Piece `i` stays inside one page and begins where the previous one ended. */
  ghost predicate InOnePage(k: Chunk) {
    k.addr % PAGE_SIZE + |k.data| <= PAGE_SIZE
  }

  ghost predicate Adjacent(cs: seq<Chunk>, addr: nat)
    decreases |cs|
  {
    cs != [] ==> cs[0].addr == addr && Adjacent(cs[1..], addr + |cs[0].data|)
  }

  /** Each piece lies in one page, the pieces are adjacent, and together they are the input. */
  lemma {:induction false} ChunksPartition(addr: nat, data: seq<byte>)
    ensures Joined(Chunks(addr, data)) == data
    ensures Adjacent(Chunks(addr, data), addr)
    ensures forall k :: k in Chunks(addr, data) ==> InOnePage(k)
    decreases |data|
  {
    var cs := Chunks(addr, data);
    ChunksUnfold(addr, data);
    assert cs == [cs[0]] + cs[1..];
    var n := |cs[0].data|;
    if n < |data| {
      ChunksPartition(addr + n, data[n..]);
      assert data == data[..n] + data[n..];
    } else {
      assert Joined(cs[1..]) == [];
    }
  }

  /** What the chip decodes from a program frame is what the driver encoded. */
  lemma ProgramFrameDecodes(k: Chunk)
    ensures var f := ProgramFrame(k);
            && f[0] == WRITE_CMD && |f| == 4 + |k.data|
            && FrameAddr(f) == k.addr % FLASH_SIZE && f[4..] == k.data
  {
    AddrRoundTrip(WRITE_CMD, k.addr, k.data);
  }

  lemma PerformProgram(c: Chip, k: Chunk)
    requires |c.mem| == FLASH_SIZE && k.addr < FLASH_SIZE && k.data != []
    ensures Starts(ProgramFrame(k))
    ensures Perform(c, ProgramFrame(k)) == c.(mem := PageProgram(c.mem, k.addr, k.data))
  {
    ProgramFrameDecodes(k);
    var f := ProgramFrame(k);
    assert FrameAddr(f) == k.addr && f[4..] == k.data;
  }

  lemma FlatWriteNothing(mem: seq<byte>, addr: nat)
    requires |mem| == FLASH_SIZE
    ensures FlatWrite(mem, addr, []) == mem
  {
  }

  /** `r` is `c` after a flat write of `data` at `addr`, ready again; the latch stays set only if nothing was sent. */
  ghost predicate Wrote(c: Chip, r: Chip, addr: nat, data: seq<byte>) {
    && Ready(c) && Ready(r)
    && r.latency == c.latency && r.srLow == c.srLow && r.srHigh == c.srHigh
    && r.mem == FlatWrite(c.mem, addr, data)
    && r.wel == (data == [])
  }

  /** A program transaction whose data stays inside one page. */
  lemma ProgramTransaction(c: Chip, k: Chunk)
    requires Ready(c) && k.addr < FLASH_SIZE && InOnePage(k)
    ensures Wrote(c, Transaction(c, ProgramFrame(k)), k.addr, k.data)
  {
    var f := ProgramFrame(k);
    TransactionPerforms(c, f);
    if k.data == [] {
      FlatWriteNothing(c.mem, k.addr);
    } else {
      PerformProgram(c, k);
      PageProgramFits(c.mem, k.addr, k.data);
    }
  }

  /** What one program command of up to a page does to every byte, wherever it starts. */
  lemma UnsplitProgram(c: Chip, addr: nat, data: seq<byte>)
    requires Ready(c) && addr < FLASH_SIZE && 0 < |data| <= 256
    ensures forall i :: 0 <= i < FLASH_SIZE ==>
              Transaction(c, ProgramFrame(Chunk(addr, data))).mem[i] ==
              if i / 256 == addr / 256 && (i - addr) % 256 < |data| then And(c.mem[i], data[(i - addr) % 256]) else c.mem[i]
  {
    TransactionPerforms(c, ProgramFrame(Chunk(addr, data)));
    PerformProgram(c, Chunk(addr, data));
    forall i | 0 <= i < FLASH_SIZE
      ensures PageProgram(c.mem, addr, data)[i] ==
              if i / 256 == addr / 256 && (i - addr) % 256 < |data| then And(c.mem[i], data[(i - addr) % 256]) else c.mem[i]
    {
      PageProgramWraps(c.mem, addr, data, i);
    }
  }

  lemma WroteThen(c: Chip, c1: Chip, r: Chip, addr: nat, data: seq<byte>, n: nat)
    requires n < |data|
    requires Wrote(c, c1, addr, data[..n]) && Wrote(c1, r, addr + n, data[n..])
    ensures Wrote(c, r, addr, data)
  {
    FlatWriteSplit(c.mem, addr, data[..n], data[n..]);
    assert data[..n] + data[n..] == data;
  }

  /** The split write, run through complete bus transactions, is the flat write. */
  lemma {:induction false} SplitWriteRefinesFlat(c: Chip, addr: nat, data: seq<byte>)
    requires Ready(c) && addr < FLASH_SIZE && addr + |data| <= FLASH_SIZE
    ensures Wrote(c, RunChunks(c, Chunks(addr, data)), addr, data)
    decreases |data|
  {
    var cs := Chunks(addr, data);
    ChunksUnfold(addr, data);
    var n := |cs[0].data|;
    ProgramTransaction(c, cs[0]);
    var c1 := Transaction(c, ProgramFrame(cs[0]));
    var r := RunChunks(c1, cs[1..]);
    assert RunChunks(c, cs) == r;
    if n < |data| {
      SplitWriteRefinesFlat(c1, addr + n, data[n..]);
      WroteThen(c, c1, r, addr, data, n);
    } else {
      assert data[..n] == data;
    }
  }

  /** Page, sector, 32K and 64K erase commands, and how much they erase. */
  predicate EraseCommand(cmd: byte, n: nat) {
    (cmd == 0x81 && n == 0x100) || (cmd == 0x20 && n == 0x1000) || (cmd == 0x52 && n == 0x8000) || (cmd == 0xD8 && n == 0x10000)
  }

  /** Exactly the aligned block of the address is erased. */
  lemma ErasedBlock(mem: seq<byte>, addr: nat, cmd: byte, n: nat)
    requires |mem| == FLASH_SIZE && EraseCommand(cmd, n)
    ensures EraseSize(cmd) == n
    ensures var lo := addr / n * n;
            forall i :: 0 <= i < FLASH_SIZE ==> EraseBlock(mem, addr, n)[i] == if lo <= i < lo + n then 0xFF else mem[i]
  {
  }

  lemma PerformErase(c: Chip, cmd: byte, addr: nat)
    requires |c.mem| == FLASH_SIZE && EraseSize(cmd) > 0
    ensures var f := [cmd] + AddrBytes(addr);
            Starts(f) && Perform(c, f) == c.(mem := EraseBlock(c.mem, addr % FLASH_SIZE, EraseSize(cmd)))
  {
    AddrRoundTrip(cmd, addr, []);
    var f := [cmd] + AddrBytes(addr);
    assert f + [] == f;
  }

  /** The status word reads back as written, except for the two live bits (busy and write latch), which read zero. */
  lemma StatusWordRoundTrip(c: Chip, value: nat)
    requires Ready(c) && value < 0x10000
    ensures Transaction(c, [WRITE_STATUS_CMD, value % 256, value / 256]).srLow == value % 256 / 4 * 4
    ensures Transaction(c, [WRITE_STATUS_CMD, value % 256, value / 256]).srHigh == value / 256
    ensures var r := Transaction(c, [WRITE_STATUS_CMD, value % 256, value / 256]);
            256 * r.srHigh + Status(r) == value / 4 * 4 && r.mem == c.mem
  {
    TransactionPerforms(c, [WRITE_STATUS_CMD, value % 256, value / 256]);
  }

  /** Reading back what was written over an erased range returns the data. */
  lemma ErasedWriteReadsBack(mem: seq<byte>, addr: nat, data: seq<byte>)
    requires |mem| == FLASH_SIZE && addr + |data| <= FLASH_SIZE
    requires forall i :: addr <= i < addr + |data| ==> mem[i] == 0xFF
    ensures FlatWrite(mem, addr, data)[addr..addr + |data|] == data
  {
    var w := FlatWrite(mem, addr, data);
    forall i | 0 <= i < |data|
      ensures w[addr + i] == data[i]
    {
      AndErased(data[i]);
    }
  }
}
