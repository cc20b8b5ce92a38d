/** The device's extended address: generated once, stored rotated in flash, and read back on every later boot. */
module IeeeAddr {
  import opened Bits
  import opened NorChip
  import opened FlashTheory
  import opened FlashDriver

  /** Telink address range appended to five random bytes. */
  const START_IEEE_ADDR: seq<byte> := [0x38, 0xC1, 0xA4]

  predicate Blank(area: seq<byte>) {
    forall i :: 0 <= i < |area| ==> area[i] == 0xFF
  }

  /** The vendor prefixes that mark a stored address as rotated by two bytes. */
  predicate StoredRotated(area: seq<byte>)
    requires |area| == 8
  {
    area[3..6] == [0x38, 0xC1, 0xA4] || area[3..6] == [0xD1, 0x19, 0xC4] || area[3..6] == [0xCB, 0x0B, 0xD8]
  }

  function Rotate(addr: seq<byte>): (r: seq<byte>)
    requires |addr| == 8
    ensures |r| == 8
  {
    addr[2..] + addr[..2]
  }

  function Unrotate(area: seq<byte>): (r: seq<byte>)
    requires |area| == 8
    ensures |r| == 8
  {
    area[6..] + area[..6]
  }

  function Area(mem: seq<byte>, base: nat): (a: seq<byte>)
    requires |mem| == FLASH_SIZE && base + 8 <= FLASH_SIZE
    ensures |a| == 8
  {
    mem[base..base + 8]
  }

  datatype BootResult = BootResult(mem: seq<byte>, addr: seq<byte>)

  /** What one boot leaves in flash and which address the device uses. */
  function Boot(mem: seq<byte>, base: nat, rnd: seq<byte>): (r: BootResult)
    requires |mem| == FLASH_SIZE && base + 8 <= FLASH_SIZE && |rnd| == 5
    ensures |r.mem| == FLASH_SIZE && |r.addr| == 8
  {
    var area := Area(mem, base);
    if Blank(area) then
      var addr := rnd + START_IEEE_ADDR;
      BootResult(mem[..base] + Rotate(addr) + mem[base + 8..], addr)
    else
      BootResult(mem, if StoredRotated(area) then Unrotate(area) else area)
  }

  /** A blank area programmed in two adjacent pieces holds their concatenation; nothing else moves. */
  lemma BlankAreaWritten(mem: seq<byte>, base: nat, d1: seq<byte>, d2: seq<byte>)
    requires |mem| == FLASH_SIZE && base + 8 <= FLASH_SIZE && |d1| + |d2| == 8
    requires Blank(Area(mem, base))
    ensures FlatWrite(FlatWrite(mem, base, d1), base + |d1|, d2) == mem[..base] + (d1 + d2) + mem[base + 8..]
  {
    var d := d1 + d2;
    FlatWriteSplit(mem, base, d1, d2);
    var w, want := FlatWrite(mem, base, d), mem[..base] + d + mem[base + 8..];
    forall i | 0 <= i < FLASH_SIZE
      ensures w[i] == want[i]
    {
      if base <= i < base + 8 {
        assert mem[i] == Area(mem, base)[i - base];
        AndErased(d[i - base]);
      }
    }
  }

  /** Writing through the driver of the chip at hand: split at page boundaries, or one 8258 program command. */
  method FlashWrite(bus: Mspi, unsplit: bool, addr: nat, buf: seq<byte>)
    requires bus.Idle() && buf != [] && addr + |buf| <= FLASH_SIZE
    requires unsplit ==> addr % PAGE_SIZE + |buf| <= PAGE_SIZE
    modifies bus
    ensures bus.Idle() && bus.irqEn == old(bus.irqEn)
    ensures bus.chip.mem == FlatWrite(old(bus.chip.mem), addr, buf)
    ensures forall i :: 0 <= i < FLASH_SIZE ==>
              bus.chip.mem[i] == if addr <= i < addr + |buf| then And(old(bus.chip.mem)[i], buf[i - addr]) else old(bus.chip.mem)[i]
  {
    ghost var c := bus.chip;
    if unsplit {
      bus.WritePage8258(addr, buf);
      ProgramTransaction(c, Chunk(addr, buf));
    } else {
      bus.WritePage(addr, buf);
    }
  }

  /** The two writes of a first boot: bytes 2 to 7, then bytes 0 and 1. */
  method StoreAddress(bus: Mspi, unsplit: bool, base: nat, addr: seq<byte>)
    requires bus.Idle() && base + 8 <= FLASH_SIZE && |addr| == 8
    requires unsplit ==> base % PAGE_SIZE + 8 <= PAGE_SIZE
    requires Blank(Area(bus.chip.mem, base))
    modifies bus
    ensures bus.Idle() && bus.irqEn == old(bus.irqEn)
    ensures bus.chip.mem == old(bus.chip.mem[..base]) + Rotate(addr) + old(bus.chip.mem[base + 8..])
  {
    ghost var mem := bus.chip.mem;
    FlashWrite(bus, unsplit, base, addr[2..]);
    FlashWrite(bus, unsplit, base + 6, addr[..2]);
    BlankAreaWritten(mem, base, addr[2..], addr[..2]);
  }

  /**
   * The rule of a boot, byte by byte: a blank area gets the new address, stored with its first two bytes
   * last; any other flash stays as it is, and the address is the stored one, turned back if and only
   * if bytes 3 to 5 are one of the three vendor prefixes.
   */
  ghost predicate BootRule(before: seq<byte>, after: seq<byte>, base: nat, rnd: seq<byte>, addr: seq<byte>)
    requires |before| == |after| == FLASH_SIZE && base + 8 <= FLASH_SIZE && |rnd| == 5
  {
    var area := before[base..base + 8];
    var p := area[3..6];
    if area == [0xFF, 0xFF, 0xFF, 0xFF, 0xFF, 0xFF, 0xFF, 0xFF] then
      && addr == rnd + [0x38, 0xC1, 0xA4]
      && after == before[..base] + [rnd[2], rnd[3], rnd[4], 0x38, 0xC1, 0xA4, rnd[0], rnd[1]] + before[base + 8..]
    else
      && after == before
      && addr == if p == [0x38, 0xC1, 0xA4] || p == [0xD1, 0x19, 0xC4] || p == [0xCB, 0x0B, 0xD8] then area[6..] + area[..6] else area
  }

  lemma BootFollowsRule(mem: seq<byte>, base: nat, rnd: seq<byte>)
    requires |mem| == FLASH_SIZE && base + 8 <= FLASH_SIZE && |rnd| == 5
    ensures BootRule(mem, Boot(mem, base, rnd).mem, base, rnd, Boot(mem, base, rnd).addr)
  {
    BlankIsEight(Area(mem, base));
    assert Rotate(rnd + START_IEEE_ADDR) == [rnd[2], rnd[3], rnd[4], 0x38, 0xC1, 0xA4, rnd[0], rnd[1]];
  }

  lemma BlankIsEight(area: seq<byte>)
    requires |area| == 8
    ensures Blank(area) <==> area == [0xFF, 0xFF, 0xFF, 0xFF, 0xFF, 0xFF, 0xFF, 0xFF]
  {
    var full: seq<byte> := [0xFF, 0xFF, 0xFF, 0xFF, 0xFF, 0xFF, 0xFF, 0xFF];
    assert forall i :: 0 <= i < 8 ==> full[i] == 0xFF;
  }

  /** `rnd` is what the random generator delivers on this boot. */
  method GenerateIeeeAddr(bus: Mspi, unsplit: bool, base: nat, rnd: seq<byte>) returns (addr: seq<byte>)
    requires bus.Idle() && base + 8 <= FLASH_SIZE && |rnd| == 5
    requires unsplit ==> base % PAGE_SIZE + 8 <= PAGE_SIZE
    modifies bus
    ensures bus.Idle() && bus.irqEn == old(bus.irqEn)
    ensures BootResult(bus.chip.mem, addr) == Boot(old(bus.chip.mem), base, rnd)
    ensures BootRule(old(bus.chip.mem), bus.chip.mem, base, rnd, addr)
  {
    BootFollowsRule(bus.chip.mem, base, rnd);
    addr := ReadOrStore(bus, unsplit, base, rnd);
  }

  method ReadOrStore(bus: Mspi, unsplit: bool, base: nat, rnd: seq<byte>) returns (addr: seq<byte>)
    requires bus.Idle() && base + 8 <= FLASH_SIZE && |rnd| == 5
    requires unsplit ==> base % PAGE_SIZE + 8 <= PAGE_SIZE
    modifies bus
    ensures bus.Idle() && bus.irqEn == old(bus.irqEn)
    ensures BootResult(bus.chip.mem, addr) == Boot(old(bus.chip.mem), base, rnd)
  {
    ghost var mem := bus.chip.mem;
    addr := bus.ReadPage(base, 8);
    assert addr == Area(mem, base);
    if Blank(addr) {
      addr := rnd + addr[5..];
      addr := addr[..5] + START_IEEE_ADDR;
      assert addr == rnd + START_IEEE_ADDR;
      StoreAddress(bus, unsplit, base, addr);
    } else if StoredRotated(addr) {
      ghost var area := addr;
      var hi := bus.ReadPage(base, 6);
      assert hi == area[..6];
      addr := addr[..2] + hi;
      var lo := bus.ReadPage(base + 6, 2);
      assert lo == area[6..];
      addr := lo + addr[2..];
      assert addr == Unrotate(area);
    }
  }

  // ---------------------------------------------------------------- any number of boots

  /** The addresses used by consecutive boots; `rnds` holds what the generator would deliver on each. */
  function Boots(mem: seq<byte>, base: nat, rnds: seq<seq<byte>>): (addrs: seq<seq<byte>>)
    requires |mem| == FLASH_SIZE && base + 8 <= FLASH_SIZE
    requires forall r :: r in rnds ==> |r| == 5
    ensures |addrs| == |rnds|
    decreases |rnds|
  {
    if rnds == [] then []
    else
      var b := Boot(mem, base, rnds[0]);
      [b.addr] + Boots(b.mem, base, rnds[1..])
  }

  /** The stored form is recognised, is not blank, and turns back into the address. */
  lemma RotationRoundTrip(rnd: seq<byte>)
    requires |rnd| == 5
    ensures var stored := Rotate(rnd + START_IEEE_ADDR);
            !Blank(stored) && StoredRotated(stored) && Unrotate(stored) == rnd + START_IEEE_ADDR
  {
    var stored := Rotate(rnd + START_IEEE_ADDR);
    assert stored[3] == 0x38;
    assert stored[3..6] == START_IEEE_ADDR;
  }

  /** A second boot changes nothing, whatever the flash held before and whatever the generator says. */
  lemma BootSettles(mem: seq<byte>, base: nat, rnd: seq<byte>, rnd2: seq<byte>)
    requires |mem| == FLASH_SIZE && base + 8 <= FLASH_SIZE && |rnd| == 5 && |rnd2| == 5
    ensures Boot(Boot(mem, base, rnd).mem, base, rnd2) == Boot(mem, base, rnd)
  {
    var b := Boot(mem, base, rnd);
    if Blank(Area(mem, base)) {
      assert Area(b.mem, base) == Rotate(rnd + START_IEEE_ADDR);
      RotationRoundTrip(rnd);
    }
  }

  /** Every boot uses the address of the first one, for any initial flash contents. */
  lemma {:induction false} AddressPersists(mem: seq<byte>, base: nat, rnds: seq<seq<byte>>)
    requires |mem| == FLASH_SIZE && base + 8 <= FLASH_SIZE
    requires forall r :: r in rnds ==> |r| == 5
    ensures forall i :: 0 <= i < |rnds| ==> Boots(mem, base, rnds)[i] == Boot(mem, base, rnds[0]).addr
    decreases |rnds|
  {
    if |rnds| > 1 {
      BootSettles(mem, base, rnds[0], rnds[1]);
      AddressPersists(Boot(mem, base, rnds[0]).mem, base, rnds[1..]);
    }
  }

  // ---------------------------------------------------------------- power lost between the two writes

  /** The flash when a first boot is cut off after its first write. */
  function CutOff(mem: seq<byte>, base: nat, rnd: seq<byte>): (r: seq<byte>)
    requires |mem| == FLASH_SIZE && base + 8 <= FLASH_SIZE && |rnd| == 5
    ensures |r| == FLASH_SIZE
  {
    FlatWrite(mem, base, (rnd + START_IEEE_ADDR)[2..])
  }

  /**
   * Such a device is recognised as having an address and is never completed: all later boots agree on one
   * address, which is the one first generated exactly when its first two bytes happened to be 0xFF.
   */
  lemma CutOffBoot(mem: seq<byte>, base: nat, rnd: seq<byte>, rnds: seq<seq<byte>>)
    requires |mem| == FLASH_SIZE && base + 8 <= FLASH_SIZE && |rnd| == 5 && Blank(Area(mem, base))
    requires forall r :: r in rnds ==> |r| == 5
    ensures var addr, later := rnd + START_IEEE_ADDR, [0xFF, 0xFF] + (rnd + START_IEEE_ADDR)[2..];
            && (forall i :: 0 <= i < |rnds| ==> Boots(CutOff(mem, base, rnd), base, rnds)[i] == later)
            && (later == addr <==> rnd[0] == 0xFF && rnd[1] == 0xFF)
  {
    var addr, m := rnd + START_IEEE_ADDR, CutOff(mem, base, rnd);
    var rest: seq<byte> := [0xFF, 0xFF];
    CutOffArea(mem, base, rnd);
    var area := Area(m, base);
    assert area[3] == 0x38 && area[3..6] == START_IEEE_ADDR && Unrotate(area) == rest + addr[2..];
    if rnds != [] {
      AddressPersists(m, base, rnds);
    }
    assert addr == addr[..2] + addr[2..] && addr[..2] == rnd[..2];
    if rnd[0] == 0xFF && rnd[1] == 0xFF {
      assert addr[..2] == rest;
    }
  }

  lemma CutOffArea(mem: seq<byte>, base: nat, rnd: seq<byte>)
    requires |mem| == FLASH_SIZE && base + 8 <= FLASH_SIZE && |rnd| == 5 && Blank(Area(mem, base))
    ensures Area(CutOff(mem, base, rnd), base) == (rnd + START_IEEE_ADDR)[2..] + [0xFF, 0xFF]
  {
    var addr, m := rnd + START_IEEE_ADDR, CutOff(mem, base, rnd);
    var rest: seq<byte> := [0xFF, 0xFF];
    assert FlatWrite(m, base + 6, rest) == m by {
      forall i | base + 6 <= i < base + 8
        ensures m[i] == 0xFF
      {
        assert mem[i] == Area(mem, base)[i - base];
      }
      AndErased(0xFF);
    }
    BlankAreaWritten(mem, base, addr[2..], rest);
    assert Area(m, base) == addr[2..] + rest;
  }
}
