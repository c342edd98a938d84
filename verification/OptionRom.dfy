/** rombios32.c: copying PCI option ROMs into shadow RAM between 0xc0000 and 0xe0000. Two bits of a
    chipset register say, for each 16K segment, whether reads (1) and writes (2) go to the RAM. */
module OptionRom {
  import opened Bytes

  const FIRST: nat := 0xc_0000
  const LIMIT: nat := 0xe_0000
  const SEGMENT: nat := 0x4000

  /** The bytes a ROM occupies: its length byte counts 512-byte units, rounded up to four of them. */
  function RomBytes(length: Byte): (r: nat)
    ensures 512 * length as int <= r < 512 * (length as int + 4) && r % 0x800 == 0
  {
    (if length % 4 != 0 then length - length % 4 + 4 else length) * 512
  }

  /** A VGA BIOS is skipped in units of 32 blocks: the least multiple of 16K that holds it. */
  function SkippedBytes(length: Byte): (r: nat)
    ensures 512 * length as int <= r < 512 * length as int + 0x4000 && r % 0x4000 == 0
    ensures r <= 0x2_0000
  {
    (if length % 32 != 0 then length - length % 32 + 32 else length) * 512
  }

  /** The segment of an address, counted from FIRST; registers 0x5a on hold two segments each. */
  function SegmentOf(addr: nat): nat
    requires FIRST <= addr <= LIMIT
  {
    (addr - FIRST) / SEGMENT
  }

  /** The read and write bits of a segment. */
  function Access(pam: seq<bv8>, s: nat): bv8
    requires s / 2 < |pam|
  {
    if s % 2 == 1 then (pam[s / 2] >> 4) & 3 else pam[s / 2] & 3
  }

  /** The bits of a segment's nibble that mean something else. */
  function Others(pam: seq<bv8>, s: nat): bv8
    requires s / 2 < |pam|
  {
    if s % 2 == 1 then pam[s / 2] & 0xc0 else pam[s / 2] & 0x0c
  }

  function WithAccess(v: bv8, high: bool, access: bv8): bv8 {
    if high then (v & !0x30) | (access << 4) else (v & !3) | access
  }

  /** Setting one segment's access changes neither its other bits nor its neighbour in the register. */
  lemma AccessIsSet(v: bv8, high: bool, access: bv8)
    requires access <= 3
    ensures var w := WithAccess(v, high, access);
      && (w >> 4) & 3 == (if high then access else (v >> 4) & 3)
      && w & 3 == (if high then v & 3 else access)
      && w & 0xc0 == v & 0xc0 && w & 0x0c == v & 0x0c
  {}

  lemma AccessAt(pam: seq<bv8>, s: nat, access: bv8, t: nat)
    requires s / 2 < |pam| && t / 2 < |pam| && access <= 3
    ensures var after := pam[s / 2 := WithAccess(pam[s / 2], s % 2 == 1, access)];
      && Access(after, t) == (if t == s then access else Access(pam, t))
      && Others(after, t) == Others(pam, t)
  {
    AccessIsSet(pam[s / 2], s % 2 == 1, access);
    var after := pam[s / 2 := WithAccess(pam[s / 2], s % 2 == 1, access)];
    if t / 2 != s / 2 {
      assert after[t / 2] == pam[t / 2];
    } else {
      assert t != s ==> t % 2 != s % 2;
      assert after[t / 2] == WithAccess(pam[s / 2], s % 2 == 1, access);
    }
  }

  /** The segments a copy of `size` bytes to `start` opens: those it stores to, or that of `start` if empty. */
  predicate Touched(start: nat, size: nat, t: nat)
    requires FIRST <= start && start + size <= LIMIT
  {
    SegmentOf(start) <= t <= SegmentOf(if size == 0 then start else start + size - 1)
  }

  /** The shadow RAM from FIRST to LIMIT, and the segment registers from 0x5a on. */
  datatype Memory = Memory(ram: seq<Byte>, pam: seq<bv8>)

  predicate Sized(m: Memory) {
    |m.ram| == LIMIT - FIRST && |m.pam| == 8
  }

  /** `after` is `before` with `rom` stored at `start`: no other byte differs, every segment the copy
      touches is left readable and write-protected, and nothing else in the registers moved. */
  predicate Copied(before: Memory, after: Memory, start: nat, rom: seq<Byte>)
    requires Sized(before) && FIRST <= start && start + |rom| <= LIMIT
  {
    && Sized(after)
    && (forall a :: 0 <= a < |after.ram| ==>
          after.ram[a] == if start <= FIRST + a < start + |rom| then rom[FIRST + a - start] else before.ram[a])
    && (forall t :: 0 <= t < 16 ==>
          && Access(after.pam, t) == (if Touched(start, |rom|, t) then 1 else Access(before.pam, t))
          && Others(after.pam, t) == Others(before.pam, t))
  }

  /** A ROM image that found room, and where. */
  datatype Placed = Placed(start: nat, rom: seq<Byte>)

  /** The address holds `b`, in a segment that reads RAM and ignores writes. */
  predicate Shadowed(m: Memory, addr: nat, b: Byte)
    requires Sized(m) && FIRST <= addr < LIMIT
  {
    m.ram[addr - FIRST] == b && Access(m.pam, SegmentOf(addr)) == 1
  }

  /** The ROM reads back in full. */
  predicate ReadsBack(m: Memory, p: Placed)
    requires Sized(m)
  {
    && FIRST <= p.start && p.start + |p.rom| <= LIMIT
    && forall k :: 0 <= k < |p.rom| ==> Shadowed(m, p.start + k, p.rom[k])
  }

  lemma CopyReadsBack(before: Memory, after: Memory, start: nat, rom: seq<Byte>)
    requires Sized(before) && FIRST <= start && start + |rom| <= LIMIT && Copied(before, after, start, rom)
    ensures ReadsBack(after, Placed(start, rom))
  {
    forall k | 0 <= k < |rom| ensures Shadowed(after, start + k, rom[k]) {
      assert after.ram[start + k - FIRST] == rom[k];
      assert Touched(start, |rom|, SegmentOf(start + k));
    }
  }

  /** A copy above a placed ROM leaves it readable, even in a segment they share. */
  lemma CopyKeeps(before: Memory, after: Memory, start: nat, rom: seq<Byte>, p: Placed)
    requires Sized(before) && FIRST <= start && start + |rom| <= LIMIT && Copied(before, after, start, rom)
    requires ReadsBack(before, p) && p.start + |p.rom| <= start
    ensures ReadsBack(after, p)
  {
    forall k | 0 <= k < |p.rom| ensures Shadowed(after, p.start + k, p.rom[k]) {
      var a := p.start + k;
      assert Shadowed(before, a, p.rom[k]);
      assert after.ram[a - FIRST] == before.ram[a - FIRST];
      assert 0 <= SegmentOf(a) < 16;
    }
  }

  /** Copying block after block is one copy of the whole. */
  lemma CopiesCompose(m0: Memory, m1: Memory, m2: Memory, start: nat, x: seq<Byte>, y: seq<Byte>)
    requires Sized(m0) && Sized(m1) && FIRST <= start && start + |x| + |y| <= LIMIT && 0 < |x| && 0 < |y|
    requires Copied(m0, m1, start, x) && Copied(m1, m2, start + |x|, y)
    ensures Copied(m0, m2, start, x + y)
  {
    forall t | 0 <= t < 16
      ensures Touched(start, |x + y|, t) <==> Touched(start, |x|, t) || Touched(start + |x|, |y|, t)
    {
    }
  }

  /** The bytes copied in one turn: up to the end of the segment, or what is left. */
  function BlockSize(addr: nat, left: nat): (n: nat)
    ensures n <= left && n <= SEGMENT - addr % SEGMENT && (0 < left ==> 0 < n)
    ensures n == left || (addr + n) % SEGMENT == 0
  {
    if left < SEGMENT - addr % SEGMENT then left else SEGMENT - addr % SEGMENT
  }

  /** One turn of the copy loop: `n` more bytes after the first `copied`, which may be none. */
  lemma CopyGrows(m0: Memory, m1: Memory, m2: Memory, start: nat, rom: seq<Byte>, copied: nat, n: nat)
    requires Sized(m0) && Sized(m1) && FIRST <= start && start + |rom| <= LIMIT && copied + n <= |rom|
    requires if copied == 0 then m1 == m0 else 0 < n && Copied(m0, m1, start, rom[..copied])
    requires Copied(m1, m2, start + copied, rom[copied..copied + n])
    ensures Copied(m0, m2, start, rom[..copied + n])
  {
    var x, y, z := rom[..copied], rom[copied..copied + n], rom[..copied + n];
    assert z == x + y && (copied == 0 ==> z == y);
    if copied != 0 {
      CopiesCompose(m0, m1, m2, start, x, y);
    }
  }

  class OptionRoms {
    const pam: array<bv8>
    const ram: array<Byte>
    /** pci_bios_rom_start */
    var romStart: nat
    ghost var placed: seq<Placed>

    ghost function Mem(): Memory
      reads pam, ram
    {
      Memory(ram[..], pam[..])
    }

    ghost predicate Valid()
      reads this, pam, ram
    {
      && Sized(Mem())
      && FIRST <= romStart <= LIMIT
      && (forall i :: 0 <= i < |placed| ==> Held(placed[i]))
      && (forall i, j :: 0 <= i < j < |placed| ==> placed[i].start + |placed[i].rom| <= placed[j].start)
    }

    ghost predicate Held(p: Placed)
      requires Sized(Mem())
      reads this, pam, ram
    {
      ReadsBack(Mem(), p) && p.start + |p.rom| <= romStart
    }

    constructor (pam: array<bv8>, ram: array<Byte>)
      requires pam.Length == 8 && ram.Length == LIMIT - FIRST
      ensures this.pam == pam && this.ram == ram && romStart == FIRST && placed == [] && Valid()
    {
      this.pam, this.ram, romStart, placed := pam, ram, FIRST, [];
    }

    /** A store to consecutive addresses of one segment: it reaches the RAM only if writes are enabled. */
    method StoreBlock(addr: nat, bytes: seq<Byte>)
      requires Sized(Mem()) && FIRST <= addr && addr + |bytes| <= LIMIT
      modifies ram
      ensures forall a :: 0 <= a < ram.Length ==>
        ram[a] == if Access(pam[..], SegmentOf(addr)) & 2 != 0 && addr <= FIRST + a < addr + |bytes|
                  then bytes[FIRST + a - addr] else old(ram[a])
    {
      if Access(pam[..], SegmentOf(addr)) & 2 != 0 {
        for k := 0 to |bytes|
          invariant forall a :: 0 <= a < ram.Length ==>
            ram[a] == if addr <= FIRST + a < addr + k then bytes[FIRST + a - addr] else old(ram[a])
        {
          ram[addr + k - FIRST] := bytes[k];
        }
      }
    }

    method SetAccess(s: nat, access: bv8)
      requires pam.Length == 8 && s < 16 && access <= 3
      modifies pam
      ensures forall t :: 0 <= t < 16 ==>
        && Access(pam[..], t) == (if t == s then access else old(Access(pam[..], t)))
        && Others(pam[..], t) == old(Others(pam[..], t))
    {
      ghost var before := pam[..];
      pam[s / 2] := WithAccess(pam[s / 2], s % 2 == 1, access);
      assert pam[..] == before[s / 2 := WithAccess(before[s / 2], s % 2 == 1, access)];
      forall t | 0 <= t < 16
        ensures Access(pam[..], t) == (if t == s then access else Access(before, t))
        ensures Others(pam[..], t) == Others(before, t)
      {
        AccessAt(before, s, access, t);
      }
    }

    /** One turn of the copy loop: open one segment for writing, store, and leave it read-only. */
    method CopyBlock(addr: nat, bytes: seq<Byte>)
      requires Sized(Mem()) && FIRST <= addr && addr + |bytes| <= LIMIT
      requires |bytes| <= SEGMENT - addr % SEGMENT
      modifies pam, ram
      ensures Copied(old(Mem()), Mem(), addr, bytes)
    {
      SetAccess(SegmentOf(addr), 2);
      StoreBlock(addr, bytes);
      SetAccess(SegmentOf(addr), 1);
      OneSegment(addr, |bytes|);
    }

    /** The copy loop of pci_bios_init_pcirom(): it runs at least once, even for an empty ROM. */
    method CopyRom(rom: seq<Byte>)
      requires Sized(Mem()) && FIRST <= romStart && romStart + |rom| <= LIMIT
      modifies pam, ram
      ensures Copied(old(Mem()), Mem(), romStart, rom)
    {
      ghost var before, start := Mem(), romStart;
      var tmpaddr, copied := romStart, 0;
      var first := true;
      while first || copied < |rom|
        invariant copied <= |rom| && tmpaddr == start + copied && Sized(Mem())
        invariant first ==> copied == 0 && Mem() == before
        invariant !first ==> copied == 0 == |rom| || 0 < copied
        invariant !first ==> Copied(before, Mem(), start, rom[..copied])
        decreases |rom| - copied, first
      {
        var tmpsize := BlockSize(tmpaddr, |rom| - copied);
        ghost var middle := Mem();
        CopyBlock(tmpaddr, rom[copied..copied + tmpsize]);
        CopyGrows(before, middle, Mem(), start, rom, copied, tmpsize);
        tmpaddr, copied, first := tmpaddr + tmpsize, copied + tmpsize, false;
      }
      assert rom[..copied] == rom;
    }

    /** pci_bios_init_pcirom(): a ROM mapped at a non-zero address is copied if it fits, and its address
        register, least significant byte first, loses its low byte with the enable bit; otherwise nothing
        changes. `rom` is what memory holds from `paddr` on. */
    method InitPciRom(paddr: nat, rom: seq<Byte>, romAddress: seq<Byte>) returns (copied: bool, register: seq<Byte>)
      requires |romAddress| == 4
      requires Valid() && (paddr != 0 ==> 3 <= |rom| && RomBytes(rom[2]) <= |rom|)
      modifies this`romStart, this`placed, pam, ram
      ensures Valid()
      ensures copied <==> paddr != 0 && old(romStart) + RomBytes(rom[2]) <= 0xe_0000
      ensures !copied ==>
        romStart == old(romStart) && placed == old(placed) && Mem() == old(Mem()) && register == romAddress
      ensures copied ==>
        && placed == old(placed) + [Placed(old(romStart), rom[..RomBytes(rom[2])])]
        && romStart == old(romStart) + RomBytes(rom[2])
        && Copied(old(Mem()), Mem(), old(romStart), rom[..RomBytes(rom[2])])
        && register == [0] + romAddress[1..]
    {
      if paddr == 0 || romStart + RomBytes(rom[2]) > LIMIT { return false, romAddress; }
      CopyAndPlace(rom[..RomBytes(rom[2])]);
      return true, romAddress[0 := 0];
    }

    method CopyAndPlace(rom: seq<Byte>)
      requires Valid() && romStart + |rom| <= LIMIT
      modifies this`romStart, this`placed, pam, ram
      ensures Valid() && placed == old(placed) + [Placed(old(romStart), rom)] && romStart == old(romStart) + |rom|
      ensures Copied(old(Mem()), Mem(), old(romStart), rom)
    {
      ghost var before := Mem();
      CopyRom(rom);
      forall i | 0 <= i < |placed| ensures ReadsBack(Mem(), placed[i]) {
        assert old(Held(placed[i]));
        CopyKeeps(before, Mem(), romStart, rom, placed[i]);
      }
      CopyReadsBack(before, Mem(), romStart, rom);
      placed := placed + [Placed(romStart, rom)];
      romStart := romStart + |rom|;
    }

    /** The skip in pci_bios_init_optrom(): room for an ISA VGA BIOS whose length byte is given. */
    method SkipVgaBios(length: Byte)
      requires Valid()
      modifies this`romStart
      ensures Valid()
      ensures romStart == if old(romStart) == 0xc_0000 then 0xc_0000 + SkippedBytes(length) else old(romStart)
    {
      if romStart == FIRST {
        forall i | 0 <= i < |placed| ensures Held(placed[i]) { assert old(Held(placed[i])); }
        romStart := romStart + SkippedBytes(length);
        forall i | 0 <= i < |placed| ensures Held(placed[i]) { assert old(Held(placed[i])); }
      }
    }
  }

  lemma OneSegment(addr: nat, n: nat)
    requires FIRST <= addr && addr + n <= LIMIT && n <= SEGMENT - addr % SEGMENT
    ensures forall t :: Touched(addr, n, t) <==> t == SegmentOf(addr)
  {}
}
