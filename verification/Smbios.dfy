/** rombios32.c: the SMBIOS entry point, and the structures that describe memory. */
module Smbios {
  import opened Arith
  import opened Bytes

  // ---- Entry point

  /** "_SM_" and "_DMI_" */
  const SM: seq<Byte> := [0x5f, 0x53, 0x4d, 0x5f]
  const DMI: seq<Byte> := [0x5f, 0x44, 0x4d, 0x49, 0x5f]

  const INTERMEDIATE: nat := 0x10
  const LENGTH: nat := 0x1f

  datatype EntryFields = EntryFields(maxStructureSize: nat, tableLength: nat, tableAddress: nat, structures: nat)

  /** What follows the checksum in the first 16 bytes, and in the part after them. */
  function FirstRest(e: EntryFields): (r: seq<Byte>)
    ensures |r| == 11
  {
    [LENGTH, 2, 4] + Le16(e.maxStructureSize) + [0] + Zeros(5)
  }

  function SecondRest(e: EntryFields): (r: seq<Byte>)
    ensures |r| == 9
  {
    Le16(e.tableLength) + Le32(e.tableAddress) + Le16(e.structures) + [0x24]
  }

  /** A part with a checksum byte in the middle. */
  function Checked(start: seq<Byte>, rest: seq<Byte>): (r: seq<Byte>)
    ensures |r| == |start| + 1 + |rest|
  {
    start + [Negated(Sum(start + [0] + rest))] + rest
  }

  function EntryPoint(e: EntryFields): (r: seq<Byte>)
    ensures |r| == LENGTH
  {
    Checked(SM, FirstRest(e)) + Checked(DMI, SecondRest(e))
  }

  /** Both checksums of section 5.2.1 of DSP0134 hold, so all of the entry point sums to zero too. */
  lemma EntryPointSumsToZero(e: EntryFields)
    ensures var p := EntryPoint(e);
      && Sum(p[..INTERMEDIATE]) % 256 == 0 && Sum(p[INTERMEDIATE..]) % 256 == 0 && Sum(p) % 256 == 0
      && p[..4] == Ascii("_SM_") && p[0x10..][..5] == Ascii("_DMI_") && p[5] as int == |p|
  {
    PartsSumToZero(SM, FirstRest(e), DMI, SecondRest(e), EntryPoint(e));
    assert FirstRest(e)[0] == LENGTH;
  }

  lemma PartsSumToZero(a: seq<Byte>, first: seq<Byte>, b: seq<Byte>, second: seq<Byte>, p: seq<Byte>)
    requires |a| == 4 && |first| == 11 && |b| == 5
    requires p == Checked(a, first) + Checked(b, second)
    ensures Sum(p[..INTERMEDIATE]) % 256 == 0 && Sum(p[INTERMEDIATE..]) % 256 == 0 && Sum(p) % 256 == 0
    ensures p[..4] == a && p[INTERMEDIATE..][..5] == b && p[5] == first[0]
  {
    var x, y := Checked(a, first), Checked(b, second);
    CheckedSumsToZero(a, first);
    CheckedSumsToZero(b, second);
    SumJoins(x, y);
    assert p[..INTERMEDIATE] == x && p[INTERMEDIATE..] == y;
  }

  lemma CheckedSumsToZero(start: seq<Byte>, rest: seq<Byte>)
    ensures var x := Checked(start, rest);
      Sum(x) % 256 == 0 && x[..|start|] == start && x[|start| + 1..] == rest
  {
    ChecksumCancels(start, rest);
  }

  /** The fields can be read back from where the specification puts them. */
  lemma EntryPointReadsBack(e: EntryFields)
    requires e.maxStructureSize < 0x1_0000 && e.tableLength < 0x1_0000
    requires e.tableAddress < BIT32 && e.structures < 0x1_0000
    ensures var p := EntryPoint(e);
      && e == EntryFields(FromLe16(p[8..10]), FromLe16(p[0x16..0x18]), FromLe32(p[0x18..0x1c]), FromLe16(p[0x1c..0x1e]))
      && p[6] == 2 && p[7] == 4 && p[10..16] == Zeros(6) && p[0x1e] == 0x24
  {
    var first, second, p := Checked(SM, FirstRest(e)), Checked(DMI, SecondRest(e)), EntryPoint(e);
    Le16RoundTrip(e.maxStructureSize);
    Le16RoundTrip(e.tableLength);
    Le32RoundTrip(e.tableAddress);
    Le16RoundTrip(e.structures);
    assert p[10..16] == first[10..16] == Zeros(6);
    assert p[8..10] == first[8..10] == Le16(e.maxStructureSize);
    assert p[0x16..0x18] == second[6..8] == Le16(e.tableLength);
    assert p[0x18..0x1c] == second[8..12] == Le32(e.tableAddress);
    assert p[0x1c..0x1e] == second[12..14] == Le16(e.structures);
  }

  /** The sum of a part, with the wrap-around of the byte it is kept in. */
  method SumPart(data: array<Byte>, from: nat, to: nat) returns (sum: Byte)
    requires from <= to <= data.Length
    ensures sum == Sum(data[from..to]) % 256
  {
    sum := 0;
    for i := from to to
      invariant sum == Sum(data[from..i]) % 256
    {
      assert data[from..i + 1][..i - from] == data[from..i];
      sum := (sum as int + data[i] as int) % 256;
    }
  }

  /** Negating after the wrap-around is negating before it. */
  lemma NegatedWraps(sum: nat)
    ensures (0 - sum % 256) % 256 == Negated(sum)
  {
    var q := sum / 256;
    assert 0 - sum % 256 == (0 - sum as int) + 256 * q;
    ModuloShifts(0 - sum as int, q);
  }

  lemma ModuloShifts(x: int, q: int)
    ensures (x + 256 * q) % 256 == x % 256
  {
    var y := x + 256 * q;
    assert y == 256 * (x / 256 + q) + x % 256;
    assert y == 256 * (y / 256) + y % 256;
  }

  /** Store the negated sum of a part whose checksum byte is zero. */
  method SetChecksum(data: array<Byte>, from: nat, at: nat, to: nat)
    requires from <= at < to <= data.Length && data[at] == 0
    modifies data
    ensures data[..] == old(data[..from]) + Checked(old(data[from..at]), old(data[at + 1..to])) + old(data[to..])
  {
    ghost var before := data[..];
    var sum := SumPart(data, from, to);
    data[at] := (0 - sum as int) % 256;
    NegatedWraps(Sum(before[from..to]));
    Stored(before, from, at, to, data[at]);
    assert data[..] == before[at := data[at]];
  }

  lemma Stored(s: seq<Byte>, from: nat, at: nat, to: nat, b: Byte)
    requires from <= at < to <= |s| && s[at] == 0 && b == Negated(Sum(s[from..to]))
    ensures s[at := b] == s[..from] + Checked(s[from..at], s[at + 1..to]) + s[to..]
  {
    assert s[from..to] == s[from..at] + [0] + s[at + 1..to];
  }

  method EntryPointInit(start: array<Byte>, e: EntryFields)
    requires LENGTH <= start.Length
    modifies start
    ensures start[..] == EntryPoint(e) + old(start[LENGTH..])
  {
    StoreParts(start, SM, FirstRest(e), DMI, SecondRest(e));
  }

  /** Both parts with zero checksums, then the checksums. */
  method StoreParts(start: array<Byte>, a: seq<Byte>, first: seq<Byte>, b: seq<Byte>, second: seq<Byte>)
    requires |a| == 4 && |first| == 11 && |b| == 5 && |second| == 9 && LENGTH <= start.Length
    modifies start
    ensures start[..] == Checked(a, first) + Checked(b, second) + old(start[LENGTH..])
  {
    ghost var after := start[LENGTH..];
    Put(start, 0, a + [0] + first + (b + [0] + second));
    ghost var zeroed := start[..];
    assert zeroed == a + [0] + first + (b + [0] + second + after);
    SetChecksum(start, 0, 4, INTERMEDIATE);
    FirstPart(a, first, b + [0] + second + after, zeroed, start[..]);
    ghost var half := start[..];
    SetChecksum(start, INTERMEDIATE, 0x15, LENGTH);
    SecondPart(Checked(a, first), b, second, after, half, start[..]);
  }

  lemma FirstPart(a: seq<Byte>, b: seq<Byte>, rest: seq<Byte>, s: seq<Byte>, t: seq<Byte>)
    requires |a| == 4 && |b| == 11 && s == a + [0] + b + rest
    requires t == s[..0] + Checked(s[0..4], s[5..INTERMEDIATE]) + s[INTERMEDIATE..]
    ensures t == Checked(a, b) + rest
  {
    assert s[0..4] == a && s[5..INTERMEDIATE] == b && s[INTERMEDIATE..] == rest;
  }

  lemma SecondPart(first: seq<Byte>, a: seq<Byte>, b: seq<Byte>, rest: seq<Byte>, s: seq<Byte>, t: seq<Byte>)
    requires |first| == INTERMEDIATE && |a| == 5 && |b| == 9 && s == first + (a + [0] + b + rest)
    requires t == s[..INTERMEDIATE] + Checked(s[INTERMEDIATE..0x15], s[0x16..LENGTH]) + s[LENGTH..]
    ensures t == first + Checked(a, b) + rest
  {
    assert s[INTERMEDIATE..0x15] == a && s[0x16..LENGTH] == b && s[LENGTH..] == rest;
  }

  // ---- Memory size

  /** ram_probe(): the CMOS bytes at 0x30, 0x31, 0x34, 0x35 and 0x5b to 0x5d. */
  datatype Cmos = Cmos(extLow: Byte, extHigh: Byte, low: Byte, high: Byte, over0: Byte, over1: Byte, over2: Byte)

  method RamProbe(c: Cmos) returns (ramSize: nat, ramEnd: nat)
    ensures ramSize == RamSize(c) && ramEnd == RamEnd(c)
    ensures ramSize < BIT32 && (ramEnd == ramSize || ramEnd >= BIT32 + 0x1_0000)
    ensures Shows(c, ramSize, ramEnd)
  {
    ProbeReadsBack(c);
    if c.low != 0 || c.high != 0 {
      ramSize := U32((c.low as int + c.high as int * 256) * 65536 + 16 * 1024 * 1024);
    } else {
      ramSize := (c.extLow as int + c.extHigh as int * 256) * 1024 + 1024 * 1024;
    }
    if c.over0 != 0 || c.over1 != 0 || c.over2 != 0 {
      ramEnd := c.over0 as int * 0x1_0000 + c.over1 as int * 0x100_0000 + c.over2 as int * BIT32 + BIT32;
    } else {
      ramEnd := ramSize;
    }
  }

  function RamSize(c: Cmos): nat {
    if c.low != 0 || c.high != 0 then U32((c.low as int + c.high as int * 256) * 65536 + 0x100_0000)
    else (c.extLow as int + c.extHigh as int * 256) * 1024 + 0x10_0000
  }

  /** Memory above 4 GB is counted in units of 64 KB. */
  function RamEnd(c: Cmos): nat {
    var units := c.over0 as int + c.over1 as int * 256 + c.over2 as int * 65536;
    if units == 0 then RamSize(c) else units * 65536 + BIT32
  }

  /** The two sizes tell what the CMOS bytes were: the size above 4 GB in units of 64 KB, if there is any;
      the size above 16 MB in units of 64 KB, modulo 4 GB, if any; else that above 1 MB in kilobytes. */
  predicate Shows(c: Cmos, ramSize: nat, ramEnd: nat) {
    && (ramEnd == ramSize <==> c.over0 == 0 && c.over1 == 0 && c.over2 == 0)
    && (ramEnd > ramSize ==>
          ramEnd >= BIT32 && IsDigits((ramEnd - BIT32) / 0x1_0000, c.over0, c.over1, c.over2))
    && (if c.low != 0 || c.high != 0
        then IsDigits(U32(ramSize as int - 0x100_0000) / 0x1_0000, c.low, c.high, 0)
        else ramSize >= 0x10_0000 && IsDigits((ramSize - 0x10_0000) / 1024, c.extLow, c.extHigh, 0))
  }

  /** Three base-256 digits, least significant first. */
  predicate IsDigits(x: nat, d0: Byte, d1: Byte, d2: Byte) {
    d0 as int == x % 256 && d1 as int == x / 256 % 256 && d2 as int == x / 65536
  }

  lemma Digits(d0: Byte, d1: Byte, d2: Byte)
    ensures IsDigits(d0 as int + d1 as int * 256 + d2 as int * 65536, d0, d1, d2)
  {}

  lemma ProbeReadsBack(c: Cmos)
    ensures RamSize(c) < BIT32 && (RamEnd(c) == RamSize(c) || RamEnd(c) >= BIT32 + 0x1_0000)
    ensures Shows(c, RamSize(c), RamEnd(c))
  {
    BelowReadsBack(c, RamSize(c));
    AboveReadsBack(c, RamSize(c), RamEnd(c));
  }

  lemma BelowReadsBack(c: Cmos, ramSize: nat)
    requires ramSize == RamSize(c)
    ensures ramSize < BIT32
    ensures if c.low != 0 || c.high != 0
      then IsDigits(U32(ramSize as int - 0x100_0000) / 0x1_0000, c.low, c.high, 0)
      else ramSize >= 0x10_0000 && IsDigits((ramSize - 0x10_0000) / 1024, c.extLow, c.extHigh, 0)
  {
    Digits(c.low, c.high, 0);
    Digits(c.extLow, c.extHigh, 0);
    WordShiftsBack((c.low as int + c.high as int * 256) * 65536);
  }

  lemma WordShiftsBack(low: nat)
    requires low < BIT32
    ensures U32(low + 0x100_0000) < BIT32 && U32(U32(low + 0x100_0000) as int - 0x100_0000) == low
  {}

  lemma AboveReadsBack(c: Cmos, ramSize: nat, ramEnd: nat)
    requires ramSize == RamSize(c) < BIT32 && ramEnd == RamEnd(c)
    ensures ramEnd == ramSize || ramEnd >= BIT32 + 0x1_0000
    ensures ramEnd == ramSize <==> c.over0 == 0 && c.over1 == 0 && c.over2 == 0
    ensures ramEnd > ramSize ==>
      ramEnd >= BIT32 && IsDigits((ramEnd - BIT32) / 0x1_0000, c.over0, c.over1, c.over2)
  {
    Digits(c.over0, c.over1, c.over2);
  }

  /** Megabytes of memory, below and above 4 GB. */
  function MemSize(ramSize: nat, ramEnd: nat): nat
    requires ramEnd == ramSize || ramEnd >= BIT32
  {
    if ramEnd == ramSize then ramSize / 0x10_0000 else (ramEnd - BIT32 + ramSize) / 0x10_0000
  }

  /** It counts the bytes below 4 GB and those above, in whole megabytes. */
  lemma MemSizeCountsBoth(ramSize: nat, ramEnd: nat, above: nat)
    requires ramSize < BIT32 && (if above == 0 then ramEnd == ramSize else ramEnd == BIT32 + above)
    ensures var mb := MemSize(ramSize, ramEnd); mb * 0x10_0000 <= ramSize + above < (mb + 1) * 0x10_0000
  {}

  /** The largest memory the structures can describe: 4 TB. */
  const MOST: nat := 0x40_0000

  /** What the CMOS can say is far less. */
  lemma MemSizeIsDescribable(c: Cmos)
    ensures RamEnd(c) == RamSize(c) || RamEnd(c) >= BIT32
    ensures MemSize(RamSize(c), RamEnd(c)) < MOST
  {
    assert RamSize(c) < BIT32;
    assert RamEnd(c) < 0x100_0000 * 65536 + BIT32;
  }

  // ---- Memory devices of up to 16 GB

  const DEVICE: nat := 0x4000

  function DeviceCount(memsize: nat): nat {
    (memsize + 0x3fff) / DEVICE
  }

  function DeviceSize(memsize: nat, i: nat): nat
    requires i < DeviceCount(memsize)
  {
    if i == DeviceCount(memsize) - 1 then (memsize - 1) % DEVICE + 1 else DEVICE
  }

  datatype Structure =
    /** type 17 */
    | MemoryDevice(handle: nat, sizeMb: nat)
    /** type 19: a range of kilobytes, with its last one */
    | ArrayMapped(handle: nat, first: nat, last: nat)
    /** type 20 */
    | DeviceMapped(handle: nat, first: nat, last: nat, device: nat, mapped: nat)

  function U16(x: nat): nat { x % 0x1_0000 }

  function First(i: nat): nat { U32(i * 0x100_0000) }

  function Last(i: nat, mb: nat): nat { U32(First(i) + U32(mb * 1024) - 1) }

  /** What the three initialisers store for device `i`, cut to the widths of the fields. */
  function Described(i: nat, mb: nat): seq<Structure> {
    [MemoryDevice(U16(0x1100 + i), U16(mb)),
     ArrayMapped(U16(0x1300 + i), First(i), Last(i, mb)),
     DeviceMapped(U16(0x1400 + i), First(i), Last(i, mb), U16(0x1100 + i), U16(0x1300 + i))]
  }

  /** The structures of the first `n` devices. */
  function Structures(memsize: nat, n: nat): seq<Structure>
    requires n <= DeviceCount(memsize)
  {
    if n == 0 then [] else Structures(memsize, n - 1) + Described(n - 1, DeviceSize(memsize, n - 1))
  }

  method MemoryStructures(memsize: nat) returns (table: seq<Structure>)
    ensures table == Structures(memsize, DeviceCount(memsize))
  {
    table := [];
    var nrMemDevs := (memsize + 0x3fff) / 0x4000;
    for i := 0 to nrMemDevs
      invariant table == Structures(memsize, i)
    {
      var devMemsize := if i == nrMemDevs - 1 then (memsize - 1) % 0x4000 + 1 else 0x4000;
      var first, last := First(i), Last(i, devMemsize);
      table := table + [MemoryDevice(U16(0x1100 + i), U16(devMemsize))];
      table := table + [ArrayMapped(U16(0x1300 + i), first, last)];
      table := table + [DeviceMapped(U16(0x1400 + i), first, last, U16(0x1100 + i), U16(0x1300 + i))];
    }
  }

  /** The structures of device `i` are in their place. */
  lemma {:induction false} DeviceAt(memsize: nat, n: nat, i: nat)
    requires i < n <= DeviceCount(memsize)
    ensures |Structures(memsize, n)| == 3 * n
    ensures Structures(memsize, n)[3 * i..3 * i + 3] == Described(i, DeviceSize(memsize, i))
  {
    var before, last := Structures(memsize, n - 1), Described(n - 1, DeviceSize(memsize, n - 1));
    StructureCount(memsize, n - 1);
    assert Structures(memsize, n) == before + last;
    if i < n - 1 {
      DeviceAt(memsize, n - 1, i);
      assert (before + last)[3 * i..3 * i + 3] == before[3 * i..3 * i + 3];
    } else {
      assert (before + last)[3 * i..3 * i + 3] == last;
    }
  }

  lemma {:induction false} StructureCount(memsize: nat, n: nat)
    requires n <= DeviceCount(memsize)
    ensures |Structures(memsize, n)| == 3 * n
  {
    if n > 0 { StructureCount(memsize, n - 1); }
  }

  /** The handles the structures of a device get in turn. */
  function HandleOf(q: nat): nat {
    U16((if q % 3 == 0 then 0x1100 else if q % 3 == 1 then 0x1300 else 0x1400) + q / 3)
  }

  lemma HandleAt(memsize: nat, q: nat)
    requires q < 3 * DeviceCount(memsize)
    ensures |Structures(memsize, DeviceCount(memsize))| == 3 * DeviceCount(memsize)
    ensures Structures(memsize, DeviceCount(memsize))[q].handle == HandleOf(q)
  {
    var i, all := q / 3, Structures(memsize, DeviceCount(memsize));
    DeviceAt(memsize, DeviceCount(memsize), i);
    assert all[q] == all[3 * i..3 * i + 3][q - 3 * i];
  }

  ghost predicate HandlesDiffer(table: seq<Structure>) {
    forall a, b :: 0 <= a < b < |table| ==> table[a].handle != table[b].handle
  }

  lemma HandlesOfFewDiffer(a: nat, b: nat)
    requires a < b < 3 * 256
    ensures HandleOf(a) != HandleOf(b)
  {
    U16Exact(0x1400 + a / 3);
    U16Exact(0x1400 + b / 3);
  }

  lemma U16Exact(most: nat)
    requires most < 0x1_0000
    ensures forall x :: 0 <= x <= most ==> U16(x) == x
  {}

  /** The device mapping of the first device and the array mapping of the 257th share a handle. */
  lemma HandlesOfManyClash()
    ensures HandleOf(2) == HandleOf(3 * 256 + 1)
  {}

  lemma AllHandlesAt(memsize: nat)
    ensures var table := Structures(memsize, DeviceCount(memsize));
      |table| == 3 * DeviceCount(memsize) && forall q :: 0 <= q < |table| ==> table[q].handle == HandleOf(q)
  {
    StructureCount(memsize, DeviceCount(memsize));
    forall q | 0 <= q < 3 * DeviceCount(memsize)
      ensures Structures(memsize, DeviceCount(memsize))[q].handle == HandleOf(q)
    {
      HandleAt(memsize, q);
    }
  }

  lemma AboveMostMeansManyDevices(memsize: nat)
    ensures memsize <= MOST <==> DeviceCount(memsize) <= 256
  {}

  /** No two of these structures have the same handle if and only if memory is at most 4 TB. */
  lemma HandlesDifferUpToFourTerabytes(memsize: nat)
    ensures HandlesDiffer(Structures(memsize, DeviceCount(memsize))) <==> memsize <= MOST
  {
    AboveMostMeansManyDevices(memsize);
    AllHandlesAt(memsize);
    HandlesOfTable(Structures(memsize, DeviceCount(memsize)), DeviceCount(memsize));
  }

  lemma HandlesOfTable(table: seq<Structure>, n: nat)
    requires |table| == 3 * n && forall q :: 0 <= q < |table| ==> table[q].handle == HandleOf(q)
    ensures HandlesDiffer(table) <==> n <= 256
  {
    if n <= 256 {
      forall a, b | 0 <= a < b < |table| ensures table[a].handle != table[b].handle {
        HandlesOfFewDiffer(a, b);
      }
    } else {
      HandlesOfManyClash();
      assert table[2].handle == table[3 * 256 + 1].handle;
    }
  }

  function SizeIn(s: Structure): nat {
    if s.MemoryDevice? then s.sizeMb else 0
  }

  /** The sizes in the type 17 structures, added up. */
  function TotalSize(table: seq<Structure>): nat {
    if table == [] then 0 else TotalSize(table[..|table| - 1]) + SizeIn(table[|table| - 1])
  }

  lemma TotalOfOneMore(table: seq<Structure>, s: Structure)
    ensures TotalSize(table + [s]) == TotalSize(table) + SizeIn(s)
  {
    assert (table + [s])[..|table|] == table;
  }

  lemma TotalOfDescribed(table: seq<Structure>, i: nat, mb: nat)
    ensures TotalSize(table + Described(i, mb)) == TotalSize(table) + U16(mb)
  {
    var d := Described(i, mb);
    TotalOfOneMore(table, d[0]);
    TotalOfOneMore(table + [d[0]], d[1]);
    TotalOfOneMore(table + [d[0]] + [d[1]], d[2]);
    assert table + d == table + [d[0]] + [d[1]] + [d[2]];
  }

  /** What the first `n` devices hold together. */
  function HeldByFirst(memsize: nat, n: nat): nat
    requires n <= DeviceCount(memsize)
  {
    if n == DeviceCount(memsize) then memsize else n * DEVICE
  }

  lemma NextDeviceHolds(memsize: nat, n: nat)
    requires n < DeviceCount(memsize)
    ensures HeldByFirst(memsize, n) + DeviceSize(memsize, n) == HeldByFirst(memsize, n + 1)
    ensures U16(DeviceSize(memsize, n)) == DeviceSize(memsize, n)
  {}

  lemma {:induction false} TotalOfFirst(memsize: nat, n: nat, table: seq<Structure>)
    requires n <= DeviceCount(memsize) && table == Structures(memsize, n)
    ensures TotalSize(table) == HeldByFirst(memsize, n)
  {
    if n > 0 {
      var before, size := Structures(memsize, n - 1), DeviceSize(memsize, n - 1);
      TotalOfFirst(memsize, n - 1, before);
      TotalOfDescribed(before, n - 1, size);
      NextDeviceHolds(memsize, n - 1);
    }
  }

  /** For every memory size the type 17 structures account for all of it. */
  lemma SizesSumToMemory(memsize: nat)
    ensures TotalSize(Structures(memsize, DeviceCount(memsize))) == memsize
  {
    TotalOfFirst(memsize, DeviceCount(memsize), Structures(memsize, DeviceCount(memsize)));
  }

  /** Kilobyte `a` is in the range that both mapped-address structures of device `i` give. */
  predicate Covers(memsize: nat, i: nat, a: nat)
    requires i < DeviceCount(memsize)
  {
    First(i) <= a <= Last(i, DeviceSize(memsize, i))
  }

  predicate Within(s: Structure, a: nat)
    requires !s.MemoryDevice?
  {
    s.first <= a <= s.last
  }

  /** Those two structures are in the table, agree, and refer to the device and to each other. */
  lemma TableGivesTheRanges(memsize: nat, i: nat, a: nat)
    requires i < DeviceCount(memsize)
    ensures var table := Structures(memsize, DeviceCount(memsize));
      && |table| == 3 * DeviceCount(memsize)
      && var device, mapped, deviceMapped := table[3 * i], table[3 * i + 1], table[3 * i + 2];
         && device.MemoryDevice? && mapped.ArrayMapped? && deviceMapped.DeviceMapped?
         && (Within(mapped, a) <==> Covers(memsize, i, a)) && (Within(deviceMapped, a) <==> Covers(memsize, i, a))
         && deviceMapped.device == device.handle && deviceMapped.mapped == mapped.handle
  {
    var table := Structures(memsize, DeviceCount(memsize));
    DeviceAt(memsize, DeviceCount(memsize), i);
    var three := table[3 * i..3 * i + 3];
    assert three[0] == table[3 * i] && three[1] == table[3 * i + 1] && three[2] == table[3 * i + 2];
  }

  /** Below 4 TB, nothing wraps around. */
  lemma RangeIsExact(memsize: nat, i: nat)
    requires i < DeviceCount(memsize) && memsize <= MOST
    ensures First(i) == i * 0x100_0000
    ensures Last(i, DeviceSize(memsize, i)) == i * 0x100_0000 + DeviceSize(memsize, i) * 1024 - 1
    ensures (i as int) * 0x100_0000 + DeviceSize(memsize, i) * 1024
      == if i == DeviceCount(memsize) - 1 then memsize * 1024 else (i + 1) * 0x100_0000
  {
    assert i < 256;
    U32Exact(i * 0x100_0000);
    U32Exact(DeviceSize(memsize, i) * 1024);
    U32Exact(First(i) + DeviceSize(memsize, i) * 1024 - 1);
  }

  /** The ranges tile memory: a kilobyte below its end is in the range of one device, and one above it
      in none. */
  lemma RangesTileMemory(memsize: nat, a: nat)
    requires memsize <= MOST
    ensures a < memsize * 1024 <==> a / 0x100_0000 < DeviceCount(memsize) && Covers(memsize, a / 0x100_0000, a)
    ensures forall i :: 0 <= i < DeviceCount(memsize) && Covers(memsize, i, a) ==> i == a / 0x100_0000
  {
    var owner := a / 0x100_0000;
    if owner < DeviceCount(memsize) {
      RangeIsExact(memsize, owner);
    }
    forall i | 0 <= i < DeviceCount(memsize) && Covers(memsize, i, a) ensures i == owner {
      RangeIsExact(memsize, i);
    }
  }

  /** No kilobyte is in two ranges. */
  ghost predicate Disjoint(memsize: nat) {
    forall i, j, a: nat :: 0 <= i < j < DeviceCount(memsize) && Covers(memsize, i, a) ==> !Covers(memsize, j, a)
  }

  /** The tiling holds exactly up to 4 TB: past that, the 257th device starts at address 0 again. */
  lemma DisjointUpToFourTerabytes(memsize: nat)
    ensures Disjoint(memsize) <==> memsize <= MOST
  {
    if memsize <= MOST {
      forall i, j, a: nat | 0 <= i < j < DeviceCount(memsize) && Covers(memsize, i, a)
        ensures !Covers(memsize, j, a)
      {
        RangesTileMemory(memsize, a);
      }
    } else {
      assert 256 < DeviceCount(memsize);
      assert First(256) == 0 && First(0) == 0;
      assert Covers(memsize, 0, 0) && Covers(memsize, 256, 0);
    }
  }
}
