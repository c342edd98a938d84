/** rombios32.c: the base address registers of the PCI functions, placed by four advancing cursors.
    Section 6.2.5.1 of PCI Local Bus Specification 3.0 says how a function reports a size: all ones
    written to a register read back as ones from the size up; an I/O register may hardwire its upper
    16 bits to zero. Port addresses are 16 bits wide. A memory register may also be one of 64 bits, whose
    upper half is the next register; the code takes that half for a register of its own. */
module PciAllocator {
  import opened Arith
  import opened Bits
  import Sequences

  const PCI_CLASS_STORAGE_IDE: nat := 0x0101
  const PCI_CLASS_SYSTEM_PIC: nat := 0x0800
  const CLASS_UNDEFINED: nat := 0xff00
  const PCI_VENDOR_ID_INTEL: nat := 0x8086

  type Word = w: int | 0 <= w < 0x1_0000_0000

  datatype Cursor = Memory | AgpMemory | Io | AgpIo

  /** A function as configuration space shows it; `masks` are the read-backs of its registers. */
  datatype Device = Device(bus: nat, class_: nat, vendor: nat, device: nat, headerType: nat, masks: seq<Word>)

  /** The functions whose registers the cursors place. */
  predicate UsesDefaultMap(d: Device) {
    && (if d.class_ == PCI_CLASS_STORAGE_IDE
        then d.vendor == PCI_VENDOR_ID_INTEL && d.device in {0x1230, 0x7010, 0x7111}
        else d.class_ != PCI_CLASS_SYSTEM_PIC && d.class_ != CLASS_UNDEFINED)
    && And(d.headerType, 3) == 0
  }

  predicate IsIo(c: Cursor) { c.Io? || c.AgpIo? }

  function CursorFor(bus: nat, val: Word): Cursor {
    if And(val, 1) != 0 then (if bus == 1 then AgpIo else Io)
    else (if bus == 1 then AgpMemory else Memory)
  }

  function Size(val: Word): Word {
    AndBound(val, 0xffff_fff0);
    U32(Not32(And(val, 0xffff_fff0)) + 1)
  }

  function AlignUp(at: Word, size: Word): Word {
    AndBound(U32(at + size - 1), Not32(U32(size - 1)));
    And(U32(at + size - 1), Not32(U32(size - 1)))
  }

  /** How far a cursor moves past a region: memory regions take at least 64K, ports at least 16. */
  function Stride(c: Cursor, size: nat): nat {
    Max(size, if IsIo(c) then 0x10 else 0x1_0000)
  }

  lemma {:induction false} AndBound(x: nat, m: nat)
    ensures And(x, m) <= x && And(x, m) <= m
  {
    if x != 0 && m != 0 { AndBound(x / 2, m / 2); }
  }

  /** One register of one function, wanting space. */
  datatype Request = Request(cursor: Cursor, size: Word)

  /** What was written to a register, and the size it had reported. */
  datatype Region = Region(cursor: Cursor, base: Word, size: Word)

  /** The positions of the four cursors. */
  datatype Cursors = Cursors(memory: Word, agpMemory: Word, io: Word, agpIo: Word) {
    function At(c: Cursor): Word {
      match c case Memory => memory case AgpMemory => agpMemory case Io => io case AgpIo => agpIo
    }

    function Set(c: Cursor, at: Word): Cursors {
      match c
      case Memory => this.(memory := at)
      case AgpMemory => this.(agpMemory := at)
      case Io => this.(io := at)
      case AgpIo => this.(agpIo := at)
    }
  }

  /** The cursors and the regions handed out so far. */
  datatype Map = Map(cursors: Cursors, regions: seq<Region>)

  /** Where each cursor starts. */
  function Start(c: Cursor): Word {
    match c case Memory => 0xc000_0000 case AgpMemory => 0xd000_0000 case Io => 0xc000 case AgpIo => 0xe000
  }

  const START := Map(Cursors(Start(Memory), Start(AgpMemory), Start(Io), Start(AgpIo)), [])

  function Place(m: Map, r: Request): Map {
    var base := AlignUp(m.cursors.At(r.cursor), r.size);
    Map(m.cursors.Set(r.cursor, U32(base + Stride(r.cursor, r.size))),
        m.regions + [Region(r.cursor, base, r.size)])
  }

  function PlaceAll(m: Map, rs: seq<Request>): Map
    decreases |rs|
  {
    if rs == [] then m else PlaceAll(Place(m, rs[0]), rs[1..])
  }

  /** The requests of registers reading back `masks`; one that reads back zero is not there. */
  function RequestsOf(bus: nat, masks: seq<Word>): seq<Request> {
    if masks == [] then []
    else if masks[0] == 0 then RequestsOf(bus, masks[1..])
    else [Request(CursorFor(bus, masks[0]), Size(masks[0]))] + RequestsOf(bus, masks[1..])
  }

  /** A function that answers configuration reads. */
  predicate Present(d: Device) { d.vendor != 0xffff || d.device != 0xffff }

  function Requests(d: Device): seq<Request> {
    if Present(d) && UsesDefaultMap(d) then RequestsOf(d.bus, d.masks) else []
  }

  function AllRequests(ds: seq<Device>): seq<Request> {
    if ds == [] then [] else Requests(ds[0]) + AllRequests(ds[1..])
  }

  // ----- What a function decodes -----

  /** The address space a cursor walks. */
  function Limit(c: Cursor): nat { if IsIo(c) then 0x1_0000 else 0x1_0000_0000 }

  function Visible(c: Cursor, w: Word): nat { if IsIo(c) then w % 0x1_0000 else w }

  function First(r: Region): nat { Visible(r.cursor, r.base) }
  function Extent(r: Region): nat { Visible(r.cursor, r.size) }

  /** A register that decodes 2^k addresses, as the specification lets an I/O or 32-bit memory register
      report: bits 1 and 2 of the latter are zero. */
  predicate Reports(c: Cursor, val: Word, k: nat) {
    && 4 <= k < (if IsIo(c) then 16 else 32)
    && (IsIo(c) || val / 2 % 4 == 0)
    && (And(val, 0xffff_fff0) == 0x1_0000_0000 - Pow2(k) || (IsIo(c) && And(val, 0xffff_fff0) == 0x1_0000 - Pow2(k)))
  }

  predicate Decodes(r: Request, k: nat) {
    && 4 <= k < (if IsIo(r.cursor) then 16 else 32)
    && (r.size == Pow2(k) || (IsIo(r.cursor) && r.size == 0xffff_0000 + Pow2(k)))
  }

  lemma Complemented(masked: Word, extent: nat)
    requires 16 <= extent <= 0x8000_0000
    ensures masked == 0x1_0000_0000 - extent ==> U32(Not32(masked) + 1) == extent
    ensures extent <= 0x8000 && masked == 0x1_0000 - extent ==> U32(Not32(masked) + 1) == 0xffff_0000 + extent
  {}

  /** The sizing arithmetic inverts the report. */
  lemma SizeOfReport(c: Cursor, val: Word, k: nat)
    requires Reports(c, val, k)
    ensures Decodes(Request(c, Size(val)), k)
  {
    Pow2Bounds(k);
    AndBound(val, 0xffff_fff0);
    Complemented(And(val, 0xffff_fff0), Pow2(k));
  }

  lemma Pow2Bounds(k: nat)
    requires 4 <= k < 32
    ensures 16 <= Pow2(k) <= 0x8000_0000
    ensures k < 16 ==> Pow2(k) <= 0x8000
  {
    Pow2Values();
    Pow2Monotone(4, k);
    Pow2Monotone(k, 31);
    Pow2Monotone(31, 32);
    if k < 16 {
      Pow2Monotone(k, 15);
      Pow2Monotone(15, 16);
    }
  }

  /** ANDing with the complement of size - 1 rounds down to the size. */
  lemma MaskOff(x: Word, k: nat, size: Word)
    requires 4 <= k < 32 && size == Pow2(k)
    ensures And(x, Not32(size - 1)) == Floor(x, size)
  {
    Pow2Values();
    assert Not32(size - 1) == Pow2(32) - size;
    AndRun(x, 32, k);
  }

  lemma Mod16Of32(x: int)
    ensures U32(x) % 0x1_0000 == x % 0x1_0000
  {}

  lemma PortSpaceShare(k: nat, size: nat) returns (a: nat)
    requires 4 <= k < 16 && size == Pow2(k)
    ensures 0x1_0000 == a * size
  {
    Pow2Values();
    a := PowersDivide(k, 16, size, 0x1_0000);
  }

  /** Port sizes divide the port space, so rounding down ignores the upper half. */
  lemma FloorInPortSpace(q: nat, x: nat, k: nat, size: nat)
    requires 4 <= k < 16 && size == Pow2(k)
    ensures Floor(q * 0x1_0000 + x, size) == q * 0x1_0000 + Floor(x, size)
  {
    var a := PortSpaceShare(k, size);
    FloorPasses(q, a, 0x1_0000, x, size);
  }

  /** So rounding down commutes with dropping the upper half. */
  lemma FloorOfLowHalf(y: nat, k: nat, size: nat)
    requires 4 <= k < 16 && size == Pow2(k)
    ensures Floor(y, size) % 0x1_0000 == Floor(y % 0x1_0000, size)
  {
    LowHalfOfFloor(y / 0x1_0000, y % 0x1_0000, k, size);
  }

  lemma LowHalfOfFloor(q: nat, x: nat, k: nat, size: nat)
    requires 4 <= k < 16 && size == Pow2(k) && x < 0x1_0000
    ensures Floor(q * 0x1_0000 + x, size) % 0x1_0000 == Floor(x, size)
  {
    FloorInPortSpace(q, x, k, size);
    FloorBounds(x, size);
    LowHalf(q, Floor(x, size));
  }

  lemma LowHalf(q: nat, x: nat)
    requires x < 0x1_0000
    ensures (q * 0x1_0000 + x) % 0x1_0000 == x
  {}

  /** The first multiple of `size` that is not below `at`, over the natural numbers. */
  function RoundUp(at: nat, size: nat): nat {
    if at == 0 || size == 0 then 0
    else if at <= size then size
    else size + RoundUp(at - size, size)
  }

  lemma {:induction false} RoundUpIsFloor(at: nat, size: nat)
    requires 0 < size
    ensures RoundUp(at, size) == Floor(at + size - 1, size)
    decreases at
  {
    if at == 0 {
      DivExact(0, size - 1, size);
    } else if at <= size {
      DivExact(1, at - 1, size);
    } else {
      RoundUpIsFloor(at - size, size);
      FloorShift(1, at - size + size - 1, size);
    }
  }

  /** A number modulo the address space of a cursor. */
  function Wrap(c: Cursor, x: nat): nat { if IsIo(c) then x % 0x1_0000 else x % 0x1_0000_0000 }

  lemma MemorySpaceShare(k: nat, size: nat) returns (a: nat)
    requires 4 <= k < 32 && size == Pow2(k)
    ensures 0x1_0000_0000 == a * size && 16 <= size <= 0x8000_0000
  {
    Pow2Bounds(k);
    Pow2Values();
    a := PowersDivide(k, 32, size, 0x1_0000_0000);
  }

  lemma PowersDivide(k: nat, n: nat, p: nat, q: nat) returns (a: nat)
    requires k <= n && p == Pow2(k) && q == Pow2(n)
    ensures q == a * p && p <= q && q % p == 0
  {
    Pow2Monotone(k, n);
    a := Pow2(n - k);
    Divides(a, p, q);
  }

  lemma Divides(a: nat, p: nat, q: nat)
    requires 0 < p && q == p * a
    ensures q % p == 0 && q == a * p
  {
    DivExact(a, 0, p);
  }

  /** In memory the 32-bit arithmetic rounds up modulo the address space. */
  lemma AlignUpMemory(at: Word, k: nat, size: Word)
    requires 4 <= k < 32 && size == Pow2(k)
    ensures AlignUp(at, size) == RoundUp(at, size) % 0x1_0000_0000
  {
    var a := MemorySpaceShare(k, size);
    U32Exact(size - 1);
    MaskOff(U32(at + size - 1), k, size);
    RoundingWraps(at + size - 1, size, a);
    RoundUpIsFloor(at, size);
  }

  /** Rounding down commutes with wrapping around. */
  lemma RoundingWraps(y: nat, size: nat, a: nat)
    requires 0 < size <= 0x8000_0000 && 0x1_0000_0000 == a * size && y < 0x1_8000_0000
    ensures Floor(U32(y), size) == Floor(y, size) % 0x1_0000_0000
  {
    if y < 0x1_0000_0000 {
      U32Exact(y);
      FloorBounds(y, size);
      U32Exact(Floor(y, size));
    } else {
      RoundingOverTheTop(y - 0x1_0000_0000, size, a);
    }
  }

  lemma RoundingOverTheTop(x: nat, size: nat, a: nat)
    requires 0 < size && 0x1_0000_0000 == a * size && x < 0x1_0000_0000
    ensures Floor(U32(x + 0x1_0000_0000), size) == Floor(x + 0x1_0000_0000, size) % 0x1_0000_0000
  {
    FloorPasses(1, a, 0x1_0000_0000, x, size);
    FloorBounds(x, size);
    LowWord(x);
    LowWord(Floor(x, size));
  }

  lemma LowWord(x: nat)
    requires x < 0x1_0000_0000
    ensures U32(x + 0x1_0000_0000) == x
  {}

  lemma SumOfLowHalves(x: nat, y: nat)
    ensures U32(x + y) % 0x1_0000 == (x % 0x1_0000 + y % 0x1_0000) % 0x1_0000
  {
    Mod16Of32(x + y);
  }

  /** With ports it does so in the lower half, whether or not the register has its upper half. */
  lemma AlignUpPort(at: Word, k: nat, size: Word, extent: nat)
    requires 4 <= k < 16 && extent == Pow2(k) && 16 <= extent <= 0x8000
    requires size == extent || size == 0xffff_0000 + extent
    ensures AlignUp(at, size) % 0x1_0000 == RoundUp(at % 0x1_0000, extent) % 0x1_0000
  {
    AlignUpRoundsDown(at, k, size, extent);
    LowHalfOfSum(at, size, extent);
    FloorOfLowHalf(at % 0x1_0000 + (extent - 1), k, extent);
    RoundUpIsFloor(at % 0x1_0000, extent);
  }

  lemma LowHalfOfSum(at: Word, size: Word, extent: nat)
    requires 16 <= extent <= 0x8000 && (size == extent || size == 0xffff_0000 + extent)
    ensures U32(at + size - 1) % 0x1_0000 == (at % 0x1_0000 + (extent - 1)) % 0x1_0000
  {
    assert (size - 1) % 0x1_0000 == extent - 1;
    SumOfLowHalves(at, size - 1);
  }

  lemma AlignUpRoundsDown(at: Word, k: nat, size: Word, extent: nat)
    requires 4 <= k < 16 && extent == Pow2(k) && 16 <= extent <= 0x8000
    requires size == extent || size == 0xffff_0000 + extent
    ensures AlignUp(at, size) % 0x1_0000 == Floor(U32(at + size - 1) % 0x1_0000, extent)
  {
    if size == extent {
      FullPortRoundsDown(at, k, size);
    } else {
      ShortPortRoundsDown(at, k, size, extent);
    }
  }

  lemma FullPortRoundsDown(at: Word, k: nat, size: Word)
    requires 4 <= k < 16 && size == Pow2(k) && 16 <= size <= 0x8000
    ensures AlignUp(at, size) % 0x1_0000 == Floor(U32(at + size - 1) % 0x1_0000, size)
  {
    var x := U32(at + size - 1);
    U32Exact(size - 1);
    MaskOff(x, k, size);
    assert AlignUp(at, size) == Floor(x, size);
    FloorOfLowHalf(x, k, size);
  }

  lemma ShortPortRoundsDown(at: Word, k: nat, size: Word, extent: nat)
    requires 4 <= k < 16 && extent == Pow2(k) && 16 <= extent <= 0x8000 && size == 0xffff_0000 + extent
    ensures AlignUp(at, size) % 0x1_0000 == Floor(U32(at + size - 1) % 0x1_0000, extent)
  {
    var x := U32(at + size - 1);
    ShortMask(size, extent);
    AndRun16(x, k, extent);
    FloorBounds(x % 0x1_0000, extent);
    LowHalf(0, Floor(x % 0x1_0000, extent));
  }

  lemma ShortMask(size: Word, extent: nat)
    requires 16 <= extent <= 0x8000 && size == 0xffff_0000 + extent
    ensures U32(size - 1) == size - 1 && Not32(size - 1) == 0x1_0000 - extent
  {}

  lemma AndRun16(x: Word, k: nat, extent: nat)
    requires 4 <= k < 16 && extent == Pow2(k) && extent <= 0x8000
    ensures And(x, 0x1_0000 - extent) == Floor(x % 0x1_0000, extent)
  {
    Pow2Values();
    AndRunBetween(x, 16, k, 0x1_0000, extent);
  }

  lemma PortCursorMoves(base: Word, size: Word, extent: nat)
    requires 16 <= extent <= 0x8000 && (size == extent || size == 0xffff_0000 + extent)
    ensures size % 0x1_0000 == extent
    ensures U32(base + size) % 0x1_0000 == (base % 0x1_0000 + extent) % 0x1_0000
  {
    SumOfLowHalves(base, size);
  }

  lemma PlacedInPorts(c: Cursor, at: Word, size: Word, k: nat, extent: nat)
    requires IsIo(c) && 4 <= k < 16 && extent == Pow2(k) && 16 <= extent <= 0x8000
    requires size == extent || size == 0xffff_0000 + extent
    ensures size % 0x1_0000 == extent
    ensures var base := AlignUp(at, size);
      && base % 0x1_0000 == RoundUp(at % 0x1_0000, extent) % 0x1_0000
      && U32(base + Stride(c, size)) % 0x1_0000 == (base % 0x1_0000 + Stride(c, extent)) % 0x1_0000
  {
    AlignUpPort(at, k, size, extent);
    assert Stride(c, size) == size && Stride(c, extent) == extent;
    var base := AlignUp(at, size);
    PortCursorMoves(base, size, extent);
  }

  /** Every request lands rounded up, and moves its cursor past it, modulo its address space. */
  lemma PlacedAt(c: Cursor, at: Word, size: Word, k: nat, extent: nat)
    requires Decodes(Request(c, size), k) && extent == Pow2(k)
    ensures 16 <= Visible(c, size) == extent
    ensures var base := AlignUp(at, size);
      && Visible(c, base) == Wrap(c, RoundUp(Visible(c, at), extent))
      && Visible(c, U32(base + Stride(c, size))) == Wrap(c, Visible(c, base) + Stride(c, extent))
  {
    Pow2Bounds(k);
    if IsIo(c) {
      PlacedInPorts(c, at, size, k, extent);
    } else {
      AlignUpMemory(at, k, size);
    }
  }

  // ----- The same placement over the natural numbers -----

  /** Consecutive addresses. */
  datatype Span = Span(first: nat, size: nat)

  /** The addresses a request wants. */
  function Wanted(r: Request): nat { Visible(r.cursor, r.size) }

  /** Where the requests of cursor `c` go one after the other from `at` if addresses never wrap around. */
  function Spans(c: Cursor, at: nat, rs: seq<Request>): seq<Span>
    decreases |rs|
  {
    if rs == [] then []
    else if rs[0].cursor != c then Spans(c, at, rs[1..])
    else
      var first := RoundUp(at, Wanted(rs[0]));
      [Span(first, Wanted(rs[0]))] + Spans(c, first + Stride(c, Wanted(rs[0])), rs[1..])
  }

  predicate EndBy(spans: seq<Span>, limit: nat) {
    forall i :: 0 <= i < |spans| ==> spans[i].first + spans[i].size <= limit
  }

  /** What the regions of cursor `c` decode, in the order they were placed. */
  function Occupied(regions: seq<Region>, c: Cursor): seq<Span> {
    if regions == [] then []
    else
      var last := regions[|regions| - 1];
      Occupied(regions[..|regions| - 1], c) + if last.cursor == c then [Span(First(last), Extent(last))] else []
  }

  predicate Overlap(a: Span, b: Span) {
    a.first < b.first + b.size && b.first < a.first + a.size
  }

  /** Aligned to its size, at or above its cursor's start, and inside the address space. */
  predicate WellPlaced(c: Cursor, a: Span) {
    0 < a.size && a.first % a.size == 0 && Start(c) <= a.first && a.first + a.size <= Limit(c)
  }

  predicate Sane(c: Cursor, spans: seq<Span>) {
    && (forall i :: 0 <= i < |spans| ==> WellPlaced(c, spans[i]))
    && (forall i, j :: 0 <= i < j < |spans| ==> !Overlap(spans[i], spans[j]))
  }

  ghost predicate AllDecode(rs: seq<Request>) {
    forall i :: 0 <= i < |rs| ==> Decodable(rs[i])
  }

  ghost predicate Decodable(r: Request) {
    exists k :: Decodes(r, k)
  }

  // ----- Multiples -----

  lemma MultipleOfMultiple(x: nat, p: nat, a: nat, q: nat)
    requires 0 < q && 0 < p == a * q && x % p == 0
    ensures x % q == 0
  {
    var m := x / p;
    assert x == (m * a) * q by { assert m * (a * q) == (m * a) * q; }
    DivExact(m * a, 0, q);
  }

  lemma SumOfMultiples(x: nat, y: nat, q: nat)
    requires 0 < q && x % q == 0 && y % q == 0
    ensures (x + y) % q == 0
  {
    assert x + y == (x / q + y / q) * q;
    DivExact(x / q + y / q, 0, q);
  }

  /** Multiples less than one step apart are in order. */
  lemma MultiplesInOrder(x: nat, y: nat, q: nat)
    requires 0 < q && x % q == 0 && y % q == 0 && x < y + q
    ensures x <= y
  {
    assert x == (x / q) * q && y == (y / q) * q;
    MultipleGrows(x / q - y / q, q);
    assert (x / q - y / q) * q == x - y;
  }

  lemma {:induction false} RoundUpBounds(at: nat, size: nat)
    requires 0 < size
    ensures at <= RoundUp(at, size) < at + size && RoundUp(at, size) % size == 0
    ensures at % size == 0 ==> RoundUp(at, size) == at
  {
    RoundUpIsFloor(at, size);
    FloorBounds(at + size - 1, size);
    if at % size == 0 { MultiplesInOrder(RoundUp(at, size), at, size); }
  }

  /** How finely a cursor moves: the least distance between regions. */
  function Grain(c: Cursor): nat { if IsIo(c) then 0x10 else 0x1_0000 }

  lemma SizeDividesLimit(c: Cursor, k: nat, size: nat)
    requires 4 <= k < (if IsIo(c) then 16 else 32) && size == Pow2(k)
    ensures 0 < size && Limit(c) % size == 0 && Limit(c) % Grain(c) == 0
  {
    if IsIo(c) {
      var a := PortSpaceShare(k, size);
      DivExact(a, 0, size);
    } else {
      var a := MemorySpaceShare(k, size);
      DivExact(a, 0, size);
    }
  }

  /** A size is a multiple of the grain, or the grain of the size. */
  lemma SizeAndGrain(c: Cursor, k: nat, size: nat)
    requires 4 <= k < (if IsIo(c) then 16 else 32) && size == Pow2(k)
    ensures 0 < size && if Grain(c) <= size then size % Grain(c) == 0 else Grain(c) % size == 0
  {
    var g := if IsIo(c) then 4 else 16;
    GrainIsPowerOfTwo(c, g);
    if g <= k {
      var _ := PowersDivide(g, k, Grain(c), size);
    } else {
      var _ := PowersDivide(k, g, size, Grain(c));
    }
  }

  lemma GrainIsPowerOfTwo(c: Cursor, g: nat)
    requires g == if IsIo(c) then 4 else 16
    ensures Grain(c) == Pow2(g)
  {
    Pow2Values();
  }

  /** One step over the natural numbers, from a multiple of the grain inside the address space: the span
      is inside too, or it starts exactly at the end. */
  lemma NextSpan(c: Cursor, at: nat, k: nat, size: nat, first: nat)
    requires 4 <= k < (if IsIo(c) then 16 else 32) && size == Pow2(k) && first == RoundUp(at, size)
    requires at <= Limit(c) && at % Grain(c) == 0
    ensures at <= first <= Limit(c) && first % size == 0
    ensures first < Limit(c) ==> first + size <= Limit(c)
    ensures first < Limit(c) ==>
      var next := first + Stride(c, size); next <= Limit(c) && next % Grain(c) == 0
  {
    SizeDividesLimit(c, k, size);
    RoundUpBounds(at, size);
    MultiplesInOrder(first, Limit(c), size);
    if first < Limit(c) {
      SumOfMultiples(first, size, size);
      MultiplesInOrder(first + size, Limit(c), size);
      SizeAndGrain(c, k, size);
      NextIsGrained(c, at, size, first);
    }
  }

  lemma NextIsGrained(c: Cursor, at: nat, size: nat, first: nat)
    requires 0 < size && first == RoundUp(at, size) && at <= first < Limit(c) && first + size <= Limit(c)
    requires at % Grain(c) == 0 && Limit(c) % Grain(c) == 0
    requires if Grain(c) <= size then size % Grain(c) == 0 else Grain(c) % size == 0
    ensures var next := first + Stride(c, size); next <= Limit(c) && next % Grain(c) == 0
  {
    var g, limit := Grain(c), Limit(c);
    assert Stride(c, size) == if g <= size then size else g;
    RoundUpBounds(at, size);
    if g <= size {
      WholeGrains(first, size, g);
    } else {
      PartOfGrain(at, size, g, first, limit);
    }
  }

  lemma WholeGrains(first: nat, size: nat, g: nat)
    requires 0 < g <= size && first % size == 0 && size % g == 0
    ensures (first + size) % g == 0
  {
    MultipleOfMultiple(first, size, size / g, g);
    SumOfMultiples(first, size, g);
  }

  lemma PartOfGrain(at: nat, size: nat, g: nat, first: nat, limit: nat)
    requires 0 < size < g && at % g == 0 && g % size == 0 && first == RoundUp(at, size)
    requires first < limit && limit % g == 0
    ensures (first + g) % g == 0 && first + g <= limit
  {
    MultipleOfMultiple(at, g, g / size, size);
    RoundUpBounds(at, size);
    SumOfMultiples(first, g, g);
    MultiplesInOrder(first + g, limit, g);
  }

  /** Spans from `at` on, aligned, in order and apart. */
  predicate Ordered(at: nat, s: seq<Span>) {
    && (forall i :: 0 <= i < |s| ==> 0 < s[i].size && s[i].first % s[i].size == 0 && at <= s[i].first)
    && (forall i, j :: 0 <= i < j < |s| ==> s[i].first + s[i].size <= s[j].first)
  }

  lemma OrderedCons(at: nat, span: Span, next: nat, rest: seq<Span>, all: seq<Span>)
    requires 0 < span.size && span.first % span.size == 0 && at <= span.first && span.first + span.size <= next
    requires Ordered(next, rest) && all == [span] + rest
    ensures Ordered(at, all)
  {
    assert all[0] == span && forall i :: 0 < i < |all| ==> all[i] == rest[i - 1];
  }

  lemma {:induction false} SpansAreOrdered(c: Cursor, at: nat, rs: seq<Request>)
    requires AllDecode(rs)
    ensures Ordered(at, Spans(c, at, rs))
    decreases |rs|
  {
    if rs != [] {
      assert Decodable(rs[0]);
      if rs[0].cursor != c {
        SpansAreOrdered(c, at, rs[1..]);
      } else {
        var _ := WantedIsPowerOfTwo(rs[0]);
        var size, first := Wanted(rs[0]), RoundUp(at, Wanted(rs[0]));
        RoundUpBounds(at, size);
        var next := first + Stride(c, size);
        SpansAreOrdered(c, next, rs[1..]);
        OrderedCons(at, Span(first, size), next, Spans(c, next, rs[1..]), Spans(c, at, rs));
      }
    }
  }

  lemma WantedIsPowerOfTwo(r: Request) returns (k: nat)
    requires Decodable(r)
    ensures Decodes(r, k) && 0 < Wanted(r) == Pow2(k)
  {
    k :| Decodes(r, k);
    PlacedAt(r.cursor, 0, r.size, k, Pow2(k));
  }

  // ----- The placement follows the natural one as long as there is room -----

  /** The cursor is where the natural placement is, which is at most at the end of its address space. */
  predicate Follows(m: Map, c: Cursor, at: nat) {
    Start(c) <= at && InStep(c, m.cursors.At(c), at)
  }

  predicate InStep(c: Cursor, word: Word, at: nat) {
    at <= Limit(c) && Visible(c, word) == AtEnd(c, at) && at % Grain(c) == 0
  }

  /** A position, or 0 for the end of the address space. */
  function AtEnd(c: Cursor, at: nat): nat { if at == Limit(c) then 0 else at }

  lemma OtherCursor(m: Map, r: Request, c: Cursor)
    requires r.cursor != c
    ensures Place(m, r).cursors.At(c) == m.cursors.At(c)
    ensures Occupied(Place(m, r).regions, c) == Occupied(m.regions, c)
  {
    var n := Place(m, r);
    assert n.regions[..|m.regions|] == m.regions;
  }

  /** One step modulo the address space next to the natural one: it is the same, or the region lands at
      address 0. */
  lemma StepInStep(c: Cursor, word: Word, at: nat, base: Word, moved: Word, k: nat, wanted: nat, first: nat)
    requires 4 <= k < (if IsIo(c) then 16 else 32) && wanted == Pow2(k) && first == RoundUp(at, wanted)
    requires InStep(c, word, at) && Visible(c, base) == Wrap(c, RoundUp(Visible(c, word), wanted))
    requires Visible(c, moved) == Wrap(c, Visible(c, base) + Stride(c, wanted))
    ensures at <= first <= Limit(c) && (first < Limit(c) <==> first + wanted <= Limit(c))
    ensures Visible(c, base) == AtEnd(c, first)
    ensures first < Limit(c) ==> InStep(c, moved, first + Stride(c, wanted))
  {
    NextSpan(c, at, k, wanted, first);
    FromEnd(c, at, wanted, first);
    if first < Limit(c) {
      WrappedInStep(c, moved, first + Stride(c, wanted));
    }
  }

  lemma WrappedInStep(c: Cursor, word: Word, at: nat)
    requires at <= Limit(c) && at % Grain(c) == 0 && Visible(c, word) == Wrap(c, at)
    ensures InStep(c, word, at)
  {
    WrapsAtEnd(c, at);
  }

  /** Rounding up from the wrapped position gives the wrapped result. */
  lemma FromEnd(c: Cursor, at: nat, size: nat, first: nat)
    requires 0 < size && first == RoundUp(at, size) && at <= first <= Limit(c)
    ensures Wrap(c, RoundUp(AtEnd(c, at), size)) == AtEnd(c, first)
  {
    WrapsAtEnd(c, first);
  }

  lemma WrapsAtEnd(c: Cursor, x: nat)
    requires x <= Limit(c)
    ensures Wrap(c, x) == AtEnd(c, x)
  {}

  /** One request of the cursor, next to its natural placement. */
  lemma OwnCursor(m: Map, r: Request, c: Cursor, at: nat, first: nat, size: nat)
    requires r.cursor == c && Decodable(r) && Follows(m, c, at) && size == Wanted(r) && first == RoundUp(at, size)
    ensures first <= Limit(c) && (first < Limit(c) <==> first + size <= Limit(c))
    ensures Occupied(Place(m, r).regions, c) == Occupied(m.regions, c) + [Span(AtEnd(c, first), size)]
    ensures first < Limit(c) ==> Follows(Place(m, r), c, first + Stride(c, size))
  {
    var k := WantedIsPowerOfTwo(r);
    var word, n := m.cursors.At(c), Place(m, r);
    PlacedAt(c, word, r.size, k, size);
    StepInStep(c, word, at, n.regions[|m.regions|].base, n.cursors.At(c), k, size, first);
    assert n.regions[..|m.regions|] == m.regions;
  }

  /** With room, the regions are exactly the natural spans. */
  lemma {:induction false} RoomPlacesSpans(m: Map, c: Cursor, at: nat, rs: seq<Request>)
    requires Follows(m, c, at) && AllDecode(rs) && EndBy(Spans(c, at, rs), Limit(c))
    ensures Occupied(PlaceAll(m, rs).regions, c) == Occupied(m.regions, c) + Spans(c, at, rs)
    decreases |rs|
  {
    if rs == [] {
      assert Occupied(m.regions, c) + [] == Occupied(m.regions, c);
    } else {
      var n := Place(m, rs[0]);
      assert Decodable(rs[0]);
      if rs[0].cursor != c {
        OtherCursor(m, rs[0], c);
        RoomPlacesSpans(n, c, at, rs[1..]);
      } else {
        var size, first := Wanted(rs[0]), RoundUp(at, Wanted(rs[0]));
        OwnCursor(m, rs[0], c, at, first, size);
        var rest := Spans(c, first + Stride(c, size), rs[1..]);
        EndByCons(Span(first, size), rest, Spans(c, at, rs), Limit(c));
        RoomPlacesSpans(n, c, first + Stride(c, size), rs[1..]);
        Sequences.Associates(Occupied(m.regions, c), [Span(first, size)], rest);
      }
    }
  }

  lemma EndByCons(span: Span, rest: seq<Span>, all: seq<Span>, limit: nat)
    requires all == [span] + rest
    ensures EndBy(all, limit) <==> span.first + span.size <= limit && EndBy(rest, limit)
  {
    assert all[0] == span && forall i :: 0 <= i < |rest| ==> rest[i] == all[i + 1];
  }

  lemma {:induction false} OccupiedGrows(m: Map, c: Cursor, rs: seq<Request>)
    ensures Occupied(m.regions, c) <= Occupied(PlaceAll(m, rs).regions, c)
    decreases |rs|
  {
    if rs != [] {
      var n := Place(m, rs[0]);
      assert n.regions[..|m.regions|] == m.regions;
      OccupiedGrows(n, c, rs[1..]);
    }
  }

  /** Without room, some region starts at address 0. */
  lemma {:induction false} NoRoomMisplaces(m: Map, c: Cursor, at: nat, rs: seq<Request>) returns (i: nat)
    requires Follows(m, c, at) && AllDecode(rs) && !EndBy(Spans(c, at, rs), Limit(c))
    ensures var s := Occupied(PlaceAll(m, rs).regions, c); i < |s| && s[i].first == 0
    decreases |rs|
  {
    if rs[0].cursor != c {
      OtherCursor(m, rs[0], c);
      i := NoRoomMisplaces(Place(m, rs[0]), c, at, rs[1..]);
    } else {
      assert Decodable(rs[0]);
      var first, size := RoundUp(at, Wanted(rs[0])), Wanted(rs[0]);
      OwnCursor(m, rs[0], c, at, first, size);
      if first < Limit(c) {
        var rest := Spans(c, first + Stride(c, size), rs[1..]);
        EndByCons(Span(first, size), rest, Spans(c, at, rs), Limit(c));
        i := NoRoomMisplaces(Place(m, rs[0]), c, first + Stride(c, size), rs[1..]);
      } else {
        i := |Occupied(m.regions, c)|;
        OccupiedGrows(Place(m, rs[0]), c, rs[1..]);
      }
    }
  }

  /** I/O and 32-bit memory registers that report a power of two, as the specification lets them. */
  ghost predicate RegistersReport(d: Device) {
    forall i :: 0 <= i < |d.masks| && d.masks[i] != 0 ==> RegisterReports(d.bus, d.masks[i])
  }

  ghost predicate RegisterReports(bus: nat, val: Word) {
    exists k :: Reports(CursorFor(bus, val), val, k)
  }

  ghost predicate AllReport(ds: seq<Device>) {
    forall i :: 0 <= i < |ds| && Present(ds[i]) && UsesDefaultMap(ds[i]) ==> RegistersReport(ds[i])
  }

  lemma {:induction false} RequestsOfDecode(bus: nat, masks: seq<Word>)
    requires forall i :: 0 <= i < |masks| && masks[i] != 0 ==> RegisterReports(bus, masks[i])
    ensures AllDecode(RequestsOf(bus, masks))
    decreases |masks|
  {
    if masks != [] {
      RequestsOfDecode(bus, masks[1..]);
      if masks[0] != 0 {
        assert RegisterReports(bus, masks[0]);
        var k :| Reports(CursorFor(bus, masks[0]), masks[0], k);
        SizeOfReport(CursorFor(bus, masks[0]), masks[0], k);
      }
    }
  }

  lemma {:induction false} AllRequestsDecode(ds: seq<Device>)
    requires AllReport(ds)
    ensures AllDecode(AllRequests(ds))
    decreases |ds|
  {
    if ds != [] {
      AllRequestsDecode(ds[1..]);
      if Present(ds[0]) && UsesDefaultMap(ds[0]) {
        RequestsOfDecode(ds[0].bus, ds[0].masks);
      }
    }
  }

  /** There is room for the requests of a cursor if none of them, placed over the natural numbers, ends
      above its address space: a running sum. */
  predicate Room(c: Cursor, rs: seq<Request>) {
    EndBy(Spans(c, Start(c), rs), Limit(c))
  }

  lemma StartFollows(m: Map, c: Cursor)
    requires m == START
    ensures Follows(m, c, Start(c)) && Occupied(m.regions, c) == []
  {}

  lemma OrderedIsSane(c: Cursor, spans: seq<Span>)
    requires Ordered(Start(c), spans) && EndBy(spans, Limit(c))
    ensures Sane(c, spans)
  {}

  lemma MisplacedIsNotSane(c: Cursor, spans: seq<Span>, i: nat)
    requires i < |spans| && spans[i].first == 0
    ensures !Sane(c, spans)
  {
    assert !WellPlaced(c, spans[i]);
  }

  lemma {:induction false} PlacementIsSane(rs: seq<Request>, start: Map, c: Cursor, placed: seq<Span>)
    requires AllDecode(rs) && start == START && placed == Occupied(PlaceAll(start, rs).regions, c)
    ensures Sane(c, placed) <==> Room(c, rs)
    ensures Room(c, rs) ==> placed == Spans(c, Start(c), rs)
  {
    StartFollows(start, c);
    if Room(c, rs) {
      RoomPlacesSpans(start, c, Start(c), rs);
      assert [] + Spans(c, Start(c), rs) == Spans(c, Start(c), rs);
      SpansAreOrdered(c, Start(c), rs);
      OrderedIsSane(c, placed);
    } else {
      var i := NoRoomMisplaces(start, c, Start(c), rs);
      MisplacedIsNotSane(c, placed, i);
    }
  }

  /** All memory, I/O and ROM regions given to all functions on both buses from one cursor are aligned to
      their size, at or above its start, inside its address space and pairwise disjoint if and only if
      there is room; they are then exactly where the running sum says. */
  lemma {:induction false} AllRegionsAreDisjoint(ds: seq<Device>, rs: seq<Request>, m: Map, c: Cursor)
    requires AllReport(ds) && rs == AllRequests(ds) && m == PlaceAll(START, rs)
    ensures Sane(c, Occupied(m.regions, c)) <==> Room(c, rs)
    ensures Room(c, rs) ==> Occupied(m.regions, c) == Spans(c, Start(c), rs)
  {
    AllRequestsDecode(ds);
    PlacementIsSane(rs, START, c, Occupied(m.regions, c));
  }

  /** How far apart the regions of a cursor begin at least. */
  lemma {:induction false} SpansKeepDistance(c: Cursor, at: nat, rs: seq<Request>, i: nat, j: nat)
    requires AllDecode(rs) && i < j < |Spans(c, at, rs)|
    ensures var s := Spans(c, at, rs); s[i].first + (if IsIo(c) then 0x10 else 0x1_0000) <= s[j].first
    decreases |rs|
  {
    if rs[0].cursor != c {
      SpansKeepDistance(c, at, rs[1..], i, j);
    } else {
      var next := RoundUp(at, Wanted(rs[0])) + Stride(c, Wanted(rs[0]));
      if i > 0 {
        SpansKeepDistance(c, next, rs[1..], i - 1, j - 1);
      } else {
        SpansAreOrdered(c, next, rs[1..]);
      }
    }
  }

  /** With room, memory regions from one cursor begin at least 64K apart and ports at least 16. */
  lemma {:induction false} RegionsKeepDistance(ds: seq<Device>, rs: seq<Request>, m: Map, c: Cursor, i: nat, j: nat)
    requires AllReport(ds) && rs == AllRequests(ds) && m == PlaceAll(START, rs) && Room(c, rs)
    requires i < j < |Occupied(m.regions, c)|
    ensures var s := Occupied(m.regions, c); s[i].first + (if IsIo(c) then 0x10 else 0x1_0000) <= s[j].first
  {
    AllRegionsAreDisjoint(ds, rs, m, c);
    AllRequestsDecode(ds);
    SpansKeepDistance(c, Start(c), rs, i, j);
  }

  // ----- Memory registers of 64 bits -----

  /** What the two halves of a 64-bit memory register that decodes 2^k addresses read back. */
  predicate WideReports(low: Word, high: Word, k: nat) {
    && 4 <= k < 32
    && And(low, 1) == 0 && low / 2 % 4 == 2 && And(low, 0xffff_fff0) == 0x1_0000_0000 - Pow2(k)
    && high == 0xffff_ffff
  }

  /** Where such a register decodes when these were written to its halves. */
  function WideAddress(low: Word, high: Word): nat { low + 0x1_0000_0000 * high }

  function Ports(bus: nat): Cursor { if bus == 1 then AgpIo else Io }

  /** The upper half is taken for 16 ports. */
  lemma HalvesWanted(bus: nat, low: Word, high: Word, k: nat)
    requires WideReports(low, high, k)
    ensures low != 0 && !IsIo(CursorFor(bus, low)) && Size(low) == Pow2(k)
    ensures CursorFor(bus, high) == Ports(bus) && Size(high) == 16
  {
    Pow2Bounds(k);
    LowHalfWanted(low, Pow2(k));
    HighHalfWanted(high);
  }

  lemma LowHalfWanted(low: Word, size: nat)
    requires 16 <= size <= 0x8000_0000 && And(low, 0xffff_fff0) == 0x1_0000_0000 - size
    ensures low != 0 && Size(low) == size
  {
    AndBound(low, 0xffff_fff0);
    Complemented(And(low, 0xffff_fff0), size);
  }

  lemma HighHalfWanted(high: Word)
    requires high == 0xffff_ffff
    ensures And(high, 1) == 1 && Size(high) == 16
  {
    OddBit(high);
    FlagsOff(high);
    AndBound(high, 0xffff_fff0);
    assert Floor(high, 16) == 0xffff_fff0;
  }

  lemma OddBit(x: nat)
    requires x % 2 == 1
    ensures And(x, 1) == 1
  {
    assert And(x / 2, 0) == 0;
  }

  lemma {:induction false} RequestsJoin(bus: nat, a: seq<Word>, b: seq<Word>)
    ensures RequestsOf(bus, a + b) == RequestsOf(bus, a) + RequestsOf(bus, b)
    decreases |a|
  {
    if a == [] {
      assert a + b == b;
    } else {
      assert (a + b)[1..] == a[1..] + b;
      RequestsJoin(bus, a[1..], b);
    }
  }

  /** The requests of the two halves, in those of their function. */
  lemma HalvesInFunction(d: Device, i: nat, k: nat, rs: seq<Request>, at: nat)
    requires i + 1 < |d.masks| && WideReports(d.masks[i], d.masks[i + 1], k)
    requires rs == RequestsOf(d.bus, d.masks) && at == |RequestsOf(d.bus, d.masks[..i])|
    ensures at + 1 < |rs| && !IsIo(rs[at].cursor) && rs[at].size == Pow2(k) && rs[at + 1] == Request(Ports(d.bus), 16)
  {
    var low, high := d.masks[i], d.masks[i + 1];
    HalvesWanted(d.bus, low, high, k);
    var rest := d.masks[i..];
    assert d.masks == d.masks[..i] + rest && rest[0] == low && rest[1..][0] == high;
    RequestsJoin(d.bus, d.masks[..i], rest);
    assert RequestsOf(d.bus, rest)
        == [Request(CursorFor(d.bus, low), Size(low))] + ([Request(Ports(d.bus), 16)] + RequestsOf(d.bus, rest[1..][1..]));
  }

  /** The requests of one function, in those of all. */
  lemma FunctionInAll(ds: seq<Device>, j: nat, rs: seq<Request>, at: nat, q: nat)
    requires j < |ds| && rs == AllRequests(ds) && at == |AllRequests(ds[..j])| && q < |Requests(ds[j])|
    ensures at + q < |rs| && rs[at + q] == Requests(ds[j])[q]
  {
    SplitAtFunction(ds, j);
    Sequences.InTheMiddle(rs, AllRequests(ds[..j]), Requests(ds[j]), AllRequests(ds[j + 1..]), q);
  }

  lemma {:induction false} SplitAtFunction(ds: seq<Device>, j: nat)
    requires j < |ds|
    ensures AllRequests(ds) == AllRequests(ds[..j]) + (Requests(ds[j]) + AllRequests(ds[j + 1..]))
  {
    if j == 0 {
      assert AllRequests(ds[..0]) == [];
    } else {
      var d, rest := ds[0], ds[1..];
      assert ds[..j][0] == d && ds[..j][1..] == rest[..j - 1] && ds[j + 1..] == rest[j..] && rest[j - 1] == ds[j];
      SplitAtFunction(rest, j - 1);
      Sequences.Associates(Requests(d), AllRequests(rest[..j - 1]), Requests(ds[j]) + AllRequests(ds[j + 1..]));
    }
  }

  predicate Answers(region: Region, r: Request) {
    region.cursor == r.cursor && region.size == r.size
  }

  /** Every request leaves one region, in order. */
  lemma {:induction false} RegionsInOrder(m: Map, rs: seq<Request>, i: nat, after: seq<Region>)
    requires i < |rs| && after == PlaceAll(m, rs).regions
    ensures |after| == |m.regions| + |rs| && Answers(after[|m.regions| + i], rs[i])
    decreases |rs|
  {
    var n, rest := Place(m, rs[0]), rs[1..];
    if i > 0 {
      assert rs[i] == rest[i - 1];
      RegionsInOrder(n, rest, i - 1, after);
    } else {
      RegionsKept(n, rest, |m.regions|, after);
    }
  }

  lemma {:induction false} RegionsKept(m: Map, rs: seq<Request>, i: nat, after: seq<Region>)
    requires i < |m.regions| && after == PlaceAll(m, rs).regions
    ensures |after| == |m.regions| + |rs| && after[i] == m.regions[i]
    decreases |rs|
  {
    if rs != [] {
      var n := Place(m, rs[0]);
      assert n.regions[i] == m.regions[i];
      RegionsKept(n, rs[1..], i, after);
    }
  }

  lemma {:induction false} IsOccupied(regions: seq<Region>, c: Cursor, i: nat)
    requires i < |regions| && regions[i].cursor == c
    ensures Span(First(regions[i]), Extent(regions[i])) in Occupied(regions, c)
  {
    if i < |regions| - 1 { IsOccupied(regions[..|regions| - 1], c, i); }
  }

  /** With room among the ports, a port region is never at address 0. */
  lemma PortIsNotZero(rs: seq<Request>, m: Map, c: Cursor, i: nat)
    requires AllDecode(rs) && m == PlaceAll(START, rs) && Room(c, rs)
    requires i < |m.regions| && m.regions[i].cursor == c
    ensures 0 < m.regions[i].base
  {
    var placed := Occupied(m.regions, c);
    PlacementIsSane(rs, START, c, placed);
    IsOccupied(m.regions, c, i);
    NotAtZero(c, m.regions[i], placed);
  }

  lemma NotAtZero(c: Cursor, r: Region, placed: seq<Span>)
    requires Sane(c, placed) && r.cursor == c && Span(First(r), Extent(r)) in placed
    ensures 0 < r.base
  {
    var j :| 0 <= j < |placed| && placed[j] == Span(First(r), Extent(r));
    assert WellPlaced(c, placed[j]);
  }

  /** The code knows no 64-bit memory registers: with room among the ports, whatever else there is, the one
      in registers `i` and `i + 1` of function `j` decodes at 4 GB or above, not where the memory cursor was,
      because its upper half is given a port address. */
  lemma {:induction false} WideRegisterIsMisplaced(ds: seq<Device>, j: nat, d: Device, i: nat, k: nat,
                                                   rs: seq<Request>, m: Map, at: nat)
    requires j < |ds| && d == ds[j] && Present(d) && UsesDefaultMap(d)
    requires i + 1 < |d.masks| && WideReports(d.masks[i], d.masks[i + 1], k)
    requires rs == AllRequests(ds) && m == PlaceAll(START, rs) && AllDecode(rs) && Room(Ports(d.bus), rs)
    requires at == |AllRequests(ds[..j])| + |RequestsOf(d.bus, d.masks[..i])|
    ensures at + 1 < |m.regions|
    ensures !IsIo(m.regions[at].cursor) && m.regions[at].size == Pow2(k)
    ensures m.regions[at + 1].cursor == Ports(d.bus) && m.regions[at + 1].size == 16
    ensures 0x1_0000_0000 <= WideAddress(m.regions[at].base, m.regions[at + 1].base)
  {
    HalvesInAll(ds, j, d, i, k, rs, at);
    RegionAt(rs, START, m, at);
    RegionAt(rs, START, m, at + 1);
    PortIsNotZero(rs, m, Ports(d.bus), at + 1);
  }

  lemma HalvesInAll(ds: seq<Device>, j: nat, d: Device, i: nat, k: nat, rs: seq<Request>, at: nat)
    requires j < |ds| && d == ds[j] && Present(d) && UsesDefaultMap(d)
    requires i + 1 < |d.masks| && WideReports(d.masks[i], d.masks[i + 1], k) && rs == AllRequests(ds)
    requires at == |AllRequests(ds[..j])| + |RequestsOf(d.bus, d.masks[..i])|
    ensures at + 1 < |rs| && !IsIo(rs[at].cursor) && rs[at].size == Pow2(k) && rs[at + 1] == Request(Ports(d.bus), 16)
  {
    var start, own := |AllRequests(ds[..j])|, RequestsOf(d.bus, d.masks);
    HalvesInFunction(d, i, k, own, at - start);
    FunctionInAll(ds, j, rs, start, at - start);
    FunctionInAll(ds, j, rs, start, at - start + 1);
  }

  lemma RegionAt(rs: seq<Request>, start: Map, m: Map, i: nat)
    requires |start.regions| == 0 && m == PlaceAll(start, rs) && i < |rs|
    ensures |m.regions| == |rs| && Answers(m.regions[i], rs[i])
  {
    RegionsInOrder(start, rs, i, m.regions);
  }

  // ----- The two cursors of one address space -----

  /** The cursors of the root bus and of the second bus in one address space. */
  predicate Neighbours(a: Cursor, b: Cursor) {
    (a == Memory && b == AgpMemory) || (a == Io && b == AgpIo)
  }

  predicate NoneOverlap(a: seq<Span>, b: seq<Span>) {
    forall i, j :: 0 <= i < |a| && 0 <= j < |b| ==> !Overlap(a[i], b[j])
  }

  function Behind(a: Span): nat { a.first + a.size }

  /** The span lies between two neighbours of a running sum: behind the first `k` spans, before the others. */
  predicate FitsBehind(a: Span, s: seq<Span>, k: nat)
    requires k <= |s|
  {
    (k == 0 || Behind(s[k - 1]) <= a.first) && (k == |s| || Behind(a) <= s[k].first)
  }

  predicate InAGap(a: Span, s: seq<Span>) {
    exists k :: 0 <= k <= |s| && FitsBehind(a, s, k)
  }

  predicate AllInGaps(a: seq<Span>, b: seq<Span>) {
    forall i :: 0 <= i < |a| ==> InAGap(a[i], b)
  }

  /** A span that overlaps none of those in order lies in a gap: look for the last one it is behind. */
  lemma {:induction false} FindGap(a: Span, at: nat, s: seq<Span>) returns (k: nat)
    requires Ordered(at, s) && forall j :: 0 <= j < |s| ==> !Overlap(a, s[j])
    ensures k <= |s| && FitsBehind(a, s, k)
  {
    k := |s|;
    if s != [] && a.first < Behind(s[|s| - 1]) {
      var before := s[..|s| - 1];
      assert Behind(a) <= s[|s| - 1].first;
      k := FindGap(a, at, before);
      assert k < |before| ==> before[k] == s[k];
      assert k > 0 ==> before[k - 1] == s[k - 1];
    }
  }

  lemma GapIsFree(a: Span, at: nat, s: seq<Span>, k: nat, j: nat)
    requires Ordered(at, s) && k <= |s| && FitsBehind(a, s, k) && j < |s|
    ensures !Overlap(a, s[j])
  {
    if j < k {
      assert Behind(s[j]) <= Behind(s[k - 1]);
    } else {
      assert s[k].first <= s[j].first;
    }
  }

  lemma GapsAreFree(a: seq<Span>, at: nat, b: seq<Span>)
    requires Ordered(at, b)
    ensures NoneOverlap(a, b) <==> AllInGaps(a, b)
  {
    if NoneOverlap(a, b) {
      forall i | 0 <= i < |a| ensures InAGap(a[i], b) {
        var k := FindGap(a[i], at, b);
      }
    }
    if AllInGaps(a, b) {
      forall i, j | 0 <= i < |a| && 0 <= j < |b| ensures !Overlap(a[i], b[j]) {
        assert InAGap(a[i], b);
        var k :| 0 <= k <= |b| && FitsBehind(a[i], b, k);
        GapIsFree(a[i], at, b, k, j);
      }
    }
  }

  /** A bus stays out of an area behind it if and only if its running sum stays below the start of the area. */
  lemma AreaIsFree(at: nat, spans: seq<Span>, area: Span)
    requires Ordered(at, spans) && (forall i :: 0 <= i < |spans| ==> spans[i].first < Behind(area))
    ensures NoneOverlap(spans, [area]) <==> EndBy(spans, area.first)
  {
    if NoneOverlap(spans, [area]) {
      forall i | 0 <= i < |spans| ensures spans[i].first + spans[i].size <= area.first {
        assert !Overlap(spans[i], [area][0]);
      }
    }
  }

  /** The addresses from a cursor's start up. */
  function Area(c: Cursor): Span { Span(Start(c), Limit(c) - Start(c)) }

  lemma BelowNextStart(sa: seq<Span>, at: nat, sb: seq<Span>)
    requires Ordered(at, sb) && EndBy(sa, at)
    ensures NoneOverlap(sa, sb)
  {}

  /** With room for both buses, regions of the two never overlap if and only if the running sum of the root
      bus puts each of its regions behind one and before the next of the second bus's; and the root bus stays
      out of the whole area set aside for the second one if and only if its running sum stays below the
      start of that area. */
  lemma {:induction false} BusesAreDisjoint(ds: seq<Device>, rs: seq<Request>, m: Map, a: Cursor, b: Cursor)
    requires AllReport(ds) && rs == AllRequests(ds) && m == PlaceAll(START, rs)
    requires Neighbours(a, b) && Room(a, rs) && Room(b, rs)
    ensures NoneOverlap(Occupied(m.regions, a), Occupied(m.regions, b))
       <==> AllInGaps(Spans(a, Start(a), rs), Spans(b, Start(b), rs))
    ensures NoneOverlap(Occupied(m.regions, a), [Area(b)]) <==> EndBy(Spans(a, Start(a), rs), Start(b))
    ensures EndBy(Spans(a, Start(a), rs), Start(b)) ==>
      NoneOverlap(Occupied(m.regions, a), Occupied(m.regions, b))
  {
    AllRegionsAreDisjoint(ds, rs, m, a);
    AllRegionsAreDisjoint(ds, rs, m, b);
    AllRequestsDecode(ds);
    SpansAreOrdered(a, Start(a), rs);
    SpansAreOrdered(b, Start(b), rs);
    var sa, sb := Spans(a, Start(a), rs), Spans(b, Start(b), rs);
    GapsAreFree(sa, Start(b), sb);
    StartInside(a, b, sa);
    AreaIsFree(Start(a), sa, Area(b));
    if EndBy(sa, Start(b)) { BelowNextStart(sa, Start(b), sb); }
  }

  lemma StartInside(a: Cursor, b: Cursor, sa: seq<Span>)
    requires Neighbours(a, b) && Ordered(Start(a), sa) && EndBy(sa, Limit(a))
    ensures Limit(a) == Behind(Area(b)) && forall i :: 0 <= i < |sa| ==> sa[i].first < Behind(Area(b))
  {}

  // ----- Two inputs -----

  /** A memory register that reads back ones from 2^k up. */
  lemma MemoryReport(bus: nat, val: Word, k: nat, size: Word)
    requires 4 <= k < 32 && size == Pow2(k) && val == 0x1_0000_0000 - size
    ensures RegisterReports(bus, val) && val != 0
    ensures Request(CursorFor(bus, val), Size(val)) == Request(if bus == 1 then AgpMemory else Memory, size)
  {
    MemoryMask(val, k, size);
    Complemented(val, size);
    var c := CursorFor(bus, val);
    assert Reports(c, val, k);
  }

  lemma MemoryMask(val: Word, k: nat, size: Word)
    requires 4 <= k < 32 && size == Pow2(k) && val == 0x1_0000_0000 - size
    ensures 16 <= size <= 0x8000_0000 && And(val, 0xffff_fff0) == val && And(val, 1) == 0 && val / 2 % 4 == 0
  {
    Pow2Bounds(k);
    MultipleOfSixteen(k, size);
    ComplementOfMultiple(size, size / 16);
    FlagsMasked(val);
  }

  lemma ComplementOfMultiple(size: Word, q: nat)
    requires size == 16 * q
    ensures (0x1_0000_0000 - size) % 16 == 0
  {
    assert 0x1_0000_0000 - size == 16 * (0x1000_0000 - q);
  }

  lemma MultipleOfSixteen(k: nat, size: nat)
    requires 4 <= k && size == Pow2(k)
    ensures size % 16 == 0
  {
    Pow2Values();
    var _ := PowersDivide(4, k, 16, size);
  }

  /** Without flags in its low bits, a read-back is its own mask. */
  lemma FlagsMasked(val: Word)
    requires val % 16 == 0
    ensures And(val, 0xffff_fff0) == val && And(val, 1) == 0 && val / 2 % 4 == 0
  {
    FlagsOff(val);
    NothingToRound(val);
    TypeBitsClear(val, val / 16);
    LowBitClear(val);
  }

  lemma FlagsOff(val: Word)
    ensures And(val, 0xffff_fff0) == Floor(val % 0x1_0000_0000, 16)
  {
    var p, q := Pow2(32), Pow2(4);
    AndRun(val, 32, 4);
    assert p == 0x1_0000_0000 && q == 16 by { Pow2Values(); }
  }

  lemma NothingToRound(val: Word)
    requires val % 16 == 0
    ensures Floor(val % 0x1_0000_0000, 16) == val
  {}

  lemma TypeBitsClear(val: Word, q: nat)
    requires val == 16 * q
    ensures val % 2 == 0 && val / 2 % 4 == 0
  {
    var half := val / 2;
    assert val == 2 * (8 * q) && half == 4 * (2 * q);
    assert half % 4 == 0;
  }

  lemma LowBitClear(val: Word)
    requires val % 2 == 0
    ensures And(val, 1) == 0
  {
    assert And(val / 2, 0) == 0;
  }

  /** A memory request of at least 64K at an aligned position goes there. */
  lemma PlacedAligned(m: Map, at: Word, size: Word, k: nat)
    requires 16 <= k < 32 && size == Pow2(k) && 0x1_0000 <= size && at % size == 0 && m.cursors.memory == at
    ensures Place(m, Request(Memory, size))
         == Map(m.cursors.(memory := U32(at + size)), m.regions + [Region(Memory, at, size)])
  {
    AlignedStays(at, size, k);
    StrideOf(Memory, size);
  }

  lemma AlignedStays(at: Word, size: Word, k: nat)
    requires 16 <= k < 32 && size == Pow2(k) && at % size == 0
    ensures AlignUp(at, size) == at
  {
    var _ := MemorySpaceShare(k, size);
    AlignUpMemory(at, k, size);
    AlignedRounds(at, size);
  }

  lemma AlignedRounds(at: Word, size: nat)
    requires 0 < size && at % size == 0
    ensures RoundUp(at, size) % 0x1_0000_0000 == at
  {
    RoundUpBounds(at, size);
  }

  lemma StrideOf(c: Cursor, size: nat)
    requires 0x1_0000 <= size
    ensures Stride(c, size) == size
  {}

  lemma LargeSizes()
    ensures Pow2(28) == 0x1000_0000 && Pow2(30) == 0x4000_0000
  {
    Pow2Values();
    Pow2Monotone(28, 32);
    Pow2Monotone(30, 32);
    assert Pow2(2) == 4 && Pow2(4) == 16;
  }

  lemma FiveGigabytes(m: Map, r: Request, size: Word, k: nat)
    requires m == START && size == 0x4000_0000 == Pow2(k) && 16 <= k < 32 && r == Request(Memory, size)
    ensures var n := Place(Place(Place(Place(Place(m, r), r), r), r), r);
      |n.regions| == 5 && n.regions[4] == n.regions[0] == Region(Memory, 0xc000_0000, size)
  {
    var first := Region(Memory, 0xc000_0000, size);
    PlacedAligned(m, 0xc000_0000, size, k);
    var m1 := Place(m, r);
    assert m1.cursors.memory == 0 && |m1.regions| == 1 && m1.regions[0] == first;
    ThreeGigabytes(m1, r, size, k);
    var m4 := Place(Place(Place(m1, r), r), r);
    PlacedAligned(m4, 0xc000_0000, size, k);
  }

  lemma ThreeGigabytes(m: Map, r: Request, size: Word, k: nat)
    requires m.cursors.memory == 0 && |m.regions| == 1
    requires size == 0x4000_0000 == Pow2(k) && 16 <= k < 32 && r == Request(Memory, size)
    ensures var n := Place(Place(Place(m, r), r), r);
      n.cursors.memory == 0xc000_0000 && |n.regions| == 4 && n.regions[0] == m.regions[0]
  {
    GigabytePlaced(m, r, size, k, 0);
    var m2 := Place(m, r);
    GigabytePlaced(m2, r, size, k, 0x4000_0000);
    GigabytePlaced(Place(m2, r), r, size, k, 0x8000_0000);
  }

  lemma GigabytePlaced(m: Map, r: Request, size: Word, k: nat, at: Word)
    requires m.cursors.memory == at && at in {0, 0x4000_0000, 0x8000_0000} && |m.regions| > 0
    requires size == 0x4000_0000 == Pow2(k) && 16 <= k < 32 && r == Request(Memory, size)
    ensures var n := Place(m, r);
      n.cursors.memory == at + 0x4000_0000 && |n.regions| == |m.regions| + 1 && n.regions[0] == m.regions[0]
  {
    assert at % size == 0;
    PlacedAligned(m, at, size, k);
    U32Exact(at + size);
  }

  lemma {:induction false} SameRequests(bus: nat, masks: seq<Word>, val: Word, r: Request)
    requires val != 0 && (forall i :: 0 <= i < |masks| ==> masks[i] == val)
    requires r == Request(CursorFor(bus, val), Size(val))
    ensures RequestsOf(bus, masks) == seq(|masks|, _ => r)
    decreases |masks|
  {
    if masks != [] { SameRequests(bus, masks[1..], val, r); }
  }

  lemma {:induction false} PlaceAllFive(m: Map, r: Request, rs: seq<Request>)
    requires rs == seq(5, _ => r)
    ensures PlaceAll(m, rs) == Place(Place(Place(Place(Place(m, r), r), r), r), r)
  {
    var r4, r3, r2, r1 := rs[1..], rs[1..][1..], rs[1..][1..][1..], rs[1..][1..][1..][1..];
    assert rs[0] == r && r4[0] == r && r3[0] == r && r2[0] == r && r1[0] == r && r1[1..] == [];
    var m2 := Place(Place(m, r), r);
    assert PlaceAll(m, rs) == PlaceAll(m2, r3);
    assert PlaceAll(m2, r3) == PlaceAll(Place(Place(m2, r), r), r1);
  }

  lemma RequestsOfOne(d: Device, ds: seq<Device>)
    requires ds == [d] && Present(d) && UsesDefaultMap(d)
    ensures AllRequests(ds) == RequestsOf(d.bus, d.masks)
  {
    assert AllRequests(ds[1..]) == [];
  }

  /** Without room: a function with five memory registers of a gigabyte gets the first one's addresses again
      for the fifth. */
  lemma {:induction false} WrappedCursorOverlaps(d: Device, ds: seq<Device>, val: Word, start: Map, m: Map)
    requires Present(d) && UsesDefaultMap(d) && d.bus == 0 && val == 0xc000_0000 && d.masks == [val, val, val, val, val]
    requires ds == [d] && start == START && m == PlaceAll(start, AllRequests(ds))
    ensures |m.regions| == 5 && m.regions[4] == m.regions[0] == Region(Memory, 0xc000_0000, 0x4000_0000)
  {
    var size: Word, k := 0x4000_0000, 30;
    LargeSizes();
    var r := Request(Memory, size);
    FiveRequests(d, ds, val, r, k);
    PlaceAllFive(start, r, AllRequests(ds));
    FiveGigabytes(start, r, size, k);
  }

  lemma {:induction false} FiveRequests(d: Device, ds: seq<Device>, val: Word, r: Request, k: nat)
    requires ds == [d] && Present(d) && UsesDefaultMap(d) && d.bus == 0 && d.masks == [val, val, val, val, val]
    requires 4 <= k < 32 && r.cursor == Memory && r.size == Pow2(k) && val == 0x1_0000_0000 - r.size
    ensures AllRequests(ds) == seq(5, _ => r)
  {
    MemoryReport(0, val, k, r.size);
    SameRequests(0, d.masks, val, r);
    RequestsOfOne(d, ds);
  }

  /** What a root-bus function with two memory registers and a second-bus function with one ask for. */
  lemma {:induction false} ThreeRequests(ds: seq<Device>, d: Device, e: Device, val: Word, size: Word, k: nat)
    requires ds == [d, e] && Present(d) && UsesDefaultMap(d) && Present(e) && UsesDefaultMap(e)
    requires d.bus == 0 && d.masks == [val, val] && e.bus == 1 && e.masks == [val]
    requires 4 <= k < 32 && size == Pow2(k) && val == 0x1_0000_0000 - size
    ensures AllReport(ds)
    ensures AllRequests(ds) == [Request(Memory, size), Request(Memory, size), Request(AgpMemory, size)]
  {
    MemoryReport(0, val, k, size);
    MemoryReport(1, val, k, size);
    SameRequests(0, d.masks, val, Request(Memory, size));
    SameRequests(1, e.masks, val, Request(AgpMemory, size));
    RequestsOfOne(e, ds[1..]);
    assert AllRequests(ds) == RequestsOf(0, d.masks) + RequestsOf(1, e.masks);
    assert seq(2, _ => Request(Memory, size)) == [Request(Memory, size), Request(Memory, size)];
  }

  /** With room on both buses, but 512 MB on the root bus: its second region is the second bus's first. */
  lemma {:induction false} SecondBusOverlaps(ds: seq<Device>, d: Device, e: Device, val: Word,
                                             rs: seq<Request>, m: Map)
    requires ds == [d, e] && Present(d) && UsesDefaultMap(d) && Present(e) && UsesDefaultMap(e)
    requires val == 0xf000_0000 && d.bus == 0 && d.masks == [val, val] && e.bus == 1 && e.masks == [val]
    requires rs == AllRequests(ds) && m == PlaceAll(START, rs)
    ensures AllReport(ds) && Room(Memory, rs) && Room(AgpMemory, rs)
    ensures |Occupied(m.regions, Memory)| == 2 && |Occupied(m.regions, AgpMemory)| == 1
    ensures Occupied(m.regions, Memory)[1] == Occupied(m.regions, AgpMemory)[0]
  {
    BothSpans(ds, d, e, val, rs);
    RootTakes(ds, rs, m);
    SecondTakes(ds, rs, m);
  }

  lemma RootTakes(ds: seq<Device>, rs: seq<Request>, m: Map)
    requires AllReport(ds) && rs == AllRequests(ds) && m == PlaceAll(START, rs)
    requires Spans(Memory, Start(Memory), rs) == [Span(0xc000_0000, 0x1000_0000), Span(0xd000_0000, 0x1000_0000)]
    ensures Room(Memory, rs)
    ensures Occupied(m.regions, Memory) == [Span(0xc000_0000, 0x1000_0000), Span(0xd000_0000, 0x1000_0000)]
  {
    AllRegionsAreDisjoint(ds, rs, m, Memory);
  }

  lemma SecondTakes(ds: seq<Device>, rs: seq<Request>, m: Map)
    requires AllReport(ds) && rs == AllRequests(ds) && m == PlaceAll(START, rs)
    requires Spans(AgpMemory, Start(AgpMemory), rs) == [Span(0xd000_0000, 0x1000_0000)]
    ensures Room(AgpMemory, rs) && Occupied(m.regions, AgpMemory) == [Span(0xd000_0000, 0x1000_0000)]
  {
    AllRegionsAreDisjoint(ds, rs, m, AgpMemory);
  }

  lemma {:induction false} BothSpans(ds: seq<Device>, d: Device, e: Device, val: Word, rs: seq<Request>)
    requires ds == [d, e] && Present(d) && UsesDefaultMap(d) && Present(e) && UsesDefaultMap(e)
    requires val == 0xf000_0000 && d.bus == 0 && d.masks == [val, val] && e.bus == 1 && e.masks == [val]
    requires rs == AllRequests(ds)
    ensures AllReport(ds)
    ensures Spans(Memory, Start(Memory), rs) == [Span(0xc000_0000, 0x1000_0000), Span(0xd000_0000, 0x1000_0000)]
    ensures Spans(AgpMemory, Start(AgpMemory), rs) == [Span(0xd000_0000, 0x1000_0000)]
  {
    var size: Word, k := 0x1000_0000, 28;
    LargeSizes();
    ThreeRequests(ds, d, e, val, size, k);
    TwoThenOne(rs, Request(Memory, size), Request(AgpMemory, size), size);
  }

  /** A request at an aligned position goes there, and one of another cursor is passed over. */
  lemma SpansFirst(c: Cursor, at: nat, rs: seq<Request>, rest: seq<Request>)
    requires rs != [] && rest == rs[1..]
    requires 0x1_0000 <= Wanted(rs[0]) && at % Wanted(rs[0]) == 0
    ensures Spans(c, at, rs) == if rs[0].cursor != c then Spans(c, at, rest)
                               else [Span(at, Wanted(rs[0]))] + Spans(c, at + Wanted(rs[0]), rest)
  {
    RoundUpBounds(at, Wanted(rs[0]));
  }

  lemma TwoThenOne(rs: seq<Request>, r: Request, q: Request, size: Word)
    requires size == 0x1000_0000 && r == Request(Memory, size) && q == Request(AgpMemory, size) && rs == [r, r, q]
    ensures Spans(Memory, Start(Memory), rs) == [Span(0xc000_0000, size), Span(0xd000_0000, size)]
    ensures Spans(AgpMemory, Start(AgpMemory), rs) == [Span(0xd000_0000, size)]
  {
    var c, d, e: nat := 0xc000_0000, 0xd000_0000, 0xe000_0000;
    var r2, r1, none := [r, q], [q], rs[3..];
    SpansFirst(Memory, c, rs, r2);
    SpansFirst(Memory, d, r2, r1);
    SpansFirst(Memory, e, r1, none);
    SpansFirst(AgpMemory, d, rs, r2);
    SpansFirst(AgpMemory, d, r2, r1);
    SpansFirst(AgpMemory, d, r1, none);
    assert [Span(c, size)] + ([Span(d, size)] + []) == [Span(c, size), Span(d, size)];
  }

  lemma {:induction false} PlaceAllAppend(m: Map, a: seq<Request>, b: seq<Request>)
    ensures PlaceAll(m, a + b) == PlaceAll(PlaceAll(m, a), b)
    decreases |a|
  {
    if a == [] {
      assert a + b == b;
    } else {
      assert (a + b)[1..] == a[1..] + b;
      PlaceAllAppend(Place(m, a[0]), a[1..], b);
    }
  }

  /** The registers that do not read back zero. */
  function RegistersThere(masks: seq<Word>): nat {
    if masks == [] then 0 else (if masks[0] == 0 then 0 else 1) + RegistersThere(masks[1..])
  }

  lemma {:induction false} RequestsForRegisters(bus: nat, masks: seq<Word>)
    ensures |RequestsOf(bus, masks)| == RegistersThere(masks)
    decreases |masks|
  {
    if masks != [] { RequestsForRegisters(bus, masks[1..]); }
  }

  lemma {:induction false} RegionsAdded(m: Map, rs: seq<Request>)
    ensures var r := PlaceAll(m, rs).regions; m.regions <= r && |r| == |m.regions| + |rs|
    decreases |rs|
  {
    if rs != [] { RegionsAdded(Place(m, rs[0]), rs[1..]); }
  }

  lemma LowTwoBits(x: nat)
    ensures And(x, 3) == x % 4
  {
    assert Pow2(2) == 4 && Pow2(0) == 1;
    AndRunBetween(x, 2, 0, 4, 1);
  }

  lemma LowBit(x: nat)
    ensures And(x, 1) == x % 2
  {
    assert And(x / 2, 0) == 0;
  }

  // ----- The cursors in place -----

  class PciBios {
    var memAddr: Word
    var agpMemAddr: Word
    var ioAddr: Word
    var agpIoAddr: Word
    /** Every register written so far. */
    var regions: seq<Region>

    ghost function Value(): Map
      reads this
    {
      Map(Cursors(memAddr, agpMemAddr, ioAddr, agpIoAddr), regions)
    }

    constructor ()
      ensures Value() == START
      ensures memAddr == 0xc000_0000 && agpMemAddr == 0xd000_0000 && ioAddr == 0xc000 && agpIoAddr == 0xe000
    {
      ioAddr, agpIoAddr, memAddr, agpMemAddr := 0xc000, 0xe000, 0xc000_0000, 0xd000_0000;
      regions := [];
    }

    /** One turn of pci_bios_init_device()'s region loop. A register that is there gets one region from the
        cursor of its bus and kind, which moves past it; the other cursors stay. */
    method InitRegion(bus: nat, val: Word)
      modifies this
      ensures Value() == PlaceAll(old(Value()), RequestsOf(bus, [val]))
      ensures val == 0 ==> Value() == old(Value())
      ensures bus == 1 || val % 2 == 1 ==> memAddr == old(memAddr)
      ensures bus != 1 || val % 2 == 1 ==> agpMemAddr == old(agpMemAddr)
      ensures bus == 1 || val % 2 == 0 ==> ioAddr == old(ioAddr)
      ensures bus != 1 || val % 2 == 0 ==> agpIoAddr == old(agpIoAddr)
      ensures val != 0 ==>
        && |regions| == |old(regions)| + 1 && old(regions) <= regions
        && var r := regions[|old(regions)|];
           Value().cursors.At(r.cursor)
             == U32(r.base + if val % 2 == 1 then Max(r.size, 0x10) else Max(r.size, 0x1_0000))
    {
      LowBit(val);
      if val == 0 { return; }
      ghost var before := Value();
      var size := Size(val);
      var cursor := CursorFor(bus, val);
      var paddr := match cursor
        case Memory => memAddr case AgpMemory => agpMemAddr case Io => ioAddr case AgpIo => agpIoAddr;
      paddr := AlignUp(paddr, size);
      regions := regions + [Region(cursor, paddr, size)];
      var least := if IsIo(cursor) then 0x10 else 0x1_0000;
      paddr := U32(paddr + if size < least then least else size);
      match cursor {
        case Memory => memAddr := paddr;
        case AgpMemory => agpMemAddr := paddr;
        case Io => ioAddr := paddr;
        case AgpIo => agpIoAddr := paddr;
      }
      assert Value() == Place(before, Request(cursor, size));
    }

    /** pci_bios_init_device(): an ordinary function gets one region for each register that is there, and so
        does an IDE controller of the PIIX family; interrupt controllers, other IDE controllers, functions of
        class 0xff00 and bridges get none. */
    method InitDevice(d: Device)
      modifies this
      ensures Value() == PlaceAll(old(Value()), if UsesDefaultMap(d) then RequestsOf(d.bus, d.masks) else [])
      ensures if d.headerType % 4 == 0
                 && ((d.class_ != 0x0101 && d.class_ != 0x0800 && d.class_ != 0xff00)
                     || (d.class_ == 0x0101 && d.vendor == 0x8086
                         && (d.device == 0x1230 || d.device == 0x7010 || d.device == 0x7111)))
        then old(regions) <= regions && |regions| == |old(regions)| + RegistersThere(d.masks)
        else Value() == old(Value())
    {
      LowTwoBits(d.headerType);
      RequestsForRegisters(d.bus, d.masks);
      if !UsesDefaultMap(d) { return; }
      RegionsAdded(Value(), RequestsOf(d.bus, d.masks));
      ghost var before := Value();
      for i := 0 to |d.masks|
        invariant PlaceAll(Value(), RequestsOf(d.bus, d.masks[i..])) == PlaceAll(before, RequestsOf(d.bus, d.masks))
      {
        assert d.masks[i..] == [d.masks[i]] + d.masks[i + 1..];
        RequestsJoin(d.bus, [d.masks[i]], d.masks[i + 1..]);
        PlaceAllAppend(Value(), RequestsOf(d.bus, [d.masks[i]]), RequestsOf(d.bus, d.masks[i + 1..]));
        InitRegion(d.bus, d.masks[i]);
      }
    }

    /** The body of pci_for_each_device()'s loops. */
    method InitSlot(config: seq<Device>, k: nat)
      requires k < |config|
      modifies this
      ensures PlaceAll(Value(), AllRequests(config[k + 1..])) == PlaceAll(old(Value()), AllRequests(config[k..]))
      ensures config[k].vendor == 0xffff && config[k].device == 0xffff ==> Value() == old(Value())
    {
      var d := config[k];
      assert config[k..][1..] == config[k + 1..];
      PlaceAllAppend(Value(), Requests(d), AllRequests(config[k + 1..]));
      if d.vendor != 0xffff || d.device != 0xffff { InitDevice(d); }
    }

    /** pci_for_each_device(pci_bios_init_device): `config` holds the functions by bus and number. */
    method InitDevices(config: seq<Device>)
      requires |config| == 512
      modifies this
      ensures Value() == PlaceAll(old(Value()), AllRequests(config))
    {
      ghost var before := Value();
      for bus := 0 to 2
        invariant PlaceAll(Value(), AllRequests(config[bus * 256..])) == PlaceAll(before, AllRequests(config))
      {
        for devfn := 0 to 256
          invariant PlaceAll(Value(), AllRequests(config[bus * 256 + devfn..])) == PlaceAll(before, AllRequests(config))
        {
          InitSlot(config, bus * 256 + devfn);
        }
      }
    }
  }
}
