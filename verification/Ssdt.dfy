/** rombios32.c: the ACPI table that declares one Processor object per CPU, as the bytes that are
    emitted and as an AML reader that knows only the ACPI specification sees them. */
module Ssdt {
  import opened Arith
  import opened Bytes
  import opened Options
  import Sequences

  const HEADER: nat := 36
  const CHECKSUM_AT: nat := 9
  const MAX_CPUS: nat := 0xff

  /** "SSDT", "BOCHS ", "BXPC" and "_PR_" */
  const SSDT: seq<Byte> := [0x53, 0x53, 0x44, 0x54]
  const BOCHS: seq<Byte> := [0x42, 0x4f, 0x43, 0x48, 0x53, 0x20]
  const BXPC: seq<Byte> := [0x42, 0x58, 0x50, 0x43]
  const PR: seq<Byte> := [0x5f, 0x50, 0x52, 0x5f]

  // ---- What is emitted

  /** A hexadecimal digit in upper case. */
  function Hex(d: nat): Byte
    requires d < 16
  {
    if d < 0xa then d + 0x30 else d + 0x41 - 0xa
  }

  /** "CPUx", or "CPhl" once the number has two digits. */
  function Name(i: nat): (r: seq<Byte>)
    requires i < MAX_CPUS
    ensures |r| == 4
  {
    [0x43, 0x50, if i / 16 != 0 then Hex(i / 16) else 0x55, Hex(i % 16)]
  }

  /** One Processor object: 13 bytes. */
  function Object(i: nat): (r: seq<Byte>)
    requires i < MAX_CPUS
    ensures |r| == 13
  {
    [0x5b, 0x83, 0x0b] + Name(i) + [i] + [0x10, 0xb0, 0, 0] + [6]
  }

  function Objects(from: nat, to: nat): (r: seq<Byte>)
    requires from <= to <= MAX_CPUS
    ensures |r| == 13 * (to - from)
    decreases (to as int) - from
  {
    if from == to then [] else Object(from) + Objects(from + 1, to)
  }

  /** The length of the scope without its PkgLength. */
  function ScopeLength(n: nat): nat {
    0x0d * n + 4
  }

  /** The PkgLength, which counts itself: one byte up to 0x3f, else two with the low nibble first. */
  function PkgLength(n: nat): (r: seq<Byte>)
    requires n <= MAX_CPUS
  {
    var length := ScopeLength(n);
    if length <= 0x3e then [length + 1]
    else [0x40 + (length + 2) % 16, (length + 2) / 16]
  }

  function ScopeHead(n: nat): seq<Byte>
    requires n <= MAX_CPUS
  {
    [0x10] + PkgLength(n) + PR
  }

  function Scope(n: nat): seq<Byte>
    requires n <= MAX_CPUS
  {
    ScopeHead(n) + Objects(0, n)
  }

  /** The header before and after its checksum byte. */
  function HeaderStart(signature: seq<Byte>, length: nat, revision: Byte): (r: seq<Byte>)
    requires |signature| == 4
    ensures |r| == CHECKSUM_AT && r[..4] == signature && r[4..8] == Le32(length)
  {
    signature + Le32(length) + [revision]
  }

  function HeaderRest(signature: seq<Byte>): (r: seq<Byte>)
    requires |signature| == 4
    ensures |r| == HEADER - CHECKSUM_AT - 1
  {
    BOCHS + BXPC + signature + Le32(1) + BXPC + Le32(1)
  }

  /** A table around `body`, with the given checksum byte. */
  function Table(signature: seq<Byte>, revision: Byte, checksum: Byte, body: seq<Byte>): (r: seq<Byte>)
    requires |signature| == 4
    ensures |r| == HEADER + |body|
  {
    HeaderStart(signature, HEADER + |body|, revision) + [checksum] + (HeaderRest(signature) + body)
  }

  function CheckedTable(signature: seq<Byte>, revision: Byte, body: seq<Byte>): (r: seq<Byte>)
    requires |signature| == 4
    ensures |r| == HEADER + |body|
  {
    Table(signature, revision, Negated(Sum(Table(signature, revision, 0, body))), body)
  }

  function CpuCount(smpCpus: nat): nat {
    if smpCpus > MAX_CPUS then MAX_CPUS else smpCpus
  }

  function ProcessorSsdt(smpCpus: nat): seq<Byte> {
    CheckedTable(SSDT, 1, Scope(CpuCount(smpCpus)))
  }

  // ---- A reader of AML, after section 20.2 of the ACPI specification

  datatype Processor = Processor(name: seq<Byte>, id: Byte, blockAddress: seq<Byte>, blockLength: Byte)

  /** PkgLength, section 20.2.4: bits 7-6 of the lead byte say how many bytes follow; alone it has six
      bits of the value, otherwise four, the least significant ones. */
  datatype Decoded = Decoded(value: nat, size: nat)

  function DecodePkgLength(s: seq<Byte>): (r: Option<Decoded>)
    ensures r.Some? ==> 1 <= r.value.size <= 4 && r.value.size <= |s|
  {
    if s == [] then None
    else
      var follow := s[0] / 64;
      if |s| < 1 + follow then None
      else if follow == 0 then Some(Decoded(s[0] % 64, 1))
      else if follow == 1 then Some(Decoded(s[0] % 16 + 16 * s[1] as int, 2))
      else if follow == 2 then Some(Decoded(s[0] % 16 + 16 * (s[1] as int + 256 * s[2] as int), 3))
      else Some(Decoded(s[0] % 16 + 16 * (s[1] as int + 256 * (s[2] as int + 256 * s[3] as int)), 4))
  }

  /** DefProcessor without objects inside: 0x5b 0x83 PkgLength NameSeg ProcID PblkAddr PblkLen. */
  function ReadProcessor(s: seq<Byte>): (r: Option<(Processor, nat)>)
    ensures r.Some? ==> 0 < r.value.1 <= |s|
  {
    if |s| < 3 || s[0] != 0x5b || s[1] != 0x83 then None
    else
      match DecodePkgLength(s[2..])
      case None => None
      case Some(d) =>
        if d.value != d.size + 10 || |s| < 2 + d.value then None
        else
          var t := s[2 + d.size..2 + d.value];
          Some((Processor(t[..4], t[4], t[5..9], t[9]), 2 + d.value))
  }

  function ReadProcessors(s: seq<Byte>): Option<seq<Processor>>
    decreases |s|
  {
    if s == [] then Some([])
    else
      match ReadProcessor(s)
      case None => None
      case Some(first) =>
        match ReadProcessors(s[first.1..])
        case None => None
        case Some(rest) => Some([first.0] + rest)
  }

  /** DefScope that fills `s`: its name and the Processor objects in it. */
  function ReadScope(s: seq<Byte>): Option<(seq<Byte>, seq<Processor>)> {
    if s == [] || s[0] != 0x10 then None
    else
      match DecodePkgLength(s[1..])
      case None => None
      case Some(d) =>
        if 1 + d.value != |s| || d.value < d.size + 4 then None
        else
          match ReadProcessors(s[1 + d.size + 4..])
          case None => None
          case Some(processors) => Some((s[1 + d.size..1 + d.size + 4], processors))
  }

  /** What every table must satisfy: its length field is its length, and its bytes sum to zero. */
  predicate IsTable(t: seq<Byte>) {
    HEADER <= |t| && FromLe32(t[4..8]) == |t| && Sum(t) % 256 == 0
  }

  // ---- The reader finds what was meant

  function Cpu(i: nat): Processor
    requires i < MAX_CPUS
  {
    Processor(Name(i), i, [0x10, 0xb0, 0, 0], 6)
  }

  function Cpus(from: nat, to: nat): (r: seq<Processor>)
    requires from <= to <= MAX_CPUS
    ensures |r| == (to as int) - from
    decreases (to as int) - from
  {
    if from == to then [] else [Cpu(from)] + Cpus(from + 1, to)
  }

  lemma {:induction false} CpuAt(from: nat, to: nat, i: nat)
    requires from <= i < to <= MAX_CPUS
    ensures Cpus(from, to)[i - from] == Cpu(i)
    decreases (to as int) - from
  {
    var rest := Cpus(from + 1, to);
    assert Cpus(from, to) == [Cpu(from)] + rest;
    if from < i {
      CpuAt(from + 1, to, i);
      assert rest[i - from - 1] == Cpu(i);
    }
  }

  lemma HexIsInjective(a: nat, b: nat)
    requires a < 16 && b < 16 && Hex(a) == Hex(b)
    ensures a == b && Hex(a) != 0x55
  {}

  lemma NameIdentifies(i: nat, j: nat)
    requires i < MAX_CPUS && j < MAX_CPUS && Name(i) == Name(j)
    ensures i == j
  {
    assert Name(i)[2] == Name(j)[2] && Name(i)[3] == Name(j)[3];
    HexIsInjective(i % 16, j % 16);
    if i / 16 != 0 && j / 16 != 0 {
      HexIsInjective(i / 16, j / 16);
    } else if i / 16 != 0 {
      HexIsInjective(i / 16, i / 16);
    } else if j / 16 != 0 {
      HexIsInjective(j / 16, j / 16);
    }
  }

  /** The value of a hexadecimal digit. */
  function DigitValue(b: Byte): nat {
    if 0x30 <= b <= 0x39 then b - 0x30 else if 0x41 <= b <= 0x46 then b - 0x41 + 10 else 0
  }

  /** NameSeg, section 20.2.2: four of A-Z, 0-9 and the underscore, not beginning with a digit. */
  predicate IsNameSeg(s: seq<Byte>) {
    |s| == 4 && !(0x30 <= s[0] <= 0x39)
    && forall k :: 0 <= k < 4 ==> 0x41 <= s[k] <= 0x5a || 0x30 <= s[k] <= 0x39 || s[k] == 0x5f
  }

  /** A name is legal and spells the number in hexadecimal behind "CP", with a "U" for a leading zero. */
  lemma NameSpellsNumber(i: nat)
    requires i < MAX_CPUS
    ensures var name := Name(i);
      && IsNameSeg(name) && name[..2] == Ascii("CP")
      && (if i < 16 then name[2] as int == 'U' as int && DigitValue(name[3]) == i
          else 16 * DigitValue(name[2]) + DigitValue(name[3]) == i)
  {}

  lemma ReadOne(i: nat, rest: seq<Byte>)
    requires i < MAX_CPUS
    ensures ReadProcessor(Object(i) + rest) == Some((Cpu(i), 13))
  {
    var s := Object(i) + rest;
    assert s[2..][0] == 0x0b;
    assert DecodePkgLength(s[2..]) == Some(Decoded(11, 1));
    var t := s[3..13];
    assert t == Name(i) + [i] + [0x10, 0xb0, 0, 0] + [6];
    assert t[..4] == Name(i) && t[5..9] == [0x10, 0xb0, 0, 0];
  }

  lemma ReadFirst(i: nat, rest: seq<Byte>, s: seq<Byte>)
    requires i < MAX_CPUS && s == Object(i) + rest && ReadProcessors(rest).Some?
    ensures ReadProcessors(s) == Some([Cpu(i)] + ReadProcessors(rest).value)
  {
    ReadOne(i, rest);
    assert s[13..] == rest;
  }

  predicate Reads(s: seq<Byte>, processors: seq<Processor>) {
    ReadProcessors(s) == Some(processors)
  }

  lemma {:induction false} ReadAll(from: nat, to: nat, s: seq<Byte>, processors: seq<Processor>)
    requires from <= to <= MAX_CPUS && s == Objects(from, to) && processors == Cpus(from, to)
    ensures Reads(s, processors)
    decreases (to as int) - from
  {
    if from == to {
      assert s == [] && processors == [];
    } else {
      var rest, others := Objects(from + 1, to), Cpus(from + 1, to);
      ReadAll(from + 1, to, rest, others);
      ReadNext(from, Object(from), rest, Cpu(from), others);
    }
  }

  lemma ReadNext(i: nat, encoded: seq<Byte>, rest: seq<Byte>, cpu: Processor, others: seq<Processor>)
    requires i < MAX_CPUS && encoded == Object(i) && cpu == Cpu(i) && Reads(rest, others)
    ensures Reads(encoded + rest, [cpu] + others)
  {
    ReadFirst(i, rest, encoded + rest);
  }

  lemma OneByteForm(value: nat)
    requires value <= 0x3f
    ensures value / 64 == 0 && value % 64 == value
  {}

  lemma TwoByteForm(value: nat)
    requires value < 0x1000
    ensures var lead := 0x40 + value % 16;
      lead / 64 == 1 && lead % 16 + 16 * (value / 16) == value && lead < 256 && value / 16 < 256
  {}

  /** In both forms the PkgLength decodes to the bytes from itself to the end of the scope. */
  lemma PkgLengthDecodes(n: nat, rest: seq<Byte>)
    requires n <= MAX_CPUS
    ensures var p := PkgLength(n);
      DecodePkgLength(p + rest) == Some(Decoded(|p| + ScopeLength(n), |p|))
  {
    var p, length := PkgLength(n), ScopeLength(n);
    var s := p + rest;
    assert s[0] == p[0];
    if length <= 0x3e {
      OneByteForm(length + 1);
    } else {
      assert s[1] == p[1];
      TwoByteForm(length + 2);
    }
  }

  lemma ScopeReads(n: nat)
    requires n <= MAX_CPUS
    ensures ReadScope(Scope(n)) == Some((PR, Cpus(0, n)))
  {
    var s, p, objects := Scope(n), PkgLength(n), Objects(0, n);
    assert s[1..] == p + (PR + objects);
    PkgLengthDecodes(n, PR + objects);
    assert s[1 + |p|..1 + |p| + 4] == PR;
    assert s[1 + |p| + 4..] == objects;
    ReadAll(0, n, objects, Cpus(0, n));
  }

  lemma CheckedTableIsTable(signature: seq<Byte>, revision: Byte, body: seq<Byte>)
    requires |signature| == 4 && HEADER + |body| < BIT32
    ensures var t := CheckedTable(signature, revision, body);
      IsTable(t) && t[..4] == signature && t[HEADER..] == body
  {
    var length := HEADER + |body|;
    var start, rest := HeaderStart(signature, length, revision), HeaderRest(signature) + body;
    ChecksumCancels(start, rest);
    var t := CheckedTable(signature, revision, body);
    assert t[4..8] == start[4..8] && t[..4] == start[..4];
    Le32RoundTrip(length);
  }

  /** The other header fields are where section 5.2.6 of ACPI 6.0 puts them: revision, OEM, OEM table and its
      revision, and creator with its revision. */
  lemma HeaderReadsBack(signature: seq<Byte>, revision: Byte, body: seq<Byte>)
    requires |signature| == 4 && HEADER + |body| < BIT32
    ensures var t := CheckedTable(signature, revision, body);
      && t[8] == revision && t[10..16] == BOCHS && t[16..20] == BXPC && t[20..24] == signature
      && FromLe32(t[24..28]) == 1 && t[28..32] == BXPC && FromLe32(t[32..36]) == 1
  {
    var t, rest := CheckedTable(signature, revision, body), HeaderRest(signature);
    assert t[10..36] == rest;
    assert t[10..16] == rest[..6] == BOCHS && t[16..20] == rest[6..10] == BXPC && t[20..24] == rest[10..14];
    assert t[24..28] == rest[14..18] == Le32(1) && t[28..32] == rest[18..22] == BXPC && t[32..36] == rest[22..26];
    Le32RoundTrip(1);
  }

  /** For every number of CPUs, the emitted table is well-formed and declares, in the scope \_PR_, one
      Processor object for each of the first 255. */
  lemma SsdtDeclaresEveryCpu(smpCpus: nat)
    ensures var t, n := ProcessorSsdt(smpCpus), Min(smpCpus, 255);
      && IsTable(t) && t[..4] == SSDT
      && ReadScope(t[HEADER..]) == Some((PR, Cpus(0, n)))
  {
    var n := CpuCount(smpCpus);
    CheckedTableIsTable(SSDT, 1, Scope(n));
    ScopeReads(n);
  }

  /** The bytes of the signature, the OEM fields and the scope are these texts. */
  lemma TextsSpell()
    ensures SSDT == Ascii("SSDT") && BOCHS == Ascii("BOCHS ") && BXPC == Ascii("BXPC") && PR == Ascii("_PR_")
  {}

  /** Its register block is six bytes at port 0xb010. */
  lemma CpuBlock(i: nat)
    requires i < MAX_CPUS
    ensures var cpu := Cpu(i);
      |cpu.blockAddress| == 4 && FromLe32(cpu.blockAddress) == 0xb010 && cpu.blockLength == 6
  {
    assert Cpu(i).blockAddress[..2] == [0x10, 0xb0];
  }

  /** Those are numbered from 0, and no two have the same name. */
  lemma CpusAreDistinct(n: nat, i: nat, j: nat)
    requires i < j < n <= MAX_CPUS
    ensures var cpus := Cpus(0, n);
      |cpus| == n && cpus[i] == Cpu(i) && cpus[i].id == i && cpus[j].id == j && cpus[i].name != cpus[j].name
  {
    CpuAt(0, n, i);
    CpuAt(0, n, j);
    if Name(i) == Name(j) {
      NameIdentifies(i, j);
    }
  }

  // ---- The code that emits it

  method AcpiChecksum(data: array<Byte>, len: nat) returns (r: Byte)
    requires len <= data.Length
    ensures r == Negated(Sum(data[..len]))
  {
    var sum := 0;
    for i := 0 to len
      invariant sum == Sum(data[..i])
    {
      sum := sum + data[i] as int;
      assert data[..i + 1][..i] == data[..i];
    }
    r := (0 - sum) % 256;
  }

  /** acpi_build_table_header(): the caller has cleared the checksum byte and written the body. */
  method BuildTableHeader(h: array<Byte>, signature: seq<Byte>, len: nat, revision: Byte)
    requires |signature| == 4 && HEADER <= len <= h.Length && h[CHECKSUM_AT] == 0
    modifies h
    ensures h[..] == CheckedTable(signature, revision, old(h[HEADER..len])) + old(h[len..])
  {
    ghost var before := h[..];
    PutHeader(h, signature, len, revision);
    var checksum := AcpiChecksum(h, len);
    ghost var table := Table(signature, revision, 0, before[HEADER..len]);
    assert h[..len] == table;
    h[CHECKSUM_AT] := checksum;
    ChecksumStored(table, signature, revision, checksum, before[HEADER..len]);
    assert h[..] == table[CHECKSUM_AT := checksum] + before[len..];
  }

  lemma ChecksumStored(table: seq<Byte>, signature: seq<Byte>, revision: Byte, checksum: Byte, body: seq<Byte>)
    requires |signature| == 4 && table == Table(signature, revision, 0, body)
    ensures table[CHECKSUM_AT := checksum] == Table(signature, revision, checksum, body)
  {}

  /** The fields on either side of the checksum. */
  method PutHeader(h: array<Byte>, signature: seq<Byte>, len: nat, revision: Byte)
    requires |signature| == 4 && HEADER <= len <= h.Length && h[CHECKSUM_AT] == 0
    modifies h
    ensures h[..] == Table(signature, revision, 0, old(h[HEADER..len])) + old(h[len..])
  {
    ghost var before := h[..];
    var start, rest := HeaderStart(signature, len, revision), HeaderRest(signature);
    Put(h, 0, start);
    ghost var middle := h[..];
    Put(h, CHECKSUM_AT + 1, rest);
    HeaderWritten(before, middle, h[..], start, rest, len);
    assert h[..] == start + [0] + (rest + before[HEADER..len]) + before[len..];
  }

  lemma HeaderWritten(h0: seq<Byte>, h1: seq<Byte>, h2: seq<Byte>, start: seq<Byte>, rest: seq<Byte>, len: nat)
    requires HEADER <= len <= |h0| && h0[CHECKSUM_AT] == 0
    requires |start| == CHECKSUM_AT && |rest| == HEADER - CHECKSUM_AT - 1
    requires h1 == h0[..0] + start + h0[CHECKSUM_AT..]
    requires h2 == h1[..CHECKSUM_AT + 1] + rest + h1[HEADER..]
    ensures h2 == start + [0] + (rest + h0[HEADER..len]) + h0[len..]
  {}

  /** The start of the scope, at `ptr`. */
  method PutScopeHead(ssdt: array<Byte>, at: nat, cpus: nat) returns (ptr: nat)
    requires cpus <= MAX_CPUS && at + |ScopeHead(cpus)| <= ssdt.Length
    modifies ssdt
    ensures ptr == at + |ScopeHead(cpus)|
    ensures ssdt[..] == old(ssdt[..at]) + ScopeHead(cpus) + old(ssdt[ptr..])
  {
    var length := 0x0d * cpus + 4;
    var head := [0x10];
    if length <= 0x3e {
      head := head + [length + 1];
    } else {
      head := head + [0x40 + (length + 2) % 16, (length + 2) / 16];
    }
    head := head + PR;
    Put(ssdt, at, head);
    ptr := at + |head|;
  }

  method PutObject(ssdt: array<Byte>, at: nat, i: nat)
    requires i < MAX_CPUS && at + 13 <= ssdt.Length
    modifies ssdt
    ensures ssdt[..] == old(ssdt[..at]) + Object(i) + old(ssdt[at + 13..])
  {
    var high := if i / 16 == 0 then 0x55 else if i / 16 < 0xa then i / 16 + 0x30 else i / 16 + 0x41 - 0xa;
    var low := if i % 16 < 0xa then i % 16 + 0x30 else i % 16 + 0x41 - 0xa;
    var encoded := [0x5b, 0x83, 0x0b, 0x43, 0x50, high, low, i, 0x10, 0xb0, 0, 0, 6];
    assert encoded == Object(i);
    Put(ssdt, at, encoded);
  }

  lemma {:induction false} ObjectsGrow(from: nat, to: nat)
    requires from <= to < MAX_CPUS
    ensures Objects(from, to) + Object(to) == Objects(from, to + 1)
    decreases (to as int) - from
  {
    if from < to {
      Sequences.Associates(Object(from), Objects(from + 1, to), Object(to));
      ObjectsGrow(from + 1, to);
    }
  }

  /** One more object behind those written. */
  lemma ObjectAppended(before: seq<Byte>, after: seq<Byte>, first: seq<Byte>, i: nat, rest: seq<Byte>)
    requires i < MAX_CPUS && 13 <= |rest| && before == (first + Objects(0, i)) + rest
    requires after == before[..|first| + 13 * i] + Object(i) + before[|first| + 13 * i + 13..]
    ensures after == (first + Objects(0, i + 1)) + rest[13..]
  {
    var written, encoded := Objects(0, i), Object(i);
    ObjectsGrow(0, i);
    PutAppends(before, first + written, encoded, rest);
    Sequences.Associates(first, written, encoded);
  }

  method PutObjects(ssdt: array<Byte>, at: nat, cpus: nat) returns (ptr: nat)
    requires cpus <= MAX_CPUS && at + 13 * cpus <= ssdt.Length
    modifies ssdt
    ensures ptr == at + 13 * cpus
    ensures ssdt[..] == old(ssdt[..at]) + Objects(0, cpus) + old(ssdt[ptr..])
  {
    ghost var first, before := ssdt[..at], ssdt[..];
    ptr := at;
    for i := 0 to cpus
      invariant ptr == at + 13 * i
      invariant ssdt[..] == (first + Objects(0, i)) + before[ptr..]
    {
      ghost var middle := ssdt[..];
      PutObject(ssdt, ptr, i);
      ObjectAppended(middle, ssdt[..], first, i, before[ptr..]);
      assert before[ptr..][13..] == before[ptr + 13..];
      ptr := ptr + 13;
    }
  }

  method BuildProcessorSsdt(ssdt: array<Byte>, smpCpus: nat) returns (size: nat)
    requires |ProcessorSsdt(smpCpus)| <= ssdt.Length
    modifies ssdt
    ensures size == |ProcessorSsdt(smpCpus)|
    ensures ssdt[..] == ProcessorSsdt(smpCpus) + old(ssdt[size..])
  {
    var cpus := if smpCpus > MAX_CPUS then MAX_CPUS else smpCpus;
    ghost var before := ssdt[..];
    ssdt[CHECKSUM_AT] := 0;
    ghost var cleared := ssdt[..];
    var ptr := PutScopeHead(ssdt, HEADER, cpus);
    ghost var headed := ssdt[..];
    ptr := PutObjects(ssdt, ptr, cpus);
    ScopeWritten(cleared, headed, ssdt[..], cpus);
    assert cleared[ptr..] == before[ptr..];
    BuildTableHeader(ssdt, SSDT, ptr, 1);
    size := ptr;
  }

  lemma ScopeWritten(s0: seq<Byte>, s1: seq<Byte>, s2: seq<Byte>, n: nat)
    requires n <= MAX_CPUS && HEADER + |Scope(n)| <= |s0|
    requires s1 == s0[..HEADER] + ScopeHead(n) + s0[HEADER + |ScopeHead(n)|..]
    requires s2 == s1[..HEADER + |ScopeHead(n)|] + Objects(0, n) + s1[HEADER + |Scope(n)|..]
    ensures s2 == s0[..HEADER] + Scope(n) + s0[HEADER + |Scope(n)|..]
  {}
}
