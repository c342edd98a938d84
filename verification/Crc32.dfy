/** crc.cc: the table-driven CRC-32, most significant bit first, against bit-serial division. */
module Crc32 {

  type Byte = bv8
  type Word = bv32

  const POLY: Word := 0x04c11db7
  const TOP: Word := 0x8000_0000

  function Xor(a: Word, b: Word): Word { a ^ b }

  /** Shift the register by one bit, reducing by the polynomial. */
  function Shift(c: Word): Word {
    if c & TOP != 0 then (c << 1) ^ POLY else c << 1
  }

  function Iterate<T>(f: T -> T, c: T, n: nat): T
    decreases n
  {
    if n == 0 then c else f(Iterate(f, c, n - 1))
  }

  function Shifts(c: Word, n: nat): Word { Iterate(Shift, c, n) }

  // ----- The reference: one message bit at a time -----

  /** Divide one more message bit in. */
  function DivideBit(c: Word, bit: bool): Word {
    Shift(if bit then Xor(c, TOP) else c)
  }

  function Divide(c: Word, bits: seq<bool>): Word
    decreases |bits|
  {
    if bits == [] then c else Divide(DivideBit(c, bits[0]), bits[1..])
  }

  /** The bits of a byte, most significant first. */
  function ByteBits(b: Byte): (r: seq<bool>)
    ensures |r| == 8
  {
    [b & 0x80 != 0, b & 0x40 != 0, b & 0x20 != 0, b & 0x10 != 0, b & 8 != 0, b & 4 != 0, b & 2 != 0, b & 1 != 0]
  }

  function Bits(msg: seq<Byte>): (r: seq<bool>)
    ensures |r| == 8 * |msg|
  {
    if msg == [] then [] else ByteBits(msg[0]) + Bits(msg[1..])
  }

  /** The CRC a bit-serial divider gives: register preset to ones, remainder complemented. */
  function SerialCrc(msg: seq<Byte>): Word {
    !Divide(0xffff_ffff, Bits(msg))
  }

  // ----- The table -----

  function Index(i: nat): Word
    requires i < 256
  {
    (i as Word) << 24
  }

  function TableEntry(i: nat): Word
    requires i < 256
  {
    Shifts(Index(i), 8)
  }

  /** The register's top byte with the message byte added, where the table entry starts from. */
  function High(c: Word, b: Byte): Word {
    Xor(c >> 24, b as Word) << 24
  }

  /** One byte through the table. */
  function ByteStep(c: Word, b: Byte): Word {
    Xor(c << 8, Shifts(High(c, b), 8))
  }

  function TableCrc(c: Word, msg: seq<Byte>): Word
    decreases |msg|
  {
    if msg == [] then c else TableCrc(ByteStep(c, msg[0]), msg[1..])
  }

  lemma XorTop(a: Word, b: Word)
    ensures (a ^ b) & TOP == (a & TOP) ^ (b & TOP)
    ensures a & TOP == 0 || a & TOP == TOP
  {}

  lemma XorShift(a: Word, b: Word)
    ensures (a ^ b) << 1 == (a << 1) ^ (b << 1)
  {}

  lemma XorSwap(x: Word, y: Word, p: Word)
    ensures (x ^ y) ^ p == (x ^ p) ^ y == x ^ (y ^ p)
    ensures (x ^ p) ^ (y ^ p) == x ^ y
  {}

  lemma ShiftIsLinear(a: Word, b: Word)
    ensures Shift(a ^ b) == Shift(a) ^ Shift(b)
  {
    XorTop(a, b);
    XorTop(b, a);
    XorShift(a, b);
    XorSwap(a << 1, b << 1, POLY);
  }

  lemma {:induction false} IterateDistributes<T(!new)>(f: T -> T, op: (T, T) -> T, a: T, b: T, n: nat)
    requires forall x, y :: f(op(x, y)) == op(f(x), f(y))
    ensures Iterate(f, op(a, b), n) == op(Iterate(f, a, n), Iterate(f, b, n))
    decreases n
  {
    if n > 0 { IterateDistributes(f, op, a, b, n - 1); }
  }

  lemma ShiftDistributes()
    ensures forall x, y :: Shift(Xor(x, y)) == Xor(Shift(x), Shift(y))
  {
    forall x, y ensures Shift(Xor(x, y)) == Xor(Shift(x), Shift(y)) { ShiftIsLinear(x, y); }
  }

  /** Shifting the register is linear over exclusive or. */
  lemma ShiftsIsLinear(a: Word, b: Word, n: nat)
    ensures Shifts(Xor(a, b), n) == Xor(Shifts(a, n), Shifts(b, n))
  {
    ShiftDistributes();
    IterateDistributes(Shift, Xor, a, b, n);
  }

  lemma {:induction false} IterateFirst<T>(f: T -> T, c: T, n: nat)
    ensures Iterate(f, c, n + 1) == Iterate(f, f(c), n)
    decreases n
  {
    if n > 0 { IterateFirst(f, c, n - 1); }
  }

  /** While the top byte is empty, shifting by a byte reduces nothing. */
  lemma LowBytesShiftOut(c: Word)
    requires c & 0xff00_0000 == 0
    ensures Shifts(c, 8) == c << 8
  {
    var d := Shift(Shift(c));
    assert Shifts(c, 2) == d;
    var e := Shift(Shift(d));
    assert Shifts(c, 4) == e;
    var f := Shift(Shift(e));
    assert Shifts(c, 6) == f;
  }

  /** A bit divided in after `k` shifts could as well have been put `k` places lower before them. */
  lemma BitFromBelow(w: Word, k: nat, bit: bool, t: Word)
    requires Shifts(t, k) == TOP
    ensures DivideBit(Shifts(w, k), bit) == Shifts(if bit then Xor(w, t) else w, k + 1)
  {
    ShiftsIsLinear(w, t, k);
  }

  /** A byte at the top of the register. */
  function AtTop(b: Byte): Word { (b as Word) << 24 }

  // ----- The table-driven form is the serial one -----

  lemma {:induction false} DivideAppend(c: Word, xs: seq<bool>, ys: seq<bool>)
    ensures Divide(c, xs + ys) == Divide(Divide(c, xs), ys)
    decreases |xs|
  {
    if xs == [] {
      assert xs + ys == ys;
    } else {
      assert (xs + ys)[1..] == xs[1..] + ys;
      DivideAppend(DivideBit(c, xs[0]), xs[1..], ys);
    }
  }

  /** The places of a byte at the top reach the register's top place after as many shifts as bits precede them. */
  lemma PlacesReachTop()
    ensures Shifts(AtTop(0x80), 0) == Shifts(AtTop(0x40), 1) == Shifts(AtTop(0x20), 2) == Shifts(AtTop(0x10), 3) == TOP
    ensures Shifts(AtTop(8), 4) == Shifts(AtTop(4), 5) == Shifts(AtTop(2), 6) == Shifts(AtTop(1), 7) == TOP
  {
    IterateFirst(Shift, AtTop(0x40), 0);
    IterateFirst(Shift, AtTop(0x20), 1);
    IterateFirst(Shift, AtTop(0x10), 2);
    IterateFirst(Shift, AtTop(8), 3);
    IterateFirst(Shift, AtTop(4), 4);
    IterateFirst(Shift, AtTop(2), 5);
    IterateFirst(Shift, AtTop(1), 6);
  }

  lemma XorAssociates(a: Word, b: Word, c: Word)
    ensures Xor(Xor(a, b), c) == Xor(a, Xor(b, c))
    ensures Xor(a, 0) == a
  {}

  lemma DivideLast(c: Word, bits: seq<bool>, k: nat)
    requires k < |bits|
    ensures Divide(c, bits[..k + 1]) == DivideBit(Divide(c, bits[..k]), bits[k])
  {
    assert bits[..k + 1] == bits[..k] + [bits[k]];
    DivideAppend(c, bits[..k], [bits[k]]);
    assert [bits[k]][1..] == [];
  }

  lemma SingleBit(b: Byte, seen: Byte, p: Byte)
    requires p & (p - 1) == 0 && seen & p == 0
    ensures AtTop(b & (seen | p)) == if b & p != 0 then Xor(AtTop(b & seen), AtTop(p)) else AtTop(b & seen)
  {}

  /** Dividing in the places `seen` of a byte one by one is putting them in at the top and then shifting. */
  predicate DividedIn(c: Word, b: Byte, seen: Byte, k: nat)
    requires k <= 8
  {
    Divide(c, ByteBits(b)[..k]) == Shifts(Xor(c, AtTop(b & seen)), k)
  }

  lemma DivideInNext(c: Word, b: Byte, seen: Byte, p: Byte, now: Byte, k: nat)
    requires now == seen | p && k < 8 && ByteBits(b)[k] == (b & p != 0) && Shifts(AtTop(p), k) == TOP
    requires p & (p - 1) == 0 && seen & p == 0 && DividedIn(c, b, seen, k)
    ensures DividedIn(c, b, now, k + 1)
  {
    var l, t := AtTop(b & seen), AtTop(p);
    DivideLast(c, ByteBits(b), k);
    BitFromBelow(Xor(c, l), k, b & p != 0, t);
    XorAssociates(c, l, t);
    SingleBit(b, seen, p);
  }

  lemma DivideNoBits(c: Word, b: Byte)
    ensures DividedIn(c, b, 0, 0)
  {
    calc {
      Shifts(Xor(c, AtTop(b & 0)), 0);
      Xor(c, AtTop(b & 0));
      { assert AtTop(b & 0) == 0; }
      Xor(c, 0);
      c;
    }
  }

  lemma DivideOneBit(c: Word, b: Byte)
    ensures DividedIn(c, b, 0x80, 1)
  {
    PlacesReachTop();
    DivideNoBits(c, b);
    DivideInNext(c, b, 0, 0x80, 0x80, 0);
  }

  lemma DivideTwoBits(c: Word, b: Byte)
    ensures DividedIn(c, b, 0xc0, 2)
  {
    PlacesReachTop();
    DivideOneBit(c, b);
    DivideInNext(c, b, 0x80, 0x40, 0xc0, 1);
  }

  lemma DivideFourBits(c: Word, b: Byte)
    ensures DividedIn(c, b, 0xf0, 4)
  {
    PlacesReachTop();
    DivideTwoBits(c, b);
    DivideInNext(c, b, 0xc0, 0x20, 0xe0, 2);
    DivideInNext(c, b, 0xe0, 0x10, 0xf0, 3);
  }

  lemma DivideSixBits(c: Word, b: Byte)
    ensures DividedIn(c, b, 0xfc, 6)
  {
    PlacesReachTop();
    DivideFourBits(c, b);
    DivideInNext(c, b, 0xf0, 8, 0xf8, 4);
    DivideInNext(c, b, 0xf8, 4, 0xfc, 5);
  }

  lemma DivideAllBits(c: Word, b: Byte)
    ensures DividedIn(c, b, 0xff, 8)
  {
    PlacesReachTop();
    DivideSixBits(c, b);
    DivideInNext(c, b, 0xfc, 2, 0xfe, 6);
    DivideInNext(c, b, 0xfe, 1, 0xff, 7);
  }

  lemma DivideByte(c: Word, b: Byte)
    ensures Divide(c, ByteBits(b)) == Shifts(Xor(c, AtTop(b)), 8)
  {
    DivideAllBits(c, b);
    assert ByteBits(b)[..8] == ByteBits(b) && b & 0xff == b;
  }

  lemma LowPart(c: Word)
    ensures (c & 0x00ff_ffff) << 8 == c << 8 && (c & 0x00ff_ffff) & 0xff00_0000 == 0
    ensures c == Xor(c & 0x00ff_ffff, (c >> 24) << 24)
  {}

  lemma HighPart(c: Word, b: Byte)
    ensures High(c, b) == Xor((c >> 24) << 24, AtTop(b))
  {}

  lemma SplitRegister(c: Word, b: Byte)
    ensures Xor(c, AtTop(b)) == Xor(c & 0x00ff_ffff, High(c, b))
  {
    var low, top := c & 0x00ff_ffff, (c >> 24) << 24;
    calc {
      Xor(c, AtTop(b));
      { LowPart(c); }
      Xor(Xor(low, top), AtTop(b));
      { XorAssociates(low, top, AtTop(b)); }
      Xor(low, Xor(top, AtTop(b)));
      { HighPart(c, b); }
      Xor(low, High(c, b));
    }
  }

  /** One table step is eight divider steps. */
  lemma ByteStepIsSerial(c: Word, b: Byte)
    ensures ByteStep(c, b) == Divide(c, ByteBits(b))
  {
    var low, high := c & 0x00ff_ffff, High(c, b);
    DivideByte(c, b);
    SplitRegister(c, b);
    ShiftsIsLinear(low, high, 8);
    LowPart(c);
    LowBytesShiftOut(low);
  }

  lemma {:induction false} TableCrcIsSerial(c: Word, msg: seq<Byte>)
    ensures TableCrc(c, msg) == Divide(c, Bits(msg))
    decreases |msg|
  {
    if msg != [] {
      ByteStepIsSerial(c, msg[0]);
      DivideAppend(c, ByteBits(msg[0]), Bits(msg[1..]));
      TableCrcIsSerial(ByteStep(c, msg[0]), msg[1..]);
    }
  }

  // ----- What the CRC detects -----

  function XorBits(x: seq<bool>, y: seq<bool>): (z: seq<bool>)
    requires |x| == |y|
    ensures |z| == |x|
  {
    seq(|x|, i requires 0 <= i < |x| => x[i] != y[i])
  }

  lemma XorIsZero(a: Word, b: Word)
    ensures Xor(a, b) == 0 <==> a == b
  {
    XorUndoes(a, b);
    XorZero(b);
  }

  lemma XorUndoes(a: Word, b: Word)
    ensures Xor(Xor(a, b), b) == a
  {}

  lemma XorZero(b: Word)
    ensures Xor(0, b) == b && Xor(b, b) == 0
  {}

  lemma XorMoves(a: Word, b: Word, p: Word)
    ensures Xor(Xor(a, p), b) == Xor(Xor(a, b), p)
  {
    XorAssociates(a, p, b);
    XorAssociates(a, b, p);
    XorCommutes(p, b);
  }

  lemma XorCommutes(a: Word, b: Word)
    ensures Xor(a, b) == Xor(b, a)
  {}

  lemma XorCancels(a: Word, b: Word, p: Word)
    ensures Xor(Xor(a, p), Xor(b, p)) == Xor(a, b)
  {}

  /** The difference of two registers is itself divided by the difference of the bits. */
  lemma DivideBitIsLinear(a: Word, b: Word, x: bool, y: bool)
    ensures Xor(DivideBit(a, x), DivideBit(b, y)) == DivideBit(Xor(a, b), x != y)
  {
    XorMoves(a, b, TOP);
    XorAssociates(a, b, TOP);
    XorCancels(a, b, TOP);
    ShiftDistributes();
    assert Shift(Xor(if x then Xor(a, TOP) else a, if y then Xor(b, TOP) else b))
        == Xor(DivideBit(a, x), DivideBit(b, y));
  }

  lemma {:induction false} DivideIsLinear(a: Word, b: Word, x: seq<bool>, y: seq<bool>)
    requires |x| == |y|
    ensures Xor(Divide(a, x), Divide(b, y)) == Divide(Xor(a, b), XorBits(x, y))
    decreases |x|
  {
    if x != [] {
      DivideBitIsLinear(a, b, x[0], y[0]);
      assert XorBits(x, y)[1..] == XorBits(x[1..], y[1..]);
      DivideIsLinear(DivideBit(a, x[0]), DivideBit(b, y[0]), x[1..], y[1..]);
    }
  }

  /** Some place of the run of low places `low` is set. */
  predicate Touches(d: Word, low: Word) { d & low != 0 }

  /** One place more. */
  function Longer(low: Word): Word { (low << 1) | 1 }

  /** A set low place moves up by one, or the odd polynomial sets the lowest. */
  lemma DifferenceClimbs(d: Word, bit: bool, low: Word)
    requires Touches(d, low) && low & TOP == 0
    ensures Touches(DivideBit(d, bit), Longer(low))
  {
    var e := if bit then Xor(d, TOP) else d;
    TopIsApart(d, low);
    ClimbOrReduce(e, low);
  }

  lemma TopIsApart(d: Word, low: Word)
    requires low & TOP == 0
    ensures Xor(d, TOP) & low == d & low
  {}

  lemma ClimbOrReduce(e: Word, low: Word)
    requires Touches(e, low) && low & TOP == 0
    ensures Touches(Shift(e), Longer(low))
  {
    if e & TOP != 0 {
      assert ((e << 1) ^ POLY) & 1 == 1;
    } else {
      assert (e << 1) & (low << 1) == (e & low) << 1;
      assert (e & low) & TOP == 0;
    }
  }

  lemma DifferenceLasts(d: Word)
    requires d != 0
    ensures DivideBit(d, false) != 0
  {}

  lemma DifferenceStarts()
    ensures Touches(DivideBit(0, true), 1)
  {}

  lemma {:induction false} ZerosKeepDifference(d: Word, z: seq<bool>)
    requires d != 0 && forall i :: 0 <= i < |z| ==> !z[i]
    ensures Divide(d, z) != 0
    decreases |z|
  {
    if z != [] {
      DifferenceLasts(d);
      ZerosKeepDifference(DivideBit(d, z[0]), z[1..]);
    }
  }

  /** `low` can be lengthened `n` times. */
  predicate Room(low: Word, n: nat)
    decreases n
  {
    n == 0 || (low & TOP == 0 && Room(Longer(low), n - 1))
  }

  lemma LongerFour(low: Word)
    requires low & 0xf000_0000 == 0
    ensures Longer(Longer(Longer(Longer(low)))) == (low << 4) | 15
    ensures low & TOP == 0 && Longer(low) & TOP == 0
    ensures Longer(Longer(low)) & TOP == 0 && Longer(Longer(Longer(low))) & TOP == 0
  {}

  lemma RoomFour(low: Word, n: nat)
    requires low & 0xf000_0000 == 0 && Room((low << 4) | 15, n)
    ensures Room(low, n + 4)
  {
    LongerFour(low);
    assert Room(Longer(Longer(Longer(low))), n + 1);
    assert Room(Longer(Longer(low)), n + 2);
    assert Room(Longer(low), n + 3);
  }

  lemma RoomForBurst()
    ensures Room(1, 31)
  {
    assert Room(0x7fff_ffff, 1) && Room(0x3fff_ffff, 2) && Room(0x1fff_ffff, 3);
    RoomFour(0x1ff_ffff, 3);
    RoomFour(0x1f_ffff, 7);
    RoomFour(0x1_ffff, 11);
    RoomFour(0x1fff, 15);
    RoomFour(0x1ff, 19);
    RoomFour(0x1f, 23);
    RoomFour(1, 27);
  }

  /** A difference cannot vanish while differing bits may still come for `n` steps, nor afterwards. */
  lemma {:induction false} NeverVanishes(d: Word, z: seq<bool>, low: Word, n: nat)
    requires Touches(d, low) && Room(low, n)
    requires forall i :: n <= i < |z| ==> !z[i]
    ensures Divide(d, z) != 0
    decreases |z|
  {
    if n == 0 || z == [] {
      ZerosKeepDifference(d, z);
    } else {
      DifferenceClimbs(d, z[0], low);
      NeverVanishes(DivideBit(d, z[0]), z[1..], Longer(low), n - 1);
    }
  }

  /** Dividing a non-zero bit string whose ones lie within 32 consecutive places leaves a remainder. */
  lemma {:induction false} BurstLeavesRemainder(z: seq<bool>, at: nat)
    requires exists i :: 0 <= i < |z| && z[i]
    requires forall i :: 0 <= i < |z| && !(at <= i < at + 32) ==> !z[i]
    ensures Divide(0, z) != 0
    decreases |z|
  {
    if z[0] {
      DifferenceStarts();
      RoomForBurst();
      NeverVanishes(DivideBit(0, true), z[1..], 1, 31);
    } else {
      var i :| 0 <= i < |z| && z[i];
      assert z[1..][i - 1] && DivideBit(0, false) == 0;
      BurstLeavesRemainder(z[1..], if at == 0 then 0 else at - 1);
    }
  }

  lemma {:induction false} BitsAreInjective(x: seq<Byte>, y: seq<Byte>)
    requires |x| == |y| && Bits(x) == Bits(y)
    ensures x == y
    decreases |x|
  {
    if x != [] {
      assert ByteBits(x[0]) == Bits(x)[..8] && ByteBits(y[0]) == Bits(y)[..8];
      assert Bits(x[1..]) == Bits(x)[8..] && Bits(y[1..]) == Bits(y)[8..];
      SameBits(x[0], y[0]);
      BitsAreInjective(x[1..], y[1..]);
    }
  }

  lemma SameBits(a: Byte, b: Byte)
    requires ByteBits(a) == ByteBits(b)
    ensures a == b
  {
    var x, y := ByteBits(a), ByteBits(b);
    assert x[0] == y[0] && x[1] == y[1] && x[2] == y[2] && x[3] == y[3];
    assert x[4] == y[4] && x[5] == y[5] && x[6] == y[6] && x[7] == y[7];
  }

  /** Any error burst of at most 32 bits, wherever it lies, changes the CRC. */
  lemma BurstsAreDetected(x: seq<Byte>, y: seq<Byte>, at: nat)
    requires |x| == |y| && x != y
    requires forall i :: 0 <= i < 8 * |x| && !(at <= i < at + 32) ==> Bits(x)[i] == Bits(y)[i]
    ensures SerialCrc(x) != SerialCrc(y)
  {
    if Bits(x) == Bits(y) { BitsAreInjective(x, y); }
    var z, c := XorBits(Bits(x), Bits(y)), 0xffff_ffff;
    assert exists i :: 0 <= i < |z| && z[i];
    BurstLeavesRemainder(z, at);
    DivideIsLinear(c, c, Bits(x), Bits(y));
    XorIsZero(c, c);
    XorIsZero(Divide(c, Bits(x)), Divide(c, Bits(y)));
  }

  lemma {:induction false} BitsOfByte(x: seq<Byte>, k: nat, j: nat)
    requires k < |x| && j < 8
    ensures Bits(x)[8 * k + j] == ByteBits(x[k])[j]
    decreases k
  {
    if k > 0 { BitsOfByte(x[1..], k - 1, j); }
  }

  /** In particular, messages that differ only inside a run of four bytes. */
  lemma FourByteRunsAreDetected(x: seq<Byte>, y: seq<Byte>, at: nat)
    requires |x| == |y| && x != y
    requires forall k :: 0 <= k < |x| && !(at <= k < at + 4) ==> x[k] == y[k]
    ensures SerialCrc(x) != SerialCrc(y)
  {
    forall i | 0 <= i < 8 * |x| && !(8 * at <= i < 8 * at + 32) ensures Bits(x)[i] == Bits(y)[i] {
      BitsOfByte(x, i / 8, i % 8);
      BitsOfByte(y, i / 8, i % 8);
    }
    BurstsAreDetected(x, y, 8 * at);
  }

  // ----- The table in place -----

  /** The file's static table: all zero until the first call fills it. */
  class CrcTable {
    const table: array<Word>

    ghost predicate Valid()
      reads this, table
    {
      table.Length == 256 && ((forall i :: 0 <= i < 256 ==> table[i] == 0) || Filled())
    }

    ghost predicate Filled()
      reads this, table
    {
      table.Length == 256 && forall i :: 0 <= i < 256 ==> table[i] == TableEntry(i)
    }

    constructor ()
      ensures Valid() && fresh(table)
    {
      table := new Word[256](_ => 0);
    }

    /** init_crc32() */
    method InitCrc32()
      requires table.Length == 256
      modifies table
      ensures Filled()
    {
      for i := 0 to 256
        invariant forall k :: 0 <= k < i ==> table[k] == TableEntry(k)
      {
        FillEntry(i);
      }
    }

    /** The body of init_crc32()'s outer loop. */
    method FillEntry(i: nat)
      requires i < 256 == table.Length
      modifies table
      ensures table[..] == old(table[..])[i := TableEntry(i)]
    {
      var entry := ShiftedByEight(Index(i));
      table[i] := entry;
    }

    /** crc32(): whatever was computed before, the result is the serial CRC of the first `len` bytes. */
    method ComputeCrc32(buf: seq<Byte>, len: int) returns (crc: Word)
      requires Valid() && len <= |buf|
      modifies table
      ensures Valid()
      ensures crc == SerialCrc(if len > 0 then buf[..len] else [])
    {
      EnsureFilled();
      var register := Fold(buf, len);
      TableCrcIsSerial(0xffff_ffff, if len > 0 then buf[..len] else []);
      return !register;
    }

    /** The table is filled on the first call and recognised as filled on later ones. */
    method EnsureFilled()
      requires Valid()
      modifies table
      ensures Filled()
    {
      EntryOneIsSet();
      if table[1] == 0 { InitCrc32(); }
    }

    /** crc32()'s loop. */
    method Fold(buf: seq<Byte>, len: int) returns (register: Word)
      requires Filled() && len <= |buf|
      ensures register == TableCrc(0xffff_ffff, if len > 0 then buf[..len] else [])
    {
      register := 0xffff_ffff;
      ghost var msg := if len > 0 then buf[..len] else [];
      var p, left := 0, len;
      while left > 0
        invariant 0 <= p <= |msg| && p == if left > 0 then |msg| - left else |msg|
        invariant TableCrc(register, msg[p..]) == TableCrc(0xffff_ffff, msg)
      {
        TableCrcStep(register, msg, p);
        register := Step(register, buf[p]);
        p, left := p + 1, left - 1;
      }
    }

    /** The body of crc32()'s loop. */
    method Step(c: Word, b: Byte) returns (r: Word)
      requires Filled()
      ensures r == ByteStep(c, b)
    {
      var i := Xor(c >> 24, b as Word);
      IndexFits(c, b);
      IndexRoundTrip(i);
      r := Xor(c << 8, table[i as int]);
    }
  }

  lemma TableCrcStep(c: Word, msg: seq<Byte>, p: nat)
    requires p < |msg|
    ensures TableCrc(c, msg[p..]) == TableCrc(ByteStep(c, msg[p]), msg[p + 1..])
  {
    assert msg[p..][1..] == msg[p + 1..];
  }

  /** The inner loop of init_crc32(). */
  method ShiftedByEight(start: Word) returns (c: Word)
    ensures c == Shifts(start, 8)
  {
    c := start;
    for j := 0 to 8
      invariant c == Shifts(start, j)
    {
      c := ShiftedOnce(c);
    }
  }

  method ShiftedOnce(c: Word) returns (r: Word)
    ensures r == Shift(c)
  {
    r := if c & 0x8000_0000 != 0 then (c << 1) ^ 0x04c1_1db7 else c << 1;
  }

  lemma IndexFits(c: Word, b: Byte)
    ensures Xor(c >> 24, b as Word) as int < 256
  {}

  lemma IndexRoundTrip(w: Word)
    requires w as int < 256
    ensures (w as int) as Word == w
  {}

  lemma EntryOneIsSet()
    ensures TableEntry(1) != 0
  {
    PlacesReachTop();
    assert Index(1) == AtTop(1);
  }
}
