/** Bytes in memory: block stores, little-endian numbers, and sums modulo 256. */
module Bytes {
  type Byte = b: int | 0 <= b < 256

  function Zeros(n: nat): seq<Byte> {
    seq(n, _ => 0)
  }

  /** The bytes of a text. */
  function Ascii(s: string): (r: seq<Byte>)
    requires forall i :: 0 <= i < |s| ==> s[i] < 128 as char
    ensures |r| == |s|
  {
    seq(|s|, i requires 0 <= i < |s| => s[i] as int)
  }

  /** memcpy(), memset(), or a run of stores through a moving pointer */
  method Put(data: array<Byte>, at: nat, bytes: seq<Byte>)
    requires at + |bytes| <= data.Length
    modifies data
    ensures data[..] == old(data[..at]) + bytes + old(data[at + |bytes|..])
  {
    for i := 0 to |bytes|
      invariant data[..at] == old(data[..at]) && data[at..at + i] == bytes[..i]
      invariant data[at + i..] == old(data[at + i..])
    {
      data[at + i] := bytes[i];
    }
  }

  /** Put at the end of what is written so far. */
  lemma PutAppends(data: seq<Byte>, written: seq<Byte>, bytes: seq<Byte>, rest: seq<Byte>)
    requires data == written + rest && |bytes| <= |rest|
    ensures data[..|written|] + bytes + data[|written| + |bytes|..] == (written + bytes) + rest[|bytes|..]
  {}

  function Le16(x: nat): (r: seq<Byte>)
    ensures |r| == 2
  {
    [x % 256, x / 256 % 256]
  }

  function Le32(x: nat): (r: seq<Byte>)
    ensures |r| == 4
  {
    Le16(x % 0x1_0000) + Le16(x / 0x1_0000)
  }

  function FromLe16(s: seq<Byte>): (r: nat)
    requires |s| == 2
    ensures r < 0x1_0000
  {
    s[0] as int + 256 * s[1] as int
  }

  function FromLe32(s: seq<Byte>): (r: nat)
    requires |s| == 4
    ensures r < 0x1_0000_0000
  {
    FromLe16(s[..2]) + 0x1_0000 * FromLe16(s[2..])
  }

  lemma Le16RoundTrip(x: nat)
    requires x < 0x1_0000
    ensures FromLe16(Le16(x)) == x
  {}

  lemma FromLe16RoundTrip(s: seq<Byte>)
    requires |s| == 2
    ensures Le16(FromLe16(s)) == s
  {}

  lemma FromLe32RoundTrip(s: seq<Byte>)
    requires |s| == 4
    ensures Le32(FromLe32(s)) == s && FromLe32(s) % 0x100 == s[0] as int
  {
    var low, high := FromLe16(s[..2]), FromLe16(s[2..]);
    FromLe16RoundTrip(s[..2]);
    FromLe16RoundTrip(s[2..]);
    assert FromLe32(s) % 0x1_0000 == low && FromLe32(s) / 0x1_0000 == high;
    assert low % 0x100 == s[0] as int;
    assert s == s[..2] + s[2..];
  }

  lemma Le32RoundTrip(x: nat)
    requires x < 0x1_0000_0000
    ensures FromLe32(Le32(x)) == x
  {
    Le16RoundTrip(x % 0x1_0000);
    Le16RoundTrip(x / 0x1_0000);
    assert Le32(x)[..2] == Le16(x % 0x1_0000) && Le32(x)[2..] == Le16(x / 0x1_0000);
  }

  function Sum(s: seq<Byte>): nat {
    if s == [] then 0 else Sum(s[..|s| - 1]) + s[|s| - 1]
  }

  lemma {:induction false} SumJoins(a: seq<Byte>, b: seq<Byte>)
    ensures Sum(a + b) == Sum(a) + Sum(b)
  {
    if b == [] {
      assert a + b == a;
    } else {
      SumJoins(a, b[..|b| - 1]);
      assert (a + b)[..|a + b| - 1] == a + b[..|b| - 1];
    }
  }

  function Negated(sum: nat): Byte {
    (0 - sum as int) % 256
  }

  /** A checksum byte that was zero while the bytes were added makes them add up to zero. */
  lemma ChecksumCancels(a: seq<Byte>, b: seq<Byte>)
    ensures Sum(a + [0] + b) == Sum(a) + Sum(b)
    ensures Sum(a + [Negated(Sum(a + [0] + b))] + b) % 256 == 0
  {
    var c := Negated(Sum(a + [0] + b));
    SumJoins(a + [0], b);
    SumJoins(a, [0]);
    SumJoins(a + [c], b);
    SumJoins(a, [c]);
    assert Sum([0]) == 0 && Sum([c]) == c;
    NegatedCancels(Sum(a) + Sum(b));
  }

  lemma NegatedCancels(sum: nat)
    ensures (sum + Negated(sum)) % 256 == 0
  {
    var q := (0 - sum as int) / 256;
    assert sum + Negated(sum) == (0 - q) * 256;
  }
}
