/** BochsUwpAudio.cpp: the microphone buffer. Captured frames are appended, the emulator takes bytes from
    the front, and a cap drops the oldest bytes. Erased bytes stay in the queue for a while, before an
    offset; what is behind the offset is the value modelled here. */
module CaptureFifo {
  import opened Arith
  import opened Bytes
  import Sequences

  const MIN_BUFFERED: nat := 19200 * 8
  const COMPACT_ABOVE: nat := 65536

  /** How a captured byte left the queue: handed to the emulator, dropped by the cap, or thrown away
      when the device was closed. */
  datatype Way = Delivered | Dropped | Discarded

  datatype Fate = Fate(way: Way, byte: Byte)

  datatype Format = Format(rate: nat, bits: nat, channels: nat)

  const CLOSED := Format(0, 0, 0)

  /** The buffer as a queue, with the history of the bytes that left it, oldest first. */
  datatype Fifo = Fifo(pending: seq<Byte>, gone: seq<Fate>, format: Format, ready: bool)

  datatype Event =
    | Frame(bytes: seq<Byte>)
    | Get(length: nat)
    | Open(format: Format, deviceOpens: bool)
    | Close

  /** The cap, with the wrap-around of the 64-bit product. */
  function Limit(f: Format): nat {
    Max(MIN_BUFFERED, U64(U64(f.rate * f.channels) * (Max(f.bits, 8) / 8)))
  }

  /** The bytes of one second of sound: a sample of fewer than eight bits takes a byte. */
  function OneSecond(f: Format): nat {
    f.rate * f.channels * (Max(f.bits, 8) / 8)
  }

  /** The cap holds 153600 bytes or one second of sound, whichever is more, unless that is more bytes than
      a 64-bit word can count. */
  lemma LimitHoldsOneSecond(f: Format)
    ensures Limit(f) >= 153_600
    ensures OneSecond(f) < BIT64 ==> Limit(f) == Max(153_600, OneSecond(f))
  {
    var frames, width := f.rate * f.channels, Max(f.bits, 8) / 8;
    if frames * width < BIT64 {
      FactorFits(frames, width);
      U64Exact(frames);
      U64Exact(frames * width);
    }
  }

  lemma FactorFits(x: nat, y: nat)
    requires 1 <= y
    ensures x <= x * y
  {}

  function BytesOf(gone: seq<Fate>): (r: seq<Byte>) {
    seq(|gone|, i requires 0 <= i < |gone| => gone[i].byte)
  }

  /** A block of bytes that left the same way. */
  function Leaving(way: Way, bytes: seq<Byte>): seq<Fate> {
    seq(|bytes|, i requires 0 <= i < |bytes| => Fate(way, bytes[i]))
  }

  /** The number of old bytes the cap drops to make room for `frame` new ones. */
  function Excess(buffered: nat, frame: nat, limit: nat): nat {
    if buffered + frame > limit then Min(buffered, buffered + frame - limit) else 0
  }

  function Roomy(s: Fifo, frame: nat, limit: nat): Fifo {
    var drop := Excess(|s.pending|, frame, limit);
    s.(pending := s.pending[drop..], gone := s.gone + Leaving(Dropped, s.pending[..drop]))
  }

  function Appended(s: Fifo, bytes: seq<Byte>): Fifo {
    s.(pending := s.pending + bytes)
  }

  function Closed(s: Fifo): Fifo {
    Fifo([], s.gone + Leaving(Discarded, s.pending), CLOSED, false)
  }

  function Step(s: Fifo, e: Event): Fifo {
    match e
    case Frame(bytes) =>
      if bytes == [] then s else Appended(Roomy(s, |bytes|, Limit(s.format)), bytes)
    case Get(length) =>
      var n := Min(length, |s.pending|);
      s.(pending := s.pending[n..], gone := s.gone + Leaving(Delivered, s.pending[..n]))
    case Open(format, deviceOpens) =>
      if s.ready && s.format == format then s
      else if format.rate == 0 || format.bits == 0 || format.channels == 0 || !deviceOpens then Closed(s)
      else Closed(s).(format := format, ready := true)
    case Close => Closed(s)
  }

  function Run(s: Fifo, events: seq<Event>): Fifo {
    if events == [] then s else Step(Run(s, events[..|events| - 1]), events[|events| - 1])
  }

  /** Everything captured during a run. */
  function Captured(events: seq<Event>): seq<Byte> {
    if events == [] then []
    else Captured(events[..|events| - 1]) + FrameBytes(events[|events| - 1])
  }

  function FrameBytes(e: Event): seq<Byte> {
    if e.Frame? then e.bytes else []
  }

  /** Every byte that left the queue, followed by every byte still in it, is what was captured, in
      order: nothing is lost unseen, doubled or swapped. */
  lemma {:induction false} NothingIsReordered(s: Fifo, events: seq<Event>)
    ensures var t := Run(s, events);
      BytesOf(t.gone) + t.pending == BytesOf(s.gone) + s.pending + Captured(events)
  {
    if events != [] {
      var before, last := events[..|events| - 1], events[|events| - 1];
      NothingIsReordered(s, before);
      StepConserves(Run(s, before), last);
    }
  }

  lemma StepConserves(s: Fifo, e: Event)
    ensures BytesOf(Step(s, e).gone) + Step(s, e).pending == BytesOf(s.gone) + s.pending + FrameBytes(e)
  {
    match e {
      case Frame(bytes) =>
        BlockLeaves(s.gone, s.pending, Excess(|s.pending|, |bytes|, Limit(s.format)), Dropped);
      case Get(length) =>
        BlockLeaves(s.gone, s.pending, Min(length, |s.pending|), Delivered);
      case Open(_, _) =>
        BlockLeaves(s.gone, s.pending, |s.pending|, Discarded);
        assert s.pending[..|s.pending|] == s.pending;
      case Close =>
        BlockLeaves(s.gone, s.pending, |s.pending|, Discarded);
        assert s.pending[..|s.pending|] == s.pending;
    }
  }

  /** Moving the oldest bytes to the history moves nothing in the stream. */
  lemma BlockLeaves(gone: seq<Fate>, pending: seq<Byte>, n: nat, way: Way)
    requires n <= |pending|
    ensures BytesOf(gone + Leaving(way, pending[..n])) + pending[n..] == BytesOf(gone) + pending
  {
    assert pending == pending[..n] + pending[n..];
  }

  /** The part of the history the emulator saw. */
  function DeliveredBytes(gone: seq<Fate>): seq<Byte> {
    if gone == [] then []
    else DeliveredBytes(gone[..|gone| - 1])
         + if gone[|gone| - 1].way.Delivered? then [gone[|gone| - 1].byte] else []
  }

  /** The part it did not see. */
  function LostBytes(gone: seq<Fate>): seq<Byte> {
    if gone == [] then []
    else LostBytes(gone[..|gone| - 1])
         + if gone[|gone| - 1].way.Delivered? then [] else [gone[|gone| - 1].byte]
  }

  lemma {:induction false} HistoryIsSplit(gone: seq<Fate>)
    ensures |gone| == |DeliveredBytes(gone)| + |LostBytes(gone)|
    ensures LostBytes(gone) == [] ==> DeliveredBytes(gone) == BytesOf(gone)
  {
    if gone != [] {
      HistoryIsSplit(gone[..|gone| - 1]);
      assert BytesOf(gone) == BytesOf(gone[..|gone| - 1]) + [gone[|gone| - 1].byte];
    }
  }

  lemma {:induction false} HistoriesJoin(a: seq<Fate>, b: seq<Fate>)
    ensures DeliveredBytes(a + b) == DeliveredBytes(a) + DeliveredBytes(b)
  {
    if b == [] {
      assert a + b == a;
    } else {
      var init := b[..|b| - 1];
      assert (a + b)[..|a + b| - 1] == a + init;
      HistoriesJoin(a, init);
    }
  }

  lemma {:induction false} BlockIsUniform(way: Way, bytes: seq<Byte>)
    ensures DeliveredBytes(Leaving(way, bytes)) == if way.Delivered? then bytes else []
  {
    if bytes != [] {
      var init := bytes[..|bytes| - 1];
      BlockIsUniform(way, init);
      assert Leaving(way, bytes)[..|bytes| - 1] == Leaving(way, init);
    }
  }

  /** Captured bytes are delivered, lost or pending, counted over any run from an empty buffer. */
  lemma {:induction false} CapturedIsAccountedFor(s: Fifo, events: seq<Event>)
    requires s.pending == [] && s.gone == []
    ensures var t := Run(s, events);
      |Captured(events)| == |DeliveredBytes(t.gone)| + |LostBytes(t.gone)| + |t.pending|
    ensures var t := Run(s, events);
      LostBytes(t.gone) == [] ==> DeliveredBytes(t.gone) + t.pending == Captured(events)
  {
    NothingIsReordered(s, events);
    var t, stream := Run(s, events), Captured(events);
    NothingBefore(BytesOf(s.gone), s.pending, stream);
    StreamIsAccountedFor(t.gone, t.pending, stream);
  }

  lemma NothingBefore(a: seq<Byte>, b: seq<Byte>, c: seq<Byte>)
    requires a == [] && b == []
    ensures a + b + c == c
  {}

  lemma {:induction false} StreamIsAccountedFor(gone: seq<Fate>, pending: seq<Byte>, stream: seq<Byte>)
    requires BytesOf(gone) + pending == stream
    ensures |stream| == |DeliveredBytes(gone)| + |LostBytes(gone)| + |pending|
    ensures LostBytes(gone) == [] ==> DeliveredBytes(gone) + pending == stream
  {
    HistoryIsSplit(gone);
  }

  /** What a request for `length` bytes is answered with, before the zeros that fill it up. */
  function Answer(s: Fifo, e: Event): seq<Byte> {
    if e.Get? then s.pending[..Min(e.length, |s.pending|)] else []
  }

  /** Everything the emulator was given during a run. */
  function Answers(s: Fifo, events: seq<Event>): seq<Byte> {
    if events == [] then []
    else Answers(s, events[..|events| - 1])
         + Answer(Run(s, events[..|events| - 1]), events[|events| - 1])
  }

  /** The answers, joined, are the delivered part of the captured stream, in capture order. */
  lemma {:induction false} AnswersAreTheDelivered(s: Fifo, events: seq<Event>)
    ensures DeliveredBytes(Run(s, events).gone) == DeliveredBytes(s.gone) + Answers(s, events)
  {
    if events != [] {
      var before, last := events[..|events| - 1], events[|events| - 1];
      AnswersAreTheDelivered(s, before);
      var middle := Run(s, before);
      StepDelivers(middle, last);
      Sequences.Associates(DeliveredBytes(s.gone), Answers(s, before), Answer(middle, last));
    }
  }

  lemma StepDelivers(s: Fifo, e: Event)
    ensures DeliveredBytes(Step(s, e).gone) == DeliveredBytes(s.gone) + Answer(s, e)
  {
    match e {
      case Frame(bytes) =>
        BlockDelivers(s.gone, Dropped, s.pending[..Excess(|s.pending|, |bytes|, Limit(s.format))]);
      case Get(_) =>
        BlockDelivers(s.gone, Delivered, Answer(s, e));
      case Open(_, _) =>
        BlockDelivers(s.gone, Discarded, s.pending);
      case Close =>
        BlockDelivers(s.gone, Discarded, s.pending);
    }
  }

  lemma BlockDelivers(gone: seq<Fate>, way: Way, bytes: seq<Byte>)
    ensures DeliveredBytes(gone + Leaving(way, bytes)) == DeliveredBytes(gone) + if way.Delivered? then bytes else []
  {
    HistoriesJoin(gone, Leaving(way, bytes));
    BlockIsUniform(way, bytes);
  }

  /** A frame leaves the newest bytes: as many as the cap allows, but never less than the frame. */
  lemma FrameKeepsTheNewest(s: Fifo, bytes: seq<Byte>)
    requires bytes != []
    ensures var all, after := s.pending + bytes, Step(s, Frame(bytes)).pending;
      && |after| == Min(|all|, Max(Limit(s.format), |bytes|))
      && after == all[|all| - |after|..]
  {}

  function LargestFrame(events: seq<Event>): nat {
    if events == [] then 0
    else Max(LargestFrame(events[..|events| - 1]), |FrameBytes(events[|events| - 1])|)
  }

  /** The buffer never holds more than its cap, or the largest frame if that is larger. */
  lemma {:induction false} PendingIsBounded(s: Fifo, events: seq<Event>)
    requires s.pending == []
    ensures var t := Run(s, events); |t.pending| <= Max(Limit(t.format), LargestFrame(events))
  {
    if events != [] {
      var before, last := events[..|events| - 1], events[|events| - 1];
      PendingIsBounded(s, before);
      if last.Frame? && last.bytes != [] {
        FrameKeepsTheNewest(Run(s, before), last.bytes);
      }
    }
  }

  /** The answer and zeros up to the requested length, stored in the caller's buffer. */
  method Reply(data: array<Byte>, answer: seq<Byte>, length: nat)
    requires |answer| <= length <= data.Length
    modifies data
    ensures forall k :: 0 <= k < length ==> data[k] == if k < |answer| then answer[k] else 0
    ensures data[length..] == old(data[length..])
  {
    var rest := Zeros(length - |answer|);
    ghost var before := data[..];
    Put(data, 0, answer);
    ghost var middle := data[..];
    Put(data, |answer|, rest);
    TwoPuts(before, middle, data[..], answer, rest);
    assert forall k :: 0 <= k < length ==> data[k] == data[..][k];
    assert data[length..] == data[..][length..];
  }

  lemma TwoPuts(s0: seq<Byte>, s1: seq<Byte>, s2: seq<Byte>, a: seq<Byte>, b: seq<Byte>)
    requires |a| + |b| <= |s0| && s1 == s0[..0] + a + s0[|a|..]
    requires s2 == s1[..|a|] + b + s1[|a| + |b|..]
    ensures s2 == a + b + s0[|a| + |b|..]
  {
    assert s1[..|a|] == a && s1[|a| + |b|..] == s0[|a| + |b|..];
  }

  /** A request is for what is there, and one for nothing changes nothing. */
  lemma ShortRequest(s: Fifo, length: nat)
    ensures var n := Min(length, |s.pending|);
      && Answer(s, Get(length)) == Answer(s, Get(n))
      && Step(s, Get(length)) == Step(s, Get(n))
      && Step(s, Get(0)) == s
  {
    assert s.gone + Leaving(Delivered, s.pending[..0]) == s.gone;
  }

  class CaptureBuffer {
    /** The queue and the offset of its first pending byte. */
    var queue: seq<Byte>
    var readOffset: nat
    var sampleRate: nat
    var bits: nat
    var channels: nat
    var ready: bool
    ghost var gone: seq<Fate>

    ghost predicate Valid()
      reads this
    {
      readOffset <= |queue|
    }

    ghost function View(): Fifo
      requires Valid()
      reads this
    {
      Fifo(queue[readOffset..], gone, Format(sampleRate, bits, channels), ready)
    }

    constructor ()
      ensures Valid() && View() == Fifo([], [], CLOSED, false)
    {
      queue, readOffset, sampleRate, bits, channels, ready, gone := [], 0, 0, 0, 0, false, [];
    }

    /** Erasing the bytes before the offset is invisible. */
    method Compact()
      requires Valid()
      modifies this`queue, this`readOffset
      ensures Valid() && View() == old(View())
    {
      queue, readOffset := queue[readOffset..], 0;
    }

    method MaxBuffered() returns (limit: nat)
      requires Valid()
      ensures limit == Limit(View().format)
      ensures limit >= 19200 * 8
      ensures OneSecond(View().format) < BIT64 ==> limit == Max(MIN_BUFFERED, OneSecond(View().format))
    {
      LimitHoldsOneSecond(View().format);
      limit := Max(MIN_BUFFERED, U64(U64(sampleRate * channels) * (Max(bits, 8) / 8)));
    }

    /** The cap: skip the oldest pending bytes that a frame of `n` would push over it. */
    method MakeRoom(n: nat, maxBuffered: nat)
      requires Valid()
      modifies this`readOffset, this`gone
      ensures Valid() && View() == Roomy(old(View()), n, maxBuffered)
    {
      var buffered := if |queue| >= readOffset then |queue| - readOffset else 0;
      var drop := 0;
      if buffered + n > maxBuffered {
        drop := Min(buffered, buffered + n - maxBuffered);
      }
      gone := gone + Leaving(Dropped, queue[readOffset..][..drop]);
      readOffset := readOffset + drop;
    }

    /** Bytes inserted behind the queue are behind the pending ones. */
    method Insert(bytes: seq<Byte>)
      requires Valid()
      modifies this`queue
      ensures Valid() && View() == Appended(old(View()), bytes)
    {
      queue := queue + bytes;
      assert queue[readOffset..] == old(queue[readOffset..]) + bytes;
    }

    method Append(bytes: seq<Byte>, maxBuffered: nat)
      requires Valid()
      modifies this`queue, this`readOffset, this`gone
      ensures Valid() && View() == Appended(Roomy(old(View()), |bytes|, maxBuffered), bytes)
    {
      MakeRoom(|bytes|, maxBuffered);
      if readOffset > 0 && (readOffset > COMPACT_ABOVE || readOffset * 2 > |queue|) {
        Compact();
      }
      Insert(bytes);
    }

    /** The part of CopyCaptureFrame() behind the lock. */
    method CopyCaptureFrame(bytes: seq<Byte>)
      requires Valid()
      modifies this`queue, this`readOffset, this`gone
      ensures Valid() && View() == Step(old(View()), Frame(bytes))
    {
      if bytes != [] {
        var maxBuffered := MaxBuffered();
        Append(bytes, maxBuffered);
      }
    }

    /** Hand out `n` bytes: read them and advance the offset past them. */
    method Take(n: nat) returns (bytes: seq<Byte>)
      requires Valid() && n <= |View().pending|
      modifies this
      ensures Valid() && View() == Step(old(View()), Get(n)) && bytes == Answer(old(View()), Get(n))
      ensures n == 0 ==> View() == old(View())
      ensures bytes == old(View().pending)[..n] && View().pending == old(View().pending)[n..]
      ensures ready == old(ready) && View().format == old(View().format)
    {
      bytes := queue[readOffset..][..n];
      gone := gone + Leaving(Delivered, bytes);
      if n > 0 {
        readOffset := readOffset + n;
        if readOffset >= |queue| {
          queue, readOffset := [], 0;
        } else if readOffset > COMPACT_ABOVE && readOffset * 2 > |queue| {
          Compact();
        }
      }
    }

    method InputGet(data: array<Byte>, length: nat) returns (status: int)
      requires Valid() && length <= data.Length
      modifies this, data
      ensures Valid() && View() == Step(old(View()), Get(length))
      ensures var pending := old(View().pending);
        && (forall k :: 0 <= k < length ==> data[k] == if k < |pending| then pending[k] else 0)
        && data[length..] == old(data[length..])
        && View().pending == pending[if length < |pending| then length else |pending|..]
      ensures ready == old(ready) && View().format == old(View().format)
      ensures status == if length == 0 || ready then 0 else -1
    {
      status := 0;
      if length > 0 {
        Serve(data, length);
        if !ready { status := -1; }
      } else {
        ShortRequest(View(), length);
      }
    }

    /** A request for at least one byte. */
    method Serve(data: array<Byte>, length: nat)
      requires Valid() && length <= data.Length
      modifies this, data
      ensures Valid() && View() == Step(old(View()), Get(length))
      ensures var pending := old(View().pending);
        && (forall k :: 0 <= k < length ==> data[k] == if k < |pending| then pending[k] else 0)
        && data[length..] == old(data[length..])
        && View().pending == pending[if length < |pending| then length else |pending|..]
      ensures ready == old(ready) && View().format == old(View().format)
    {
      var answer := TakeUpTo(length);
      Reply(data, answer, length);
    }

    /** Hand out what there is, but no more than `length` bytes. */
    method TakeUpTo(length: nat) returns (bytes: seq<Byte>)
      requires Valid()
      modifies this
      ensures Valid() && View() == Step(old(View()), Get(length))
      ensures ready == old(ready) && View().format == old(View().format)
      ensures var pending := old(View().pending);
        var n := if length < |pending| then length else |pending|;
        bytes == pending[..n] && View().pending == pending[n..]
    {
      ShortRequest(View(), length);
      var available := if |queue| >= readOffset then |queue| - readOffset else 0;
      assert available == |View().pending|;
      bytes := Take(Min(length, available));
    }

    /** CloseCaptureLocked(), without the audio graph. */
    method CloseCapture()
      requires Valid()
      modifies this
      ensures Valid() && View() == Step(old(View()), Close)
      ensures View().pending == [] && !ready && sampleRate == bits == channels == 0
      ensures BytesOf(gone) == BytesOf(old(gone)) + old(View().pending)
    {
      gone := gone + Leaving(Discarded, queue[readOffset..]);
      queue, readOffset := [], 0;
      sampleRate, bits, channels := 0, 0, 0;
      ready := false;
    }

    /** OpenCaptureLocked(): whether the audio graph can be built is a parameter. */
    method OpenCapture(f: Format, deviceOpens: bool) returns (ok: bool)
      requires Valid()
      modifies this
      ensures Valid() && View() == Step(old(View()), Open(f, deviceOpens))
      ensures ok <==> (old(ready) && old(View().format) == f)
                      || (0 < f.rate && 0 < f.bits && 0 < f.channels && deviceOpens)
      ensures old(ready) && old(View().format) == f ==> View() == old(View())
      ensures !(old(ready) && old(View().format) == f) ==>
        && View().pending == [] && ready == ok
        && View().format == (if ok then f else Format(0, 0, 0))
        && BytesOf(gone) == BytesOf(old(gone)) + old(View().pending)
    {
      if ready && sampleRate == f.rate && bits == f.bits && channels == f.channels {
        return true;
      }
      CloseCapture();
      if f.rate == 0 || f.bits == 0 || f.channels == 0 || !deviceOpens {
        return false;
      }
      sampleRate, bits, channels := f.rate, f.bits, f.channels;
      ready := true;
      return true;
    }
  }
}
