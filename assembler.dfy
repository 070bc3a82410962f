/**
 * The frame assembler of a `SerialListener`: bytes arrive in chunks of any size;
 * chunks that follow each other within the inter-frame timeout are gathered into
 * one frame, and the frame is emitted when the timer expires.  The listener is an
 * object updated in place by its two callbacks (`OnData`, `OnTimer`).
 *
 * The reference for what it must emit is `Segment`, which only groups the chunks
 * of an event trace: a group opens at the first chunk after an expiry, takes that
 * chunk's arrival time, and closes at the next expiry.  The listener's byte
 * concatenation and offset arithmetic are proved to agree with `Frames` of the
 * closed groups.
 */
module Assembler {
  import opened Wrappers
  import opened Bytes

  /** Wall-clock time of a `Date`, in milliseconds; the model never inspects it. */
  type Time = int

  /** A frame as emitted on the listener's `'data'` event. */
  datatype Frame = Frame(time: Time, offset: nat, data: seq<byte>)

  /** What can happen to a listener: a chunk arrives, or its armed timer expires. */
  datatype Event = Chunk(now: Time, bytes: seq<byte>) | Expiry

  /** Chunks that belong to one frame, with the arrival time of the first one. */
  datatype Group = Group(time: Time, chunks: seq<seq<byte>>)

  datatype Segmentation = Segmentation(closed: seq<Group>, open: Option<Group>)

  /** The listener's display name: the device, then a space and the alias when one is given. */
  function StreamName(device: string, alias: Option<string>): (r: string)
    ensures |r| >= |device| && r[..|device|] == device
    ensures |r| > |device| <==> alias.Some? && alias.value != ""
    ensures |r| > |device| ==> r[|device|..] == " " + alias.value
  {
    if alias.Some? && alias.value != "" then device + " " + alias.value else device
  }

  /** Concatenation of byte strings, in order. */
  function Flatten(parts: seq<seq<byte>>): seq<byte>
  {
    if parts == [] then [] else Flatten(parts[..|parts| - 1]) + parts[|parts| - 1]
  }

  lemma FlattenSnoc(parts: seq<seq<byte>>, b: seq<byte>)
    ensures Flatten(parts + [b]) == Flatten(parts) + b
  {
    assert (parts + [b])[..|parts|] == parts;
  }

  /** All bytes of a sequence of groups, in order. */
  function AllBytes(groups: seq<Group>): seq<byte>
  {
    if groups == [] then []
    else AllBytes(groups[..|groups| - 1]) + Flatten(groups[|groups| - 1].chunks)
  }

  /** All bytes of a sequence of frames, in order. */
  function Payloads(frames: seq<Frame>): seq<byte>
  {
    if frames == [] then [] else Payloads(frames[..|frames| - 1]) + frames[|frames| - 1].data
  }

  /** Every byte that arrived in a trace, in arrival order. */
  function Received(trace: seq<Event>): seq<byte>
  {
    if trace == [] then []
    else
      var last := trace[|trace| - 1];
      Received(trace[..|trace| - 1]) + (if last.Chunk? then last.bytes else [])
  }

  /**
   * Reference grouping of a trace: a chunk opens a group when none is open and
   * joins the open one otherwise; an expiry closes the open group (an expiry with
   * no open group has no effect: no timer was armed).
   */
  function Segment(trace: seq<Event>): Segmentation
  {
    if trace == [] then Segmentation([], None)
    else
      var s := Segment(trace[..|trace| - 1]);
      match trace[|trace| - 1]
      case Chunk(now, bytes) =>
        if s.open.None? then Segmentation(s.closed, Some(Group(now, [bytes])))
        else Segmentation(s.closed, Some(Group(s.open.value.time, s.open.value.chunks + [bytes])))
      case Expiry =>
        if s.open.None? then s else Segmentation(s.closed + [s.open.value], None)
  }

  /** The frames that closing `groups` in order produces, each placed after all earlier bytes. */
  function Frames(groups: seq<Group>): seq<Frame>
  {
    if groups == [] then []
    else
      var init := groups[..|groups| - 1];
      var g := groups[|groups| - 1];
      Frames(init) + [Frame(g.time, |AllBytes(init)|, Flatten(g.chunks))]
  }

  /** The first frame starts at offset `start`; every next one where the previous one ends. */
  predicate Contiguous(frames: seq<Frame>, start: nat) {
    (frames != [] ==> frames[0].offset == start) &&
    forall j :: 0 < j < |frames| ==> frames[j].offset == frames[j - 1].offset + |frames[j - 1].data|
  }

  lemma {:induction false} FrameOfGroup(groups: seq<Group>, i: nat)
    requires i < |groups|
    ensures |Frames(groups)| == |groups|
    ensures Frames(groups)[i] == Frame(groups[i].time, |AllBytes(groups[..i])|, Flatten(groups[i].chunks))
  {
    var n := |groups| - 1;
    var init := groups[..n];
    if i < n {
      FrameOfGroup(init, i);
      assert init[..i] == groups[..i];
    } else {
      if n > 0 {
        FrameOfGroup(init, n - 1);
      }
    }
  }

  lemma {:induction false} FramesLength(groups: seq<Group>)
    ensures |Frames(groups)| == |groups|
  {
    if groups != [] {
      FrameOfGroup(groups, 0);
    }
  }

  /** Offsets of the frames of any grouping start at 0 and leave neither gap nor overlap. */
  lemma {:induction false} FramesContiguous(groups: seq<Group>)
    ensures Contiguous(Frames(groups), 0)
  {
    var fs := Frames(groups);
    FramesLength(groups);
    if groups != [] {
      FrameOfGroup(groups, 0);
    }
    forall j | 0 < j < |fs|
      ensures fs[j].offset == fs[j - 1].offset + |fs[j - 1].data|
    {
      FrameOfGroup(groups, j);
      FrameOfGroup(groups, j - 1);
      assert groups[..j] == groups[..j - 1] + [groups[j - 1]];
      assert groups[..j][..j - 1] == groups[..j - 1];
    }
  }

  /** The frames carry exactly the bytes of the groups, in order. */
  lemma {:induction false} FramesPayloads(groups: seq<Group>)
    ensures Payloads(Frames(groups)) == AllBytes(groups)
  {
    if groups != [] {
      var init := groups[..|groups| - 1];
      FramesPayloads(init);
      assert Frames(groups)[..|Frames(groups)| - 1] == Frames(init);
    }
  }

  /** Each frame starts at the total length of the frames before it. */
  lemma FrameOffsetIsPriorLength(groups: seq<Group>, i: nat)
    requires i < |groups|
    ensures |Frames(groups)| == |groups|
    ensures Frames(groups)[i].offset == |Payloads(Frames(groups)[..i])|
  {
    FrameOfGroup(groups, i);
    FramesPayloads(groups[..i]);
    FramesPrefix(groups, i);
  }

  lemma {:induction false} FramesPrefix(groups: seq<Group>, i: nat)
    requires i <= |groups|
    ensures |Frames(groups)| == |groups|
    ensures Frames(groups)[..i] == Frames(groups[..i])
  {
    FramesLength(groups);
    if i < |groups| {
      var init := groups[..|groups| - 1];
      FramesPrefix(init, i);
      assert init[..i] == groups[..i];
      assert Frames(groups)[..|groups| - 1] == Frames(init);
      assert Frames(groups)[..i] == Frames(groups)[..|groups| - 1][..i];
    } else {
      assert groups[..i] == groups;
    }
  }

  /** The bytes of the pending (open) group, if any. */
  function Pending(s: Segmentation): seq<byte>
  {
    if s.open.None? then [] else Flatten(s.open.value.chunks)
  }

  /**
   * Nothing dropped, nothing duplicated, nothing reordered: the closed groups
   * followed by the open one hold exactly the bytes received, in arrival order.
   */
  lemma {:induction false} SegmentKeepsEveryByte(trace: seq<Event>)
    ensures AllBytes(Segment(trace).closed) + Pending(Segment(trace)) == Received(trace)
  {
    if trace != [] {
      var init := trace[..|trace| - 1];
      SegmentKeepsEveryByte(init);
      var s := Segment(init);
      match trace[|trace| - 1]
      case Chunk(now, bytes) =>
        assert Received(trace) == Received(init) + bytes;
        if s.open.Some? {
          FlattenSnoc(s.open.value.chunks, bytes);
        } else {
          FlattenSnoc([], bytes);
        }
      case Expiry =>
        if s.open.Some? {
          var cl := s.closed + [s.open.value];
          assert cl[..|cl| - 1] == s.closed;
        }
    }
  }

  /**
   * A `SerialListener`: Idle while `chunk` is `None`, Accumulating while a frame is
   * pending.  `timerArmed` stands for the one `setTimeout` handle the listener keeps.
   * The ghost `trace` records every callback run; `emitted` every frame sent out.
   */
  class SerialListener {
    const name: string
    var chunk: Option<Frame>
    var offset: nat
    var timerArmed: bool
    ghost var emitted: seq<Frame>
    ghost var trace: seq<Event>

    /** The fields are what the reference grouping of `trace` says they must be. */
    ghost predicate Valid()
      reads this
    {
      var s := Segment(trace);
      emitted == Frames(s.closed) &&
      offset == |AllBytes(s.closed)| &&
      timerArmed == s.open.Some? &&
      chunk == (if s.open.None? then None
                else Some(Frame(s.open.value.time, offset, Flatten(s.open.value.chunks))))
    }

    constructor (device: string, alias: Option<string>)
      ensures Valid() && trace == [] && emitted == []
      ensures chunk == None && offset == 0 && !timerArmed
      ensures name == StreamName(device, alias)
    {
      name := StreamName(device, alias);
      chunk := None;
      offset := 0;
      timerArmed := false;
      emitted := [];
      trace := [];
    }

    /** The `'data'` callback of the serial port. */
    method OnData(now: Time, bytes: seq<byte>)
      requires Valid()
      modifies this
      ensures Valid() && trace == old(trace) + [Chunk(now, bytes)]
      ensures emitted == old(emitted) && offset == old(offset)
      ensures timerArmed && chunk.Some?
      ensures old(chunk).None? ==> chunk.value == Frame(now, offset, bytes)
      ensures old(chunk).Some? ==>
        chunk.value.time == old(chunk).value.time &&
        chunk.value.offset == old(chunk).value.offset &&
        chunk.value.data == old(chunk).value.data + bytes
    {
      timerArmed := false;
      if chunk.None? {
        chunk := Some(Frame(now, offset, bytes));
      } else {
        chunk := Some(chunk.value.(data := chunk.value.data + bytes));
      }
      timerArmed := true;
      trace := trace + [Chunk(now, bytes)];
      ghost var s := Segment(old(trace));
      assert trace[..|trace| - 1] == old(trace);
      if s.open.Some? {
        FlattenSnoc(s.open.value.chunks, bytes);
      } else {
        FlattenSnoc([], bytes);
        assert [] + [bytes] == [bytes];
        assert Flatten([bytes]) == bytes;
        assert Segment(trace).open == Some(Group(now, [bytes]));
        assert Segment(trace).closed == s.closed;
      }
    }

    /** The inter-frame timer callback: emit the pending frame and return to Idle. */
    method OnTimer()
      requires Valid() && timerArmed
      modifies this
      ensures Valid() && trace == old(trace) + [Expiry]
      ensures old(chunk).Some? && emitted == old(emitted) + [old(chunk).value]
      ensures offset == old(offset) + |old(chunk).value.data|
      ensures chunk == None && !timerArmed
    {
      offset := chunk.value.offset + |chunk.value.data|;
      emitted := emitted + [chunk.value];
      chunk := None;
      timerArmed := false;
      trace := trace + [Expiry];
      ghost var s := Segment(old(trace));
      assert trace[..|trace| - 1] == old(trace);
      var cl := s.closed + [s.open.value];
      assert cl[..|cl| - 1] == s.closed;
    }
  }

  /**
   * What any listener has emitted so far: contiguous offsets from 0, and the
   * emitted payloads followed by the pending one are exactly the bytes received.
   */
  lemma ListenerOutput(l: SerialListener)
    requires l.Valid()
    ensures Contiguous(l.emitted, 0)
    ensures Payloads(l.emitted) + (if l.chunk.None? then [] else l.chunk.value.data) == Received(l.trace)
    ensures l.offset == |Payloads(l.emitted)|
  {
    var s := Segment(l.trace);
    FramesContiguous(s.closed);
    FramesPayloads(s.closed);
    SegmentKeepsEveryByte(l.trace);
  }

  /** Two bursts separated by silence give two frames, the second placed right after the first. */
  method TwoBursts()
  {
    var l := new SerialListener("/dev/ttyUSB0", Some("left"));
    var first: seq<byte> := [0x01, 0x02];
    l.OnData(0, first);
    l.OnData(50, [0x03]);
    assert first + [0x03] == [0x01, 0x02, 0x03];
    l.OnTimer();
    assert l.emitted == [Frame(0, 0, [0x01, 0x02, 0x03])] && l.offset == 3;
    l.OnData(500, [0xff]);
    l.OnTimer();
    assert l.emitted[1] == Frame(500, 3, [0xff]) && l.offset == 4;
  }

  /** An empty first chunk still opens a frame, which the timer then emits. */
  method EmptyChunkOpensFrame()
  {
    var l := new SerialListener("/dev/ttyUSB1", None);
    l.OnData(900, []);
    assert l.timerArmed;
    l.OnTimer();
    assert l.emitted == [Frame(900, 0, [])] && l.offset == 0;
  }
}
