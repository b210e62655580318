/** The frame assembler of rx_rfc4175.c: two buffers, updated packet by packet. */
module Assembler {
  import opened Bytes
  import opened Overlay
  import opened Wire
  import opened Stream

  /** The argument of the frame callback. */
  datatype Frame = Frame(data: seq<byte>, linesize: nat, width: nat, height: nat,
                         format: PixelFormat, timestampNs: nat, number: u32, incomplete: bool)

  function TimestampNs(ts: u32): nat {
    ts * 1_000_000_000 / 90_000
  }

  /** `ns` is the time of the 90 kHz timestamp `ts` in nanoseconds, rounded down. */
  ghost predicate ClockReads(ns: nat, ts: u32) {
    0 <= ts * 1_000_000_000 - 90_000 * ns < 90_000
  }

  lemma NsOfTicks(ts: u32)
    ensures ClockReads(TimestampNs(ts), ts)
  {
  }

  /** The callback argument for the `k`-th delivery of a stream, counting from zero. */
  ghost function FrameOf(g: Geometry, fmt: PixelFormat, d: Delivery, k: nat): Frame {
    Frame(Image(g.Size(), d.packets), g.Stride(), g.width, g.height, fmt, TimestampNs(d.ts), Count32(k), d.incomplete)
  }

  /** The callback arguments for deliveries `k`, `k + 1`, ... of a stream. */
  ghost function FramesOf(g: Geometry, fmt: PixelFormat, ds: seq<Delivery>, k: nat): (fs: seq<Frame>)
    ensures |fs| == |ds|
  {
    if ds == [] then [] else FramesOf(g, fmt, Front(ds), k) + [FrameOf(g, fmt, Last(ds), k + |ds| - 1)]
  }

  lemma FramesOfOne(g: Geometry, fmt: PixelFormat, d: Delivery, k: nat)
    ensures FramesOf(g, fmt, [d], k) == [FrameOf(g, fmt, d, k)]
  {
    assert Front([d]) == [];
  }

  // ---------- The fields as one value ----------

  /** All mutable fields of an assembler, buffers by content. */
  datatype State = State(fill: seq<byte>, deliver: seq<byte>, lastSeq: u16, lastTs: u32, hasPrev: bool,
                         incomplete: bool, marked: bool, number: u32,
                         deliveredIncomplete: bool, deliveredTs: u32)

  ghost function Handed(g: Geometry, fmt: PixelFormat, s: State, ts: u32): Frame {
    Frame(s.fill, g.Stride(), g.width, g.height, fmt, TimestampNs(ts), s.number, s.incomplete)
  }

  ghost function AfterHanding(s: State, ts: u32): State {
    s.(deliver := s.fill, fill := Zeros(|s.fill|), number := Inc32(s.number),
       deliveredIncomplete := s.incomplete, deliveredTs := ts, incomplete := false)
  }

  ghost predicate NewTimestamp(s: State, ts: u32) {
    s.hasPrev && ts != s.lastTs
  }

  ghost predicate FlushedBy(s: State, ts: u32, marker: bool) {
    NewTimestamp(s, ts) && !s.marked && !marker
  }

  ghost function LostBy(s: State, seqNo: u16): nat {
    if s.hasPrev then Diff16(seqNo, Succ16(s.lastSeq)) else 0
  }

  ghost predicate GapBefore(s: State, seqNo: u16) {
    s.hasPrev && seqNo != Succ16(s.lastSeq)
  }

  /** The fields once sequence number and timestamp of a packet are dealt with. */
  ghost function Begun(s: State, seqNo: u16, ts: u32, marker: bool): State {
    var s1 := s.(incomplete := s.incomplete || GapBefore(s, seqNo));
    var s2 := if FlushedBy(s, ts, marker) then AfterHanding(s1.(incomplete := true), s.lastTs) else s1;
    s2.(marked := s.marked && !NewTimestamp(s, ts), lastSeq := seqNo, lastTs := ts, hasPrev := true)
  }

  /** The fields after an accepted packet. */
  ghost function Next(s: State, p: Packet): State {
    var s1 := Begun(s, p.seqNo, p.ts, p.marker);
    var s2 := s1.(fill := Apply(s1.fill, p.writes));
    if p.marker then AfterHanding(s2, p.ts).(marked := true) else s2
  }

  /** The frames an accepted packet hands over. */
  ghost function NextFrames(g: Geometry, fmt: PixelFormat, s: State, p: Packet): seq<Frame> {
    if FlushedBy(s, p.ts, p.marker) then
      [Handed(g, fmt, s.(incomplete := true), s.lastTs)]
    else if p.marker then
      var s1 := Begun(s, p.seqNo, p.ts, p.marker);
      [Handed(g, fmt, s1.(fill := Apply(s1.fill, p.writes)), p.ts)]
    else
      []
  }

  /** The fields of an assembler that has accepted `log`, every one a function of the log. */
  ghost function StateOf(size: nat, log: Log): State {
    var ds := Deliveries(log);
    State(Image(size, Pending(log)),
          if ds == [] then Zeros(size) else Image(size, Last(ds).packets),
          if log == [] then 0 else Last(log).seqNo,
          if log == [] then 0 else Last(log).ts,
          log != [],
          Gapped(log, PendingStart(log)),
          RunMarked(log),
          Count32(|ds|),
          ds != [] && Last(ds).incomplete,
          if ds == [] then 0 else Last(ds).ts)
  }

  /** What the scalar parts of the fields say about the log. */
  lemma FieldsTellFlush(size: nat, log: Log, p: Packet)
    ensures FlushedBy(StateOf(size, log), p.ts, p.marker) == Flushes(log + [p])
    ensures LostBy(StateOf(size, log), p.seqNo) == LostBefore(log + [p])
    ensures GapBefore(StateOf(size, log), p.seqNo) <==> GapAt(log + [p], |log|)
  {
    assert Front(log + [p]) == log && Last(log + [p]) == p;
  }

  lemma NextWhenFlushed(size: nat, log: Log, p: Packet)
    requires Flushes(log + [p])
    ensures Next(StateOf(size, log), p) == StateOf(size, log + [p])
  {
    FieldsTellFlush(size, log, p);
    DeliveriesSnoc(log, p);
    RunMarkedSnoc(log, p);
    FlushStep(log, p);
    ImageOfOne(size, p);
    var before := StateOf(size, log);
    assert !before.marked && NewTimestamp(before, p.ts);
    assert Begun(before, p.seqNo, p.ts, p.marker).fill == Zeros(size);
  }

  lemma NextWhenMarked(size: nat, log: Log, p: Packet)
    requires p.marker
    ensures Next(StateOf(size, log), p) == StateOf(size, log + [p])
  {
    FieldsTellFlush(size, log, p);
    DeliveriesSnoc(log, p);
    RunMarkedSnoc(log, p);
    MarkerStep(log, p);
    ImageSnoc(size, Pending(log), p);
  }

  lemma NextWhenPlain(size: nat, log: Log, p: Packet)
    requires !p.marker && !Flushes(log + [p])
    ensures Next(StateOf(size, log), p) == StateOf(size, log + [p])
  {
    FieldsTellFlush(size, log, p);
    DeliveriesSnoc(log, p);
    RunMarkedSnoc(log, p);
    PlainStep(log, p);
    ImageSnoc(size, Pending(log), p);
    assert Deliveries(log + [p]) == Deliveries(log);
  }

  lemma NextFramesAreDeliveries(g: Geometry, fmt: PixelFormat, log: Log, p: Packet)
    ensures NextFrames(g, fmt, StateOf(g.Size(), log), p) ==
            FramesOf(g, fmt, DeliveredBy(log + [p]), |Deliveries(log)|)
  {
    FieldsTellFlush(g.Size(), log, p);
    if Flushes(log + [p]) {
      FlushStep(log, p);
      FramesOfOne(g, fmt, Delivery(Pending(log), Last(log).ts, true), |Deliveries(log)|);
    } else if p.marker {
      MarkerStep(log, p);
      ImageSnoc(g.Size(), Pending(log), p);
      FramesOfOne(g, fmt, DeliveredBy(log + [p])[0], |Deliveries(log)|);
    } else {
      PlainStep(log, p);
    }
  }

  /** Stepping the fields is extending the log. */
  lemma NextExtendsLog(g: Geometry, fmt: PixelFormat, log: Log, p: Packet)
    ensures Next(StateOf(g.Size(), log), p) == StateOf(g.Size(), log + [p])
    ensures NextFrames(g, fmt, StateOf(g.Size(), log), p) ==
            FramesOf(g, fmt, DeliveredBy(log + [p]), |Deliveries(log)|)
    ensures LostBy(StateOf(g.Size(), log), p.seqNo) == LostBefore(log + [p])
  {
    var size := g.Size();
    FieldsTellFlush(size, log, p);
    NextFramesAreDeliveries(g, fmt, log, p);
    if Flushes(log + [p]) {
      NextWhenFlushed(size, log, p);
    } else if p.marker {
      NextWhenMarked(size, log, p);
    } else {
      NextWhenPlain(size, log, p);
    }
  }

  // ---------- The code ----------

  method FillZeros(a: array<byte>)
    modifies a
    ensures a[..] == Zeros(a.Length)
  {
    for i := 0 to a.Length
      invariant forall j :: 0 <= j < i ==> a[j] == 0
    {
      a[i] := 0;
    }
  }

  /** memcpy of `src[p..p + n]` to `dst + at`. */
  method CopyBytes(dst: array<byte>, at: nat, src: seq<byte>, p: nat, n: nat)
    requires at + n <= dst.Length && p + n <= |src|
    modifies dst
    ensures dst[..] == Put(old(dst[..]), Write(at, src[p..p + n]))
  {
    forall k | 0 <= k < n {
      dst[at + k] := src[p + k];
    }
  }

  /** The header loop: at most eight headers, an empty result for a malformed list.
      `q` is the cursor behind the last header. */
  method ParseSegmentHeaders(pkt: seq<byte>, p: nat) returns (hs: seq<SegmentHeader>, q: nat)
    ensures hs == Segments(pkt, p)
    ensures hs != [] ==> q == p + 6 * |hs|
  {
    hs, q := [], p;
    while true
      invariant q == p + 6 * |hs| && |hs| <= MAX_SEGMENTS
      invariant |hs| > 0 ==> q <= |pkt|
      invariant forall i: nat :: i < |hs| ==> hs[i] == HeaderAt(pkt, p, i)
      invariant forall i: nat :: i < |hs| ==> HeaderAt(pkt, p, i).more
      decreases MAX_SEGMENTS - |hs|
    {
      if q + 6 > |pkt| || |hs| >= MAX_SEGMENTS {
        NoChain(pkt, p, |hs|);
        hs := [];
        return;
      }
      var h := HeaderAt(pkt, p, |hs|);
      hs, q := hs + [h], q + 6;
      if !h.more {
        assert IsChain(pkt, p, |hs|);
        ChainIsUnique(pkt, p, |hs|);
        return;
      }
    }
  }

  /** Once a payload ends outside the datagram every later one does too, so leaving
      the loop there loses nothing. */
  lemma {:induction false} NothingLandsPastTheEnd(
    g: Geometry, b: seq<byte>, hs: seq<SegmentHeader>, p: nat, i: nat, n: nat)
    requires i < n <= |hs| && PayloadStart(hs, p, i + 1) > |b|
    ensures PayloadStart(hs, p, n) > |b|
    ensures Landed(g, b, hs, p, n) == Landed(g, b, hs, p, i)
  {
    if i + 1 >= n {
    } else {
      NothingLandsPastTheEnd(g, b, hs, p, i, n - 1);
    }
  }

  class Assembler {
    var fillBuf: array<byte>
    var deliverBuf: array<byte>
    const geom: Geometry
    ghost const bufs: set<array<byte>>
    var lastSeq: u16
    var lastTs: u32
    var hasPrev: bool
    var frameIncomplete: bool
    var frameDelivered: bool
    var frameNumber: u32
    var deliveredIncomplete: bool
    var deliveredTs: u32
    ghost var log: Log

    /** Two distinct buffers of the frame's size, always the same two. */
    ghost predicate Shaped()
      reads this
    {
      geom.Accepted() && fillBuf != deliverBuf && bufs == {fillBuf, deliverBuf} &&
      fillBuf.Length == geom.Size() && deliverBuf.Length == geom.Size()
    }

    ghost function Fields(): State
      reads this, fillBuf, deliverBuf
    {
      State(fillBuf[..], deliverBuf[..], lastSeq, lastTs, hasPrev, frameIncomplete, frameDelivered,
            frameNumber, deliveredIncomplete, deliveredTs)
    }

    /** Every field is a function of the packets accepted so far. */
    ghost predicate Valid()
      reads this, fillBuf, deliverBuf
    {
      Shaped() && Fields() == StateOf(geom.Size(), log)
    }

    constructor (g: Geometry)
      requires g.Accepted()
      ensures Valid() && geom == g && log == [] && fresh(bufs)
    {
      var size := g.Size();
      var fill := new byte[size](_ => 0);
      var deliver := new byte[size](_ => 0);
      geom, fillBuf, deliverBuf, bufs := g, fill, deliver, {fill, deliver};
      lastSeq, lastTs, hasPrev := 0, 0, false;
      frameIncomplete, frameDelivered, frameNumber := false, false, 0;
      deliveredIncomplete, deliveredTs := false, 0;
      log := [];
      new;
      assert fillBuf[..] == Zeros(size) && deliverBuf[..] == Zeros(size);
    }

    /** Swaps the buffers, hands the filled one over and blackens the other. */
    method DeliverFrame(fmt: PixelFormat, ts: u32) returns (f: Frame)
      requires Shaped()
      modifies this, deliverBuf
      ensures Shaped() && fillBuf == old(deliverBuf) && deliverBuf == old(fillBuf) && log == old(log)
      ensures f == Handed(geom, fmt, old(Fields()), ts)
      ensures Fields() == AfterHanding(old(Fields()), ts)
      ensures 0 <= ts * 1_000_000_000 - 90_000 * f.timestampNs < 90_000
    {
      NsOfTicks(ts);
      fillBuf, deliverBuf := deliverBuf, fillBuf;
      f := Frame(deliverBuf[..], geom.Stride(), geom.width, geom.height, fmt, TimestampNs(ts),
                 frameNumber, frameIncomplete);
      frameNumber := Inc32(frameNumber);
      deliveredIncomplete := frameIncomplete;
      deliveredTs := ts;
      FillZeros(fillBuf);
      frameIncomplete := false;
    }

    /** The payload walk, with its skips and its early exit. */
    method CopySegments(pkt: seq<byte>, hs: seq<SegmentHeader>, start: nat)
      requires Shaped()
      modifies fillBuf
      ensures fillBuf[..] == Apply(old(fillBuf[..]), Landed(geom, pkt, hs, start, |hs|))
    {
      hide Put, Times;
      var p := start;
      ghost var was := fillBuf[..];
      for i := 0 to |hs|
        invariant p == PayloadStart(hs, start, i)
        invariant fillBuf[..] == Apply(was, Landed(geom, pkt, hs, start, i))
      {
        var h := hs[i];
        if h.line >= geom.height {
          p := p + h.length;
          continue;
        }
        if p + h.length > |pkt| {
          NothingLandsPastTheEnd(geom, pkt, hs, start, i, |hs|);
          break;
        }
        var at := Target(geom, h.line, h.offset);
        if at + h.length > geom.Size() {
          p := p + h.length;
          continue;
        }
        CopyBytes(fillBuf, at, pkt, p, h.length);
        ApplySnoc(was, Landed(geom, pkt, hs, start, i), Write(at, pkt[p..p + h.length]));
        p := p + h.length;
      }
    }

    /** Any sequence number but the next one marks the frame and counts as a loss. */
    method NoteGap(seqNo: u16) returns (lost: nat)
      modifies this`frameIncomplete
      ensures Fields() == old(Fields()).(incomplete := old(frameIncomplete || GapBefore(Fields(), seqNo)))
      ensures lost == LostBy(old(Fields()), seqNo)
    {
      lost := 0;
      if hasPrev {
        var expected := Succ16(lastSeq);
        if seqNo != expected {
          lost := Diff16(seqNo, expected);
          frameIncomplete := true;
        }
      }
    }

    /** A new timestamp hands over the old frame, unless that was done or the packet has a marker. */
    method CloseOldFrame(h: RtpHeader, fmt: PixelFormat) returns (frames: seq<Frame>)
      requires Shaped()
      modifies this, deliverBuf
      ensures Shaped() && log == old(log)
      ensures Fields() == (if old(FlushedBy(Fields(), h.ts, h.marker))
                           then AfterHanding(old(Fields()).(incomplete := true), old(lastTs)) else old(Fields()))
                          .(marked := old(frameDelivered && !NewTimestamp(Fields(), h.ts)))
      ensures frames == if FlushedBy(old(Fields()), h.ts, h.marker)
                        then [Handed(geom, fmt, old(Fields()).(incomplete := true), old(lastTs))] else []
      ensures frames == [] ==> deliverBuf == old(deliverBuf)
    {
      frames := [];
      if hasPrev && h.ts != lastTs {
        if !frameDelivered && !h.marker {
          frameIncomplete := true;
          var f := DeliverFrame(fmt, lastTs);
          frames := [f];
        }
        frameDelivered := false;
      }
    }

    /** Gap detection, the flush on a new timestamp and the new last packet. */
    method BeginPacket(h: RtpHeader, fmt: PixelFormat) returns (frames: seq<Frame>, lost: nat)
      requires Shaped()
      modifies this, deliverBuf
      ensures Shaped() && log == old(log)
      ensures Fields() == Begun(old(Fields()), h.seqNo, h.ts, h.marker)
      ensures lost == LostBy(old(Fields()), h.seqNo)
      ensures frames == if FlushedBy(old(Fields()), h.ts, h.marker)
                        then [Handed(geom, fmt, old(Fields()).(incomplete := true), old(lastTs))] else []
      ensures frames == [] ==> deliverBuf == old(deliverBuf)
    {
      lost := NoteGap(h.seqNo);
      frames := CloseOldFrame(h, fmt);
      lastSeq, lastTs, hasPrev := h.seqNo, h.ts, true;
    }

    /** All headers of the packet, then all its payloads. */
    method PlaceSegments(pkt: seq<byte>, h: RtpHeader, ghost p: Packet)
      requires Shaped() && ParseRtpHeader(pkt) == Some(h) && Decode(geom, pkt) == Some(p)
      modifies fillBuf
      ensures Fields() == old(Fields()).(fill := Apply(old(fillBuf[..]), p.writes))
    {
      hide Times, Put, Apply;
      var hs, q := ParseSegmentHeaders(pkt, h.length + 2);
      CopySegments(pkt, hs, q);
    }

    /** An accepted datagram with RTP header `h`. */
    method Advance(pkt: seq<byte>, h: RtpHeader, fmt: PixelFormat, ghost p: Packet)
      returns (frames: seq<Frame>, lost: nat)
      requires Shaped() && ParseRtpHeader(pkt) == Some(h) && Decode(geom, pkt) == Some(p)
      modifies this, bufs
      ensures Shaped() && log == old(log)
      ensures Fields() == Next(old(Fields()), p)
      ensures lost == LostBy(old(Fields()), p.seqNo)
      ensures frames == NextFrames(geom, fmt, old(Fields()), p)
      ensures frames == [] ==> deliverBuf == old(deliverBuf) && deliverBuf[..] == old(deliverBuf[..])
      ensures frames != [] ==> deliverBuf[..] == frames[0].data && deliveredIncomplete == frames[0].incomplete
    {
      frames, lost := BeginPacket(h, fmt);
      PlaceSegments(pkt, h, p);
      if h.marker {
        var f := DeliverFrame(fmt, h.ts);
        frameDelivered := true;
        frames := frames + [f];
      }
    }

    /** One datagram. `completed` counts the frames handed to the callback. */
    method ProcessPacket(pkt: seq<byte>, fmt: PixelFormat)
      returns (completed: nat, frames: seq<Frame>, lost: nat)
      requires Valid()
      modifies this, bufs
      ensures Valid()
      ensures match Decode(geom, pkt)
              case None => log == old(log) && frames == [] && lost == 0
              case Some(p) => log == old(log) + [p] && lost == LostBefore(log) &&
                              frames == FramesOf(geom, fmt, DeliveredBy(log), |Deliveries(old(log))|)
      ensures completed == |frames| <= 1
      // what was handed over last stays in place until the next frame
      ensures frames == [] ==> deliverBuf == old(deliverBuf) && deliverBuf[..] == old(deliverBuf[..])
      ensures frames != [] ==> deliverBuf[..] == frames[0].data && deliveredIncomplete == frames[0].incomplete
    {
      completed, frames, lost := 0, [], 0;
      var header := ParseRtpHeader(pkt);
      if header.None? {
        return;
      }
      var h := header.value;
      if |pkt| - h.length < 2 {
        return;
      }
      ghost var p := Decode(geom, pkt).value;
      NextExtendsLog(geom, fmt, log, p);
      frames, lost := Advance(pkt, h, fmt, p);
      completed := |frames|;
      log := log + [p];
    }
  }

  /** The bytes per group that initialisation derives from the wire format. */
  function GroupBytes(fmt: PixelFormat): Option<nat> {
    match fmt
    case Ycbcr422_10bit => Some(5)
    case Uyvy => Some(4)
    case _ => None
  }

  /** Bytes per line: two a pixel in eight bits, two and a half in ten. */
  ghost predicate StridesOf(g: Geometry, fmt: PixelFormat) {
    g.Stride() == (if fmt == Uyvy then g.width * 2 else g.width / 2 * 5) && g.Size() == g.height * g.Stride()
  }

  lemma StridesFit(g: Geometry, fmt: PixelFormat)
    requires g.width % 2 == 0 && g.pgroup == if fmt == Uyvy then 4 else 5
    ensures StridesOf(g, fmt)
  {
    TimesIsProduct(g.width / 2, g.pgroup);
    TimesIsProduct(g.height, g.Stride());
  }

  /** `haveMemory` is the outcome of the two buffer allocations; null stands for the error code. */
  method InitAssembler(width: u32, height: u32, fmt: PixelFormat, haveMemory: bool) returns (a: Assembler?)
    ensures a == null <==> width == 0 || height == 0 || width % 2 != 0 || width > 8192 || height > 4320 ||
                           fmt in {P010, V210} || !haveMemory
    ensures a != null ==> fresh(a) && fresh(a.bufs) && a.Valid() && a.log == [] &&
                          GroupBytes(fmt) == Some(a.geom.pgroup) && a.geom == Geometry(width, height, a.geom.pgroup)
    ensures a != null ==> a.geom.pgroup == (if fmt == Uyvy then 4 else 5) && a.geom.Size() == height * a.geom.Stride()
    ensures a != null ==> a.geom.Stride() == if fmt == Uyvy then width * 2 else width / 2 * 5
  {
    if width == 0 || height == 0 || width % 2 != 0 {
      return null;
    }
    if width > 8192 || height > 4320 {
      return null;
    }
    var pgroup := GroupBytes(fmt);
    if pgroup.None? || !haveMemory {
      return null;
    }
    a := new Assembler(Geometry(width, height, pgroup.value));
    StridesFit(a.geom, fmt);
  }
}
