/** From an image at the sender to the same image at the receiver's user. */
module EndToEnd {
  import opened Bytes
  import opened Overlay
  import opened Wire
  import opened Stream
  import opened OneFrame
  import opened Convert
  import opened Sender
  import opened Assembler
  import opened Reception
  import opened Split
  import Receiver

  // ---------- The sender's plan ----------

  /** A frame of `g`, split for packets of at most `maxSeg` bytes. */
  ghost predicate FrameFor(g: Geometry, frame: seq<byte>, maxSeg: nat) {
    g.Accepted() && g.pgroup == 5 && |frame| == g.Size() && 0 < maxSeg < 0x1_0000 && maxSeg % 5 == 0
  }

  lemma FrameForIsSplittable(g: Geometry, frame: seq<byte>, maxSeg: nat)
    requires FrameFor(g, frame, maxSeg)
    ensures g.Stride() == 5 * (g.width / 2) && Splittable(frame, g.Stride(), g.height, maxSeg)
  {
    PackedFrameSize(g);
  }

  lemma ChunkTarget(g: Geometry, c: Chunk)
    requires g.pgroup == 5
    ensures Target(g, c.line, c.offset) == Times(c.line, g.Stride()) + StartOf(c)
  {
    TimesIsProduct(c.offset / 2, 5);
  }

  ghost function FramePlan(g: Geometry, frame: seq<byte>, maxSeg: nat): seq<Chunk>
    requires FrameFor(g, frame, maxSeg)
  {
    Plan(frame, g.Stride(), g.height, maxSeg, 0)
  }

  lemma PlacedIsEncodable(g: Geometry, frame: seq<byte>, maxSeg: nat, c: Chunk)
    requires FrameFor(g, frame, maxSeg) && Placed(c, frame, g.Stride(), g.height, maxSeg)
    ensures c.line < 0x8000 && c.offset < 0x8000 && |c.data| < 0x1_0000
  {
    FrameForIsSplittable(g, frame, maxSeg);
  }

  lemma PlanOfFrame(g: Geometry, frame: seq<byte>, maxSeg: nat)
    requires FrameFor(g, frame, maxSeg)
    ensures var cs := FramePlan(g, frame, maxSeg);
            cs != [] && Encodable(cs) && ReachAll(cs, g.Stride(), 0, |frame|) &&
            (forall c :: c in cs ==> Placed(c, frame, g.Stride(), g.height, maxSeg)) &&
            forall i :: 0 <= i < |cs| ==> (cs[i].last <==> i == |cs| - 1)
  {
    FrameForIsSplittable(g, frame, maxSeg);
    PlanCoversFrame(frame, g.Stride(), g.height, maxSeg, 0);
    PlanEndsOnce(frame, g.Stride(), g.height, maxSeg, 0);
    forall c | c in FramePlan(g, frame, maxSeg)
      ensures c.line < 0x8000 && c.offset < 0x8000 && |c.data| < 0x1_0000
    {
      PlacedIsEncodable(g, frame, maxSeg, c);
    }
  }

  /** At the packet sizes the sender knows, a frame never needs more than 2^16 packets. */
  lemma PacketsPerFrame(g: Geometry, frame: seq<byte>, mtu: nat)
    requires mtu in {1500, 9000} && FrameFor(g, frame, MaxSegment(mtu))
    ensures |FramePlan(g, frame, MaxSegment(mtu))| <= 0x1_0000
  {
    var maxSeg := MaxSegment(mtu);
    FrameForIsSplittable(g, frame, maxSeg);
    TimesIsProduct(15, maxSeg);
    PlanCount(frame, g.Stride(), g.height, maxSeg, 0, 15);
    TimesMonotone(g.height, 4320, 15);
    TimesIsProduct(4320, 15);
  }

  lemma ChunkIsPiece(g: Geometry, frame: seq<byte>, maxSeg: nat, c: Chunk)
    requires FrameFor(g, frame, maxSeg) && Placed(c, frame, g.Stride(), g.height, maxSeg)
    ensures PieceOf(g, frame, c)
  {
    ChunkTarget(g, c);
  }

  /** The sender's plan of a frame splits it. */
  lemma PlanSplits(g: Geometry, frame: seq<byte>, maxSeg: nat)
    requires FrameFor(g, frame, maxSeg) && |FramePlan(g, frame, maxSeg)| <= 0x1_0000
    ensures Splits(g, frame, FramePlan(g, frame, maxSeg))
  {
    hide Plan, SliceOf, WriteOf, Placed;
    var cs := FramePlan(g, frame, maxSeg);
    PlanOfFrame(g, frame, maxSeg);
    forall c | c in cs
      ensures PieceOf(g, frame, c)
    {
      ChunkIsPiece(g, frame, maxSeg, c);
    }
    forall j: int | 0 <= j < |frame|
      ensures PieceAt(g, cs, j)
    {
      assert Reached(cs, g.Stride(), j);
      var c :| c in cs && Reaches(c, g.Stride(), j);
      ReachedIsCovered(g, c, j);
    }
  }

  lemma ReachedIsCovered(g: Geometry, c: Chunk, j: int)
    requires g.pgroup == 5 && Reaches(c, g.Stride(), j)
    ensures Covers(WriteOf(g, c), j)
  {
    ChunkTarget(g, c);
  }

  // ---------- Images ----------

  /** An image, its bytes on the wire, and its timestamp. */
  datatype Picture = Picture(img: seq<Group>, frame: seq<byte>, ts: u32)

  ghost predicate Sendable(g: Geometry, p: Picture) {
    FormatFits(g, Ycbcr422_10bit) && IsPacked(p.frame, p.img) && |p.img| == Times(g.height, g.width / 2)
  }

  /** A picture as the sender splits it for either of its packet sizes, in packets of section
      4.2 of RFC 4175 numbered from `first` on. */
  ghost function PicturePackets(g: Geometry, p: Picture, mtu: nat, first: nat, ssrc: u32): seq<seq<byte>>
    requires Sendable(g, p) && mtu in {1500, 9000}
  {
    PackedFrameSize(g);
    PlanOfFrame(g, p.frame, MaxSegment(mtu));
    RfcPackets(FramePlan(g, p.frame, MaxSegment(mtu)), first, p.ts, ssrc)
  }

  /** The user's `n`-th frame is the picture, every sample shifted right by two. */
  ghost predicate Shows(u: Frame, g: Geometry, p: Picture, n: nat) {
    IsUyvy(u.data, p.img) && !u.incomplete && u.format == Uyvy && u.linesize == 2 * g.width &&
    u.width == g.width && u.height == g.height && ClockReads(u.timestampNs, p.ts) && u.number == Count32(n)
  }

  ghost function View(g: Geometry, datagrams: seq<seq<byte>>): seq<Frame>
    requires FormatFits(g, Ycbcr422_10bit)
  {
    Seen(g, Ycbcr422_10bit, Uyvy, datagrams)
  }

  lemma SeenOneMore(g: Geometry, before: seq<seq<byte>>, after: seq<seq<byte>>, d: Delivery)
    requires FormatFits(g, Ycbcr422_10bit)
    requires Deliveries(Accepted(g, after)) == Deliveries(Accepted(g, before)) + [d]
    ensures View(g, after) ==
            View(g, before) + [UserFrameOf(g, Ycbcr422_10bit, Uyvy, d, |View(g, before)|)]
  {
    UserFramesSnoc(g, Ycbcr422_10bit, Uyvy, Deliveries(Accepted(g, before)), d);
  }

  lemma WholeFrameShows(g: Geometry, p: Picture, d: Delivery, n: nat)
    requires Sendable(g, p) && Image(|p.frame|, d.packets) == p.frame && !d.incomplete && d.ts == p.ts
    ensures Shows(UserFrameOf(g, Ycbcr422_10bit, Uyvy, d, n), g, p, n)
  {
    PackedFrameSize(g);
    PackedImageConverts(p.frame, p.img);
    NsOfTicks(p.ts);
  }

  /** End to end. For every image of an accepted size, sent with consecutive numbers modulo
      2^16, one timestamp and the marker on the last packet, and received after any stream
      that ended with the marker numbered before, or after nothing: it is handed to the user
      exactly once, not flagged, as the next frame, and the next picture can follow. */
  lemma ImageArrives(
    g: Geometry, p: Picture, mtu: nat, first: nat, ssrc: u32, before: seq<seq<byte>>)
    requires Sendable(g, p) && mtu in {1500, 9000} && Follows(Accepted(g, before), SeqNumber(first))
    ensures var ds := PicturePackets(g, p, mtu, first, ssrc);
            var was, now := View(g, before), View(g, before + ds);
            now != [] && Front(now) == was && Shows(Last(now), g, p, |was|) &&
            Follows(Accepted(g, before + ds), SeqNumber(first + |ds|))
  {
    hide Accepted, Deliveries, RfcPackets, PacketsOf, UserFrameOf, View, Shows, Image, Follows;
    var maxSeg, log := MaxSegment(mtu), Accepted(g, before);
    PackedFrameSize(g);
    PlanOfFrame(g, p.frame, maxSeg);
    PacketsPerFrame(g, p.frame, mtu);
    PlanSplits(g, p.frame, maxSeg);
    FrameWithoutLosses(g, p.frame, FramePlan(g, p.frame, maxSeg), first, p.ts, ssrc, before);
    var ds := RfcPackets(FramePlan(g, p.frame, maxSeg), first, p.ts, ssrc);
    var full := PacketsOf(FramePlan(g, p.frame, maxSeg), first, p.ts, g);
    SeenOneMore(g, before, before + ds, Delivery(full, p.ts, false));
    WholeFrameShows(g, p, Delivery(full, p.ts, false), |View(g, before)|);
  }

  // ---------- Many images ----------

  ghost predicate AllSendable(g: Geometry, ps: seq<Picture>) {
    forall i :: 0 <= i < |ps| ==> Sendable(g, ps[i])
  }

  /** Pictures back to back, their packets numbered through modulo 2^16. */
  ghost function Broadcast(g: Geometry, ps: seq<Picture>, mtu: nat, first: nat, ssrc: u32): seq<seq<byte>>
    requires AllSendable(g, ps) && mtu in {1500, 9000}
  {
    if ps == [] then
      []
    else
      var earlier := Broadcast(g, Front(ps), mtu, first, ssrc);
      earlier + PicturePackets(g, Last(ps), mtu, first + |earlier|, ssrc)
  }

  /** `now` is `was` and then one frame for each picture, in order. */
  ghost predicate Continued(was: seq<Frame>, now: seq<Frame>, g: Geometry, ps: seq<Picture>) {
    |now| == |was| + |ps| && was == now[..|was|] &&
    forall i :: |was| <= i < |now| ==> Shows(now[i], g, ps[i - |was|], i)
  }

  lemma ContinuedSnoc(was: seq<Frame>, mid: seq<Frame>, now: seq<Frame>, g: Geometry, ps: seq<Picture>)
    requires ps != [] && Continued(was, mid, g, Front(ps))
    requires now != [] && Front(now) == mid && Shows(Last(now), g, Last(ps), |mid|)
    ensures Continued(was, now, g, ps)
  {
    hide Shows;
    forall i | |was| <= i < |now|
      ensures Shows(now[i], g, ps[i - |was|], i)
    {
      if i < |mid| {
        assert now[i] == mid[i];
      }
    }
  }

  /** Any number of pictures, across any number of wraps of the sequence number, arrive each
      once, in order, whole, unflagged and numbered consecutively. */
  lemma {:induction false} BroadcastArrives(
    g: Geometry, ps: seq<Picture>, mtu: nat, first: nat, ssrc: u32, before: seq<seq<byte>>)
    requires FormatFits(g, Ycbcr422_10bit) && AllSendable(g, ps) && mtu in {1500, 9000}
    requires Follows(Accepted(g, before), SeqNumber(first))
    ensures var ds := Broadcast(g, ps, mtu, first, ssrc);
            Continued(View(g, before), View(g, before + ds), g, ps) &&
            Follows(Accepted(g, before + ds), SeqNumber(first + |ds|))
    decreases |ps|
  {
    hide Accepted, View, PicturePackets, Shows, Follows, Sendable;
    if ps == [] {
      assert before + [] == before;
    } else {
      var earlier := Broadcast(g, Front(ps), mtu, first, ssrc);
      var ds := PicturePackets(g, Last(ps), mtu, first + |earlier|, ssrc);
      BroadcastArrives(g, Front(ps), mtu, first, ssrc, before);
      ImageArrives(g, Last(ps), mtu, first + |earlier|, ssrc, before + earlier);
      assert before + (earlier + ds) == (before + earlier) + ds;
      ContinuedSnoc(View(g, before), View(g, before + earlier), View(g, before + earlier + ds), g, ps);
    }
  }

  /** The same for the receiver itself: after any datagrams and then the broadcast, what its
      user was handed is what came of the earlier datagrams and then the pictures, and its
      conversion buffer holds the last of them. */
  lemma ReceiverShowsBroadcast(
    r: Receiver.Receiver, before: seq<seq<byte>>, ps: seq<Picture>, mtu: nat, first: nat, ssrc: u32)
    requires r.Valid() && r.inputFmt == Ycbcr422_10bit && r.wanted == Uyvy
    requires AllSendable(r.geom, ps) && mtu in {1500, 9000} && Follows(Accepted(r.geom, before), SeqNumber(first))
    requires r.datagrams == before + Broadcast(r.geom, ps, mtu, first, ssrc)
    ensures Continued(View(r.geom, before), r.handed, r.geom, ps)
    ensures ps != [] ==> IsUyvy(r.convertBuf[..], Last(ps).img)
  {
    hide Accepted, Deliveries, UserFrames, Broadcast, Follows, AllSendable, TotalLost, StateOf;
    BroadcastArrives(r.geom, ps, mtu, first, ssrc, before);
    assert r.handed == View(r.geom, r.datagrams);
    if ps != [] {
      assert Shows(r.handed[|r.handed| - 1], r.geom, Last(ps), |r.handed| - 1);
    }
  }
}
