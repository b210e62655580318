/** Eight-bit streams from the sender's bytes to the receiver's user, who gets them unconverted. */
module EightBit {
  import opened Bytes
  import opened Wire
  import opened Stream
  import opened OneFrame
  import opened Sender
  import opened Assembler
  import opened Reception
  import opened Split
  import Receiver

  /** What the user of an eight-bit receiver has been handed. */
  ghost function Passed(g: Geometry, datagrams: seq<seq<byte>>): seq<Frame>
    requires FormatFits(g, Uyvy)
  {
    Seen(g, Uyvy, Uyvy, datagrams)
  }

  /** The user's `n`-th frame is exactly these bytes. */
  ghost predicate Carries(u: Frame, g: Geometry, frame: seq<byte>, ts: u32, n: nat) {
    u.data == frame && |frame| == u.height * u.linesize && u.linesize == 2 * g.width && !u.incomplete &&
    u.format == Uyvy && u.width == g.width && u.height == g.height && ClockReads(u.timestampNs, ts) &&
    u.number == n % 0x1_0000_0000
  }

  lemma EightBitSizes(g: Geometry)
    requires FormatFits(g, Uyvy)
    ensures g.pgroup == 4 && g.Stride() == 2 * g.width && g.Size() == g.height * g.Stride()
  {
    StridesFit(g, Uyvy);
  }

  lemma WholeFrameCarries(g: Geometry, frame: seq<byte>, d: Delivery, n: nat)
    requires FormatFits(g, Uyvy) && Image(g.Size(), d.packets) == frame && !d.incomplete
    ensures Carries(UserFrameOf(g, Uyvy, Uyvy, d, n), g, frame, d.ts, n)
  {
    EightBitSizes(g);
    NsOfTicks(d.ts);
    Count32IsModulo(n);
  }

  /** For every accepted size and every frame in four-byte groups, however it is split into
      packets of section 4.2 of RFC 4175 with consecutive numbers, one timestamp and the marker
      on the last: after any stream that ended with the marker numbered before, or nothing, the
      user of an eight-bit receiver is handed exactly the sent bytes, once and unflagged. */
  lemma EightBitImageArrives(
    g: Geometry, frame: seq<byte>, cs: seq<Chunk>, first: nat, ts: u32, ssrc: u32, before: seq<seq<byte>>)
    requires FormatFits(g, Uyvy) && Splits(g, frame, cs) && Follows(Accepted(g, before), SeqNumber(first))
    ensures var ds := RfcPackets(cs, first, ts, ssrc);
            var was, now := Passed(g, before), Passed(g, before + ds);
            now != [] && Front(now) == was && Carries(Last(now), g, frame, ts, |was|) &&
            Follows(Accepted(g, before + ds), SeqNumber(first + |ds|))
  {
    hide Splits, Accepted, Deliveries, RfcPackets, PacketsOf, UserFrameOf, Carries, Image, Follows;
    assert |frame| == g.Size() by {
      SplitSize(g, frame, cs);
    }
    SplitIsEncodable(g, frame, cs);
    FrameWithoutLosses(g, frame, cs, first, ts, ssrc, before);
    var log, d := Accepted(g, before), Delivery(PacketsOf(cs, first, ts, g), ts, false);
    UserFramesSnoc(g, Uyvy, Uyvy, Deliveries(log), d);
    WholeFrameCarries(g, frame, d, |Deliveries(log)|);
  }

  lemma SplitSize(g: Geometry, frame: seq<byte>, cs: seq<Chunk>)
    requires Splits(g, frame, cs)
    ensures |frame| == g.Size()
  {
  }

  /** The same for the receiver object: the frame it lends is the sent one. */
  lemma ReceiverPassesEightBit(
    r: Receiver.Receiver, frame: seq<byte>, cs: seq<Chunk>, first: nat, ts: u32, ssrc: u32, before: seq<seq<byte>>)
    requires r.Valid() && r.inputFmt == Uyvy && r.wanted == Uyvy && Splits(r.geom, frame, cs)
    requires Follows(Accepted(r.geom, before), SeqNumber(first))
    requires r.datagrams == before + RfcPackets(cs, first, ts, ssrc)
    ensures r.handed != [] && Front(r.handed) == Passed(r.geom, before)
    ensures Carries(Last(r.handed), r.geom, frame, ts, |r.handed| - 1) && r.assembler.deliverBuf[..] == frame
  {
    hide Splits, Accepted, Deliveries, UserFrames, RfcPackets, Follows, TotalLost, StateOf;
    EightBitImageArrives(r.geom, frame, cs, first, ts, ssrc, before);
    assert r.handed == Passed(r.geom, r.datagrams);
  }
}
