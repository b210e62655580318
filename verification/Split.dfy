/** Frames of any accepted size and format, split in any way into packets of section 4.2 of
    RFC 4175, on their way to the receiver's deliveries. */
module Split {
  import opened Bytes
  import opened Overlay
  import opened Wire
  import opened Stream
  import opened OneFrame
  import opened RoundTrip
  import opened Sender
  import opened Reception

  /** The high half of a packet's number, which section 4.2 of RFC 4175 puts in front of the payload. */
  function ExtendedHalf(n: nat): u16 {
    n / 0x1_0000 % 0x1_0000
  }

  lemma HalvesAreTheNumber(n: nat)
    ensures 0x1_0000 * ExtendedHalf(n) as int + SeqNumber(n) == n % 0x1_0000_0000
  {
    assert n == 0x1_0000 * (n / 0x1_0000) + n % 0x1_0000;
    assert n / 0x1_0000 == 0x1_0000 * (n / 0x1_0000 / 0x1_0000) + n / 0x1_0000 % 0x1_0000;
  }

  /** A chunk of the sender in the packet layout of section 4.2 of RFC 4175, as packet `n`. */
  ghost function RfcPacket(c: Chunk, n: nat, ts: u32, ssrc: u32): seq<byte>
    requires c.line < 0x8000 && c.offset < 0x8000 && |c.data| < 0x1_0000
  {
    Datagram(SenderRtp(SeqNumber(n), ts, ssrc, c.last), ExtendedHalf(n), [Segment(c.line, c.offset, false, c.data)], [])
  }

  ghost predicate Encodable(cs: seq<Chunk>) {
    forall i :: 0 <= i < |cs| ==> cs[i].line < 0x8000 && cs[i].offset < 0x8000 && |cs[i].data| < 0x1_0000
  }

  /** The packets of a frame, numbered from `first` on. */
  ghost function RfcPackets(cs: seq<Chunk>, first: nat, ts: u32, ssrc: u32): (ds: seq<seq<byte>>)
    requires Encodable(cs)
    ensures |ds| == |cs|
    ensures forall i: nat :: i < |ds| ==> ds[i] == RfcPacket(cs[i], first + i, ts, ssrc)
  {
    if cs == [] then
      []
    else
      RfcPackets(Front(cs), first, ts, ssrc) +
      [RfcPacket(Last(cs), first + |cs| - 1, ts, ssrc)]
  }

  /** The copy a chunk asks for. */
  ghost function WriteOf(g: Geometry, c: Chunk): Write {
    Write(Target(g, c.line, c.offset), c.data)
  }

  ghost function PacketOf(c: Chunk, seqNo: u16, ts: u32, g: Geometry): Packet {
    Packet(seqNo, ts, c.last, [WriteOf(g, c)])
  }

  ghost function PacketsOf(cs: seq<Chunk>, first: nat, ts: u32, g: Geometry): (ps: seq<Packet>)
    ensures |ps| == |cs|
    ensures forall i: nat :: i < |ps| ==> ps[i] == PacketOf(cs[i], SeqNumber(first + i), ts, g)
  {
    if cs == [] then
      []
    else
      PacketsOf(Front(cs), first, ts, g) + [PacketOf(Last(cs), SeqNumber(first + |cs| - 1), ts, g)]
  }

  /** The chunk is the bytes of the frame at the place it names. */
  ghost predicate PieceOf(g: Geometry, frame: seq<byte>, c: Chunk) {
    c.line < g.height && SliceOf(WriteOf(g, c), frame)
  }

  ghost predicate PieceAt(g: Geometry, cs: seq<Chunk>, j: int) {
    exists c :: c in cs && Covers(WriteOf(g, c), j)
  }

  /** The chunks are pieces of the frame, reach all of it, fit their fields and the numbering,
      and the last one and no other ends the frame. */
  ghost predicate Splits(g: Geometry, frame: seq<byte>, cs: seq<Chunk>) {
    g.Accepted() && |frame| == g.Size() && 0 < |cs| <= 0x1_0000 && Encodable(cs) &&
    (forall c :: c in cs ==> PieceOf(g, frame, c)) &&
    (forall i :: 0 <= i < |cs| ==> (cs[i].last <==> i == |cs| - 1)) &&
    forall j: int :: 0 <= j < |frame| ==> PieceAt(g, cs, j)
  }

  /** Line number, offset, payload, marker and sequence number of every chunk come through. */
  lemma ChunkIsDecoded(g: Geometry, frame: seq<byte>, c: Chunk, n: nat, ts: u32, ssrc: u32)
    requires |frame| == g.Size() && PieceOf(g, frame, c)
    requires c.line < 0x8000 && c.offset < 0x8000 && |c.data| < 0x1_0000
    ensures Decode(g, RfcPacket(c, n, ts, ssrc)) == Some(PacketOf(c, SeqNumber(n), ts, g))
  {
    hide Datagram, Decode;
    var segment := Segment(c.line, c.offset, false, c.data);
    OneSegmentDatagram(g, SenderRtp(SeqNumber(n), ts, ssrc, c.last), ExtendedHalf(n), segment);
  }

  lemma NumbersAdd(first: nat, i: nat)
    ensures (SeqNumber(first) + i) % 0x1_0000 == SeqNumber(first + i)
  {
  }

  lemma PacketsAreNumbered(cs: seq<Chunk>, first: nat, ts: u32, g: Geometry)
    ensures Numbered(PacketsOf(cs, first, ts, g), SeqNumber(first))
  {
    var ps := PacketsOf(cs, first, ts, g);
    forall i: nat | i < |ps|
      ensures ps[i].seqNo == (SeqNumber(first) + i) % 0x1_0000
    {
      NumbersAdd(first, i);
    }
  }

  /** As packets, a split frame is a sent frame of pieces of it, which cover it. */
  lemma PacketsOfSplit(g: Geometry, frame: seq<byte>, cs: seq<Chunk>, first: nat, ts: u32)
    requires Splits(g, frame, cs)
    ensures var full := PacketsOf(cs, first, ts, g);
            SentFrame(full, SeqNumber(first), ts) && AllSlicesOf(AllWrites(full), frame) &&
            forall j: int :: 0 <= j < |frame| ==> Covered(AllWrites(full), j)
  {
    hide SliceOf, AllWrites, Numbered, SeqNumber, Encodable, WriteOf;
    var full := PacketsOf(cs, first, ts, g);
    PacketsAreNumbered(cs, first, ts, g);
    forall w | w in AllWrites(full)
      ensures SliceOf(w, frame)
    {
      WritesOfPackets(full, w);
      var p :| p in full && w in p.writes;
      var i :| 0 <= i < |full| && full[i] == p;
      assert PieceOf(g, frame, cs[i]);
    }
    forall j: int | 0 <= j < |frame|
      ensures Covered(AllWrites(full), j)
    {
      assert PieceAt(g, cs, j);
      var c :| c in cs && Covers(WriteOf(g, c), j);
      var i :| 0 <= i < |cs| && cs[i] == c;
      WritesOfPackets(full, WriteOf(g, c));
      assert full[i] in full && WriteOf(g, c) in full[i].writes;
    }
  }

  /** Every picked datagram is decoded to exactly the packet meant. */
  lemma ArrivalsAreDecoded(
    g: Geometry, frame: seq<byte>, cs: seq<Chunk>, first: nat, ts: u32, ssrc: u32, at: seq<nat>)
    requires Splits(g, frame, cs) && PositionsIn(at, |cs|)
    ensures AllPackets(DecodeAll(g, Pick(RfcPackets(cs, first, ts, ssrc), at)),
                       Pick(PacketsOf(cs, first, ts, g), at))
  {
    hide Decode, DecodeAll, RfcPacket, PacketOf, PieceOf, PieceAt, SeqNumber;
    var ds, full := RfcPackets(cs, first, ts, ssrc), PacketsOf(cs, first, ts, g);
    forall i | 0 <= i < |at|
      ensures DecodeAll(g, Pick(ds, at))[i] == Some(Pick(full, at)[i])
    {
      DecodeAllAt(g, Pick(ds, at), i);
      var k := at[i];
      assert cs[k] in cs && ds[k] == RfcPacket(cs[k], first + k, ts, ssrc);
      ChunkIsDecoded(g, frame, cs[k], first + k, ts, ssrc);
    }
  }

  // ---------- The frame arrives ----------

  /** Any packets of a frame reach a receiver that has seen any datagrams whatever: some lost,
      repeated or reordered, with the last one or without it. What is delivered and what stays
      pending is the stated outcome; the bytes are the sent frame under the segments that
      arrived. After the marker with the preceding number, or after nothing, losses alone give
      one frame, flagged exactly when a packet is missing. */
  lemma FrameWithLosses(
    g: Geometry, frame: seq<byte>, cs: seq<Chunk>, first: nat, ts: u32, ssrc: u32,
    before: seq<seq<byte>>, at: seq<nat>)
    requires Splits(g, frame, cs) && Arrivals(at, |cs|)
    ensures var log, got := Accepted(g, before), Pick(PacketsOf(cs, first, ts, g), at);
            Accepted(g, before + Pick(RfcPackets(cs, first, ts, ssrc), at)) == log + got &&
            Outcome(log, got, ts, at, |cs|) &&
            PaintedOver(Image(|frame|, HeldOver(log, got[0]) + got), Image(|frame|, HeldOver(log, got[0])),
                        frame, AllWrites(got)) &&
            (KeepsMarker(at, |cs|) && Follows(log, SeqNumber(first)) ==>
               Deliveries(log + got) ==
                 Deliveries(log) + [Delivery(got, ts, |cs| - |at| - FirstExpected(log, at) != 0)] &&
               PartOf(Image(|frame|, got), frame, AllWrites(got)))
  {
    hide Splits, Deliveries, Broken, Outcome, PaintedOver, PartOf, AllSlicesOf, AllWrites, Pending, Follows, HeldOver;
    var log, full := Accepted(g, before), PacketsOf(cs, first, ts, g);
    assert Encodable(cs) by {
      SplitIsEncodable(g, frame, cs);
    }
    PacketsOfSplit(g, frame, cs, first, ts);
    ArrivalsAreDecoded(g, frame, cs, first, ts, ssrc, at);
    AcceptedConcat(g, before, Pick(RfcPackets(cs, first, ts, ssrc), at), Pick(full, at));
    FrameAfterAnything(log, full, at, SeqNumber(first), ts);
    PartArrives(HeldOver(log, full[at[0]]), full, at, frame);
    if KeepsMarker(at, |cs|) && Follows(log, SeqNumber(first)) {
      LossesAlone(log, full, at, SeqNumber(first), ts, frame);
    }
  }

  lemma SplitIsEncodable(g: Geometry, frame: seq<byte>, cs: seq<Chunk>)
    requires Splits(g, frame, cs)
    ensures Encodable(cs) && cs != [] && Last(cs).last
  {
  }

  /** All positions below `n`. */
  ghost function Everything(n: nat): (keep: seq<nat>)
    ensures |keep| == n && forall i :: 0 <= i < n ==> keep[i] == i
  {
    if n == 0 then [] else Everything(n - 1) + [n - 1]
  }

  lemma PickEverything<T>(s: seq<T>)
    ensures Pick(s, Everything(|s|)) == s
  {
  }

  lemma EverythingKept(log: Log, n: nat)
    requires n > 0
    ensures KeepsMarker(Everything(n), n) && FirstExpected(log, Everything(n)) == 0
  {
  }

  lemma PiecesAreTheFrame(frame: seq<byte>, ps: seq<Packet>)
    requires AllSlicesOf(AllWrites(ps), frame) && forall j: int :: 0 <= j < |frame| ==> Covered(AllWrites(ps), j)
    ensures Image(|frame|, ps) == frame
  {
    SlicesRebuildImage(Zeros(|frame|), AllWrites(ps), frame);
  }

  lemma NextCanFollow(log: Log, cs: seq<Chunk>, first: nat, ts: u32, g: Geometry)
    requires cs != [] && Last(cs).last
    ensures Follows(log + PacketsOf(cs, first, ts, g), SeqNumber(first + |cs|))
  {
    var ps, n := PacketsOf(cs, first, ts, g), first + |cs| - 1;
    assert Last(log + ps) == ps[|cs| - 1] == PacketOf(Last(cs), SeqNumber(n), ts, g);
    assert Succ16(SeqNumber(n)) == SeqNumber(n + 1);
  }

  /** Without losses the delivered frame is the sent one, and it is not flagged. */
  lemma FrameWithoutLosses(
    g: Geometry, frame: seq<byte>, cs: seq<Chunk>, first: nat, ts: u32, ssrc: u32, before: seq<seq<byte>>)
    requires Splits(g, frame, cs) && Follows(Accepted(g, before), SeqNumber(first))
    ensures var log, full := Accepted(g, before), PacketsOf(cs, first, ts, g);
            Deliveries(Accepted(g, before + RfcPackets(cs, first, ts, ssrc))) ==
            Deliveries(log) + [Delivery(full, ts, false)] && Image(|frame|, full) == frame &&
            Follows(Accepted(g, before + RfcPackets(cs, first, ts, ssrc)), SeqNumber(first + |cs|))
  {
    hide Splits, Accepted, Deliveries, AllWrites, AllSlicesOf, Covered, Image, PartOf, Pick, PacketsOf, RfcPackets;
    hide Follows, Outcome, PaintedOver, HeldOver, Settled, Broken;
    SplitIsEncodable(g, frame, cs);
    NextCanFollow(Accepted(g, before), cs, first, ts, g);
    EverythingKept(Accepted(g, before), |cs|);
    PickEverything(RfcPackets(cs, first, ts, ssrc));
    PickEverything(PacketsOf(cs, first, ts, g));
    KeptPacketsArrive(Everything(|cs|), |cs|);
    FrameWithLosses(g, frame, cs, first, ts, ssrc, before, Everything(|cs|));
    PacketsOfSplit(g, frame, cs, first, ts);
    PiecesAreTheFrame(frame, PacketsOf(cs, first, ts, g));
  }

  // ---------- Splitting at groups ----------

  /** Groups `from..to` of a line are inside the frame. */
  lemma GroupsFit(g: Geometry, line: nat, from: nat, to: nat)
    requires line < g.height && from <= to <= g.width / 2
    ensures Times(from, g.pgroup) <= Times(to, g.pgroup) <= g.Stride()
    ensures Times(line, g.Stride()) + g.Stride() == Times(line + 1, g.Stride()) <= g.Size()
  {
    TimesMonotone(from, to, g.pgroup);
    TimesMonotone(to, g.width / 2, g.pgroup);
    TimesMonotone(line + 1, g.height, g.Stride());
  }

  /** The chunk of groups `from..to` of a line. */
  ghost function GroupChunk(g: Geometry, frame: seq<byte>, line: nat, from: nat, to: nat): Chunk
    requires g.Accepted() && |frame| == g.Size() && line < g.height && from < to <= g.width / 2
  {
    GroupsFit(g, line, from, to);
    var at := Times(line, g.Stride());
    Chunk(line, 2 * from, to < g.width / 2, line + 1 == g.height && to == g.width / 2,
          frame[at + Times(from, g.pgroup)..at + Times(to, g.pgroup)])
  }

  /** Where a chunk of at most `m` groups ends. */
  function GroupEnd(g: Geometry, m: nat, from: nat): nat {
    if from + m < g.width / 2 then from + m else g.width / 2
  }

  /** A line from group `from` on, `m` groups a packet. */
  ghost function LineSplit(g: Geometry, frame: seq<byte>, line: nat, m: nat, from: nat): seq<Chunk>
    requires g.Accepted() && |frame| == g.Size() && line < g.height && m > 0
    decreases g.width / 2 - from
  {
    if from >= g.width / 2 then
      []
    else
      [GroupChunk(g, frame, line, from, GroupEnd(g, m, from))] +
      LineSplit(g, frame, line, m, GroupEnd(g, m, from))
  }

  /** The frame from line `line` on. */
  ghost function GroupSplit(g: Geometry, frame: seq<byte>, m: nat, line: nat): seq<Chunk>
    requires g.Accepted() && |frame| == g.Size() && line <= g.height && m > 0
    decreases g.height - line
  {
    if line == g.height then [] else LineSplit(g, frame, line, m, 0) + GroupSplit(g, frame, m, line + 1)
  }

  /** A piece of the frame that fits its packet. */
  ghost predicate GoodPiece(g: Geometry, frame: seq<byte>, c: Chunk) {
    PieceOf(g, frame, c) && c.line < 0x8000 && c.offset < 0x8000 && |c.data| < 0x1_0000
  }

  /** The chunks reach bytes `from..to` of the frame. */
  ghost predicate PiecesReach(g: Geometry, cs: seq<Chunk>, from: nat, to: nat) {
    forall j: int :: from <= j < to ==> PieceAt(g, cs, j)
  }

  lemma PiecesJoin(g: Geometry, a: seq<Chunk>, b: seq<Chunk>, from: nat, mid: nat, to: nat)
    requires PiecesReach(g, a, from, mid) && PiecesReach(g, b, mid, to)
    ensures PiecesReach(g, a + b, from, to)
  {
    forall j: int | from <= j < to
      ensures PieceAt(g, a + b, j)
    {
      if j < mid {
        assert PieceAt(g, a, j);
        var c :| c in a && Covers(WriteOf(g, c), j);
        assert c in a + b;
      } else {
        assert PieceAt(g, b, j);
        var c :| c in b && Covers(WriteOf(g, c), j);
        assert c in a + b;
      }
    }
  }

  lemma OneGroupChunk(g: Geometry, frame: seq<byte>, line: nat, from: nat, to: nat)
    requires g.Accepted() && |frame| == g.Size() && line < g.height && from < to <= g.width / 2
    ensures var c := GroupChunk(g, frame, line, from, to);
            GoodPiece(g, frame, c) &&
            PiecesReach(g, [c], Times(line, g.Stride()) + Times(from, g.pgroup),
                        Times(line, g.Stride()) + Times(to, g.pgroup))
  {
    var c := GroupChunk(g, frame, line, from, to);
    GroupsFit(g, line, from, to);
    StrideBelow(g);
    assert 2 * from / 2 == from;
    assert WriteOf(g, c).at == Times(line, g.Stride()) + Times(from, g.pgroup);
    forall j: int | Times(line, g.Stride()) + Times(from, g.pgroup) <= j < Times(line, g.Stride()) + Times(to, g.pgroup)
      ensures PieceAt(g, [c], j)
    {
      assert c in [c] && Covers(WriteOf(g, c), j);
    }
  }

  lemma StrideBelow(g: Geometry)
    requires g.Accepted()
    ensures g.Stride() <= 20480
  {
    TimesIsProduct(g.width / 2, g.pgroup);
  }

  /** A line in whole groups: good pieces that reach all of it, the last one and no other ends
      the frame, and only on the last line. */
  lemma {:induction false} LineSplits(g: Geometry, frame: seq<byte>, line: nat, m: nat, from: nat)
    requires g.Accepted() && |frame| == g.Size() && line < g.height && m > 0 && from <= g.width / 2
    ensures var cs := LineSplit(g, frame, line, m, from);
            (forall c :: c in cs ==> GoodPiece(g, frame, c)) && (cs == [] <==> from == g.width / 2) &&
            PiecesReach(g, cs, Times(line, g.Stride()) + Times(from, g.pgroup), Times(line + 1, g.Stride())) &&
            forall i :: 0 <= i < |cs| ==> (cs[i].last <==> line + 1 == g.height && i == |cs| - 1)
    decreases g.width / 2 - from
  {
    hide GoodPiece;
    GroupsFit(g, line, from, g.width / 2);
    if from == g.width / 2 {
    } else {
      var to, at := GroupEnd(g, m, from), Times(line, g.Stride());
      var c, rest := GroupChunk(g, frame, line, from, to), LineSplit(g, frame, line, m, to);
      OneGroupChunk(g, frame, line, from, to);
      LineSplits(g, frame, line, m, to);
      PiecesJoin(g, [c], rest, at + Times(from, g.pgroup), at + Times(to, g.pgroup), Times(line + 1, g.Stride()));
    }
  }

  lemma {:induction false} GroupsReach(g: Geometry, frame: seq<byte>, m: nat, line: nat)
    requires g.Accepted() && |frame| == g.Size() && line <= g.height && m > 0
    ensures var cs := GroupSplit(g, frame, m, line);
            (forall c :: c in cs ==> GoodPiece(g, frame, c)) && (line < g.height ==> cs != []) &&
            PiecesReach(g, cs, Times(line, g.Stride()), |frame|) &&
            forall i :: 0 <= i < |cs| ==> (cs[i].last <==> i == |cs| - 1)
    decreases g.height - line
  {
    hide GoodPiece, LineSplit;
    if line == g.height {
    } else {
      LineSplits(g, frame, line, m, 0);
      GroupsReach(g, frame, m, line + 1);
      PiecesJoin(g, LineSplit(g, frame, line, m, 0), GroupSplit(g, frame, m, line + 1),
                 Times(line, g.Stride()), Times(line + 1, g.Stride()), |frame|);
    }
  }

  lemma {:induction false} LineSplitCount(g: Geometry, frame: seq<byte>, line: nat, m: nat, from: nat, k: nat)
    requires g.Accepted() && |frame| == g.Size() && line < g.height && m > 0 && g.width / 2 - from <= Times(k, m)
    ensures |LineSplit(g, frame, line, m, from)| <= k
    decreases g.width / 2 - from
  {
    if from >= g.width / 2 {
    } else {
      assert k > 0;
      LineSplitCount(g, frame, line, m, GroupEnd(g, m, from), k - 1);
    }
  }

  lemma {:induction false} GroupSplitCount(g: Geometry, frame: seq<byte>, m: nat, line: nat, k: nat)
    requires g.Accepted() && |frame| == g.Size() && line <= g.height && m > 0 && g.width / 2 <= Times(k, m)
    ensures |GroupSplit(g, frame, m, line)| <= Times(g.height - line, k)
    decreases g.height - line
  {
    if line == g.height {
    } else {
      LineSplitCount(g, frame, line, m, 0, k);
      GroupSplitCount(g, frame, m, line + 1, k);
    }
  }

  /** A frame of any accepted size and format, cut into whole groups, at least 274 of them a
      packet (1096 bytes in eight bits), is split. */
  lemma GroupSplitSplits(g: Geometry, frame: seq<byte>, m: nat)
    requires g.Accepted() && |frame| == g.Size() && m >= 274
    ensures Splits(g, frame, GroupSplit(g, frame, m, 0))
  {
    hide GroupSplit, PieceOf, PieceAt;
    var cs := GroupSplit(g, frame, m, 0);
    GroupsReach(g, frame, m, 0);
    TimesIsProduct(15, m);
    GroupSplitCount(g, frame, m, 0, 15);
    TimesMonotone(g.height, 4320, 15);
    TimesIsProduct(4320, 15);
    assert Encodable(cs) by {
      forall i | 0 <= i < |cs|
        ensures cs[i].line < 0x8000 && cs[i].offset < 0x8000 && |cs[i].data| < 0x1_0000
      {
        assert GoodPiece(g, frame, cs[i]);
      }
    }
    forall c | c in cs
      ensures PieceOf(g, frame, c)
    {
      assert GoodPiece(g, frame, c);
    }
  }
}
