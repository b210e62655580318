/** What the user sees of pictures with losses: the groups that came, and zeros. */
module LossyView {
  import opened Bytes
  import opened Overlay
  import opened Wire
  import opened Stream
  import opened OneFrame
  import opened ManyFrames
  import opened Convert
  import opened Sender
  import opened Assembler
  import opened Reception
  import opened EndToEnd
  import opened Split
  import opened LossyBroadcast
  import Receiver

  // ---------- Groups ----------

  /** Only whole five-byte groups are written. */
  ghost predicate Aligned(ws: seq<Write>) {
    forall w :: w in ws ==> w.at % 5 == 0 && |w.data| % 5 == 0
  }

  /** Group `n` of the picture came. */
  ghost predicate GroupCame(ws: seq<Write>, n: nat) {
    Covered(ws, 5 * n)
  }

  /** Group `n` of the user's frame: the picture's samples if it came, otherwise zeros. */
  ghost predicate GroupShown(out: seq<byte>, img: seq<Group>, ws: seq<Write>, n: nat)
    requires |out| == 4 * |img| && n < |img|
  {
    if GroupCame(ws, n) then
      UyvyAt(out, img, n)
    else
      out[4 * n] == 0 && out[4 * n + 1] == 0 && out[4 * n + 2] == 0 && out[4 * n + 3] == 0
  }

  /** The user's `n`-th frame is the part of the picture that came. */
  ghost predicate ShowsPart(u: Frame, g: Geometry, p: Picture, ws: seq<Write>, incomplete: bool, n: nat) {
    |u.data| == 4 * |p.img| && (forall k: nat :: k < |p.img| ==> GroupShown(u.data, p.img, ws, k)) &&
    u.incomplete == incomplete && u.format == Uyvy && u.linesize == 2 * g.width && u.width == g.width &&
    u.height == g.height && ClockReads(u.timestampNs, p.ts) && u.number == n % 0x1_0000_0000
  }

  lemma WriteCoversGroup(w: Write, n: nat, k: nat)
    requires w.at % 5 == 0 && |w.data| % 5 == 0 && k < 5
    ensures Covers(w, 5 * n + k) <==> Covers(w, 5 * n)
  {
  }

  lemma GroupComesWhole(ws: seq<Write>, n: nat, k: nat)
    requires Aligned(ws) && k < 5
    ensures Covered(ws, 5 * n + k) <==> GroupCame(ws, n)
  {
    forall w | w in ws
      ensures Covers(w, 5 * n + k) <==> Covers(w, 5 * n)
    {
      WriteCoversGroup(w, n, k);
    }
  }

  /** Zero bytes are zero samples: as 40-bit numbers both are zero. */
  lemma ZeroGroup(b: seq<byte>)
    requires |b| == 5 && forall k: nat :: k < 5 ==> b[k] == 0
    ensures Convert.Uyvy(Unpack(b)) == [0, 0, 0, 0]
  {
    hide Convert.Uyvy, Pack, Unpack;
    var u := Unpack(b);
    PackInvertsUnpack(b);
    PackIsFortyBits(u);
    assert FortyBits(b[0], b[1], b[2], b[3], b[4]) == 0;
    NoUpperBits(u);
  }

  lemma NoUpperBits(u: Group)
    requires u.cb <= 0 && u.y0 <= 0 && u.cr <= 0 && u.y1 <= 0
    ensures Convert.Uyvy(u) == [0, 0, 0, 0]
  {
    assert Convert.Uyvy(u) == [u.cb / 4, u.y0 / 4, u.cr / 4, u.y1 / 4];
  }

  /** Group `n` of a frame of which only a part came, in ten bits. */
  ghost predicate GroupHeld(got: seq<byte>, img: seq<Group>, ws: seq<Write>, n: nat)
    requires |got| == 5 * |img| && n < |img|
  {
    var b := got[5 * n..5 * n + 5];
    if GroupCame(ws, n) then b == Pack(img[n]) else forall k: nat :: k < 5 ==> b[k] == 0
  }

  lemma PartOfByte(got: seq<byte>, frame: seq<byte>, ws: seq<Write>, n: nat, k: nat)
    requires PartOf(got, frame, ws) && Aligned(ws) && k < 5 && 5 * n + 5 <= |got|
    ensures |got| == |frame|
    ensures got[5 * n..5 * n + 5][k] == if GroupCame(ws, n) then frame[5 * n..5 * n + 5][k] else 0
  {
    hide Covered, Aligned, GroupCame;
    GroupComesWhole(ws, n, k);
    assert got[5 * n + k] == if Covered(ws, 5 * n + k) then frame[5 * n + k] else 0;
  }

  lemma PartOfGroup(got: seq<byte>, frame: seq<byte>, img: seq<Group>, ws: seq<Write>, n: nat)
    requires PartOf(got, frame, ws) && IsPacked(frame, img) && Aligned(ws) && n < |img|
    ensures |got| == 5 * |img| && GroupHeld(got, img, ws, n)
  {
    hide Covered, Pack, Aligned, GroupCame;
    assert PackedAt(frame, img, n);
    var a, b := got[5 * n..5 * n + 5], frame[5 * n..5 * n + 5];
    forall k: nat | k < 5
      ensures a[k] == if GroupCame(ws, n) then b[k] else 0
    {
      PartOfByte(got, frame, ws, n, k);
    }
    if GroupCame(ws, n) {
      assert a == b;
    }
  }

  lemma PartHasLength(got: seq<byte>, frame: seq<byte>, img: seq<Group>, ws: seq<Write>)
    requires PartOf(got, frame, ws) && IsPacked(frame, img)
    ensures |got| == 5 * |img|
  {
  }

  /** A frame under some of its chunks converts to the groups that came and zeros. */
  lemma PartConverts(got: seq<byte>, frame: seq<byte>, img: seq<Group>, ws: seq<Write>)
    requires PartOf(got, frame, ws) && IsPacked(frame, img) && Aligned(ws)
    ensures |got| == 5 * |img| && forall n: nat :: n < |img| ==> GroupShown(UyvyOf(got, |img|), img, ws, n)
  {
    hide PartOf, Pack, Unpack, GroupCame, Aligned, IsPacked;
    PartHasLength(got, frame, img, ws);
    forall n: nat | n < |img|
      ensures GroupShown(UyvyOf(got, |img|), img, ws, n)
    {
      PartOfGroup(got, frame, img, ws, n);
      UyvyOfAt(got, |img|, n);
      UnpackInvertsPack(img[n]);
      FourBytesAt(UyvyOf(got, |img|), 4 * n, Convert.Uyvy(Unpack(got[5 * n..5 * n + 5])));
      if !GroupCame(ws, n) {
        ZeroGroup(got[5 * n..5 * n + 5]);
      }
    }
  }

  lemma {:induction false} TimesOfFive(n: nat, k: nat)
    requires k % 5 == 0
    ensures Times(n, k) % 5 == 0
  {
    if n == 0 {
    } else {
      TimesOfFive(n - 1, k);
    }
  }

  lemma ChunkIsAligned(g: Geometry, p: Picture, mtu: nat, first: nat, i: nat)
    requires Sendable(g, p) && mtu in {1500, 9000} && i < |Chunks(g, p, mtu)|
    ensures forall w :: w in PacketsOf(Chunks(g, p, mtu), first, p.ts, g)[i].writes ==>
              w.at % 5 == 0 && |w.data| % 5 == 0
  {
    hide Plan, ReachAll, PackedAt, Encodable, Times;
    PackedFrameSize(g);
    PlanOfFrame(g, p.frame, MaxSegment(mtu));
    var c := Chunks(g, p, mtu)[i];
    assert Placed(c, p.frame, g.Stride(), g.height, MaxSegment(mtu));
    TimesOfFive(c.line, g.Stride());
    ChunkTarget(g, c);
    assert StartOf(c) % 5 == 0;
  }

  lemma ArrivalsAreAligned(g: Geometry, p: Picture, at: seq<nat>, mtu: nat, first: nat)
    requires Sendable(g, p) && mtu in {1500, 9000} && Shaped(BurstOf(g, p, at, mtu, first))
    ensures Aligned(AllWrites(Got(BurstOf(g, p, at, mtu, first))))
  {
    hide AllWrites, Chunks, PacketOf, Sendable;
    var got := Got(BurstOf(g, p, at, mtu, first));
    forall w | w in AllWrites(got)
      ensures w.at % 5 == 0 && |w.data| % 5 == 0
    {
      WritesOfPackets(got, w);
      var q :| q in got && w in q.writes;
      var i: nat :| i < |got| && got[i] == q;
      ChunkIsAligned(g, p, mtu, first, at[i]);
    }
  }

  lemma ArrivalsPaintPart(g: Geometry, p: Picture, at: seq<nat>, mtu: nat, first: nat)
    requires Sendable(g, p) && mtu in {1500, 9000} && Shaped(BurstOf(g, p, at, mtu, first))
    ensures |p.frame| == g.Size()
    ensures var got := Got(BurstOf(g, p, at, mtu, first));
            PartOf(Image(g.Size(), got), p.frame, AllWrites(got))
  {
    hide Chunks, PacketsOf, AllSlicesOf, AllWrites, PartOf, PaintedOver, SentFrame;
    var b := BurstOf(g, p, at, mtu, first);
    PackedFrameSize(g);
    ChunksAreAFrame(g, p, mtu, first);
    PartArrives([], b.full, b.at, p.frame);
  }

  /** The user's frame for a delivery made of the arrivals of one picture. */
  lemma DeliveryShowsPart(
    g: Geometry, p: Picture, at: seq<nat>, mtu: nat, first: nat, expected: Option<u16>, n: nat)
    requires Sendable(g, p) && mtu in {1500, 9000} && Shaped(BurstOf(g, p, at, mtu, first))
    ensures var b := BurstOf(g, p, at, mtu, first);
            var d := DeliveryOf(b, expected);
            ShowsPart(UserFrameOf(g, Ycbcr422_10bit, Uyvy, d, n), g, p, AllWrites(Got(b)), d.incomplete, n)
  {
    hide PartOf, Aligned, AllWrites, IsPacked, Chunks, PacketsOf, GroupShown, Image, UyvyOf;
    var got := Got(BurstOf(g, p, at, mtu, first));
    PackedFrameSize(g);
    ArrivalsPaintPart(g, p, at, mtu, first);
    ArrivalsAreAligned(g, p, at, mtu, first);
    PartConverts(Image(g.Size(), got), p.frame, p.img, AllWrites(got));
    Count32IsModulo(n);
    NsOfTicks(p.ts);
  }

  /** Frame `n` of the user is that of the `j`-th picture of which something arrived. */
  ghost predicate FrameOfPicture(
    u: Frame, n: nat, ds: seq<Delivery>, ks: seq<nat>, j: nat, g: Geometry, ps: seq<Picture>)
    requires j < |ds| == |ks| && ks[j] < |ps|
  {
    ShowsPart(u, g, ps[ks[j]], AllWrites(ds[j].packets), ds[j].incomplete, n)
  }

  lemma OutcomeShows(
    ds: seq<Delivery>, s: Standing, g: Geometry, ps: seq<Picture>, ats: seq<seq<nat>>, mtu: nat, first: nat,
    j: nat, n: nat)
    requires AllSendable(g, ps) && mtu in {1500, 9000} && |ats| == |ps|
    requires var bs := Bursts(g, ps, ats, mtu, first, |ps|);
             Matched(bs, Arrived(ats, |ps|), g, ps, ats, mtu, first) && Outcomes(ds, s, bs) && j < |ds|
    ensures FrameOfPicture(UserFrameOf(g, Ycbcr422_10bit, Uyvy, ds[j], n), n, ds, Arrived(ats, |ps|), j, g, ps)
  {
    hide Bursts, ShowsPart, UserFrameOf, AllWrites, Arrived, SentBefore, BurstOf, Got, ExpectedAt, AllSendable;
    var bs, ks := Bursts(g, ps, ats, mtu, first, |ps|), Arrived(ats, |ps|);
    var k := ks[j];
    var from := first + SentBefore(g, ps, mtu, k);
    assert Sendable(g, ps[k]) by {
      OneIsSendable(g, ps, k);
    }
    assert bs[j] == BurstOf(g, ps[k], ats[k], mtu, from) && Shaped(bs[j]);
    assert ds[j] == DeliveryOf(bs[j], ExpectedAt(s, bs, j));
    DeliveryShowsPart(g, ps[k], ats[k], mtu, from, ExpectedAt(s, bs, j), n);
  }

  lemma OneIsSendable(g: Geometry, ps: seq<Picture>, k: nat)
    requires AllSendable(g, ps) && k < |ps|
    ensures Sendable(g, ps[k])
  {
  }

  /** The user's frames of the broadcast, from frame `from` on: each shows the part of its
      picture that came, in order, and has the flag of its delivery. All are there but the last,
      which may wait. */
  ghost predicate ShowsParts(
    us: seq<Frame>, from: nat, ds: seq<Delivery>, ks: seq<nat>, g: Geometry, ps: seq<Picture>) {
    |ds| == |ks| && PositionsIn(ks, |ps|) && |us| <= from + |ds| <= |us| + 1 &&
    forall n: nat :: from <= n < |us| ==> FrameOfPicture(us[n], n, ds, ks, n - from, g, ps)
  }

  /** For the user: under every loss, repetition and reordering of the broadcast, as long as the
      pictures can be told apart, each group of each frame shown is the picture's samples where
      its chunk arrived and zero elsewhere. */
  lemma UserSeesParts(
    g: Geometry, ps: seq<Picture>, ats: seq<seq<nat>>, mtu: nat, first: nat, ssrc: u32, before: seq<seq<byte>>)
    returns (ds: seq<Delivery>)
    requires FormatFits(g, Ycbcr422_10bit) && AllSendable(g, ps) && mtu in {1500, 9000} && CanArrive(g, ps, ats, mtu)
    requires ToldApart(Accepted(g, before), Bursts(g, ps, ats, mtu, first, |ps|))
    ensures Outcomes(ds, StandingOf(Accepted(g, before)), Bursts(g, ps, ats, mtu, first, |ps|))
    ensures ShowsParts(View(g, before + Datagrams(g, ps, ats, mtu, first, ssrc, |ps|)),
                       |View(g, before)| + |Waiting(StandingOf(Accepted(g, before)))|,
                       ds, Arrived(ats, |ps|), g, ps)
  {
    hide Accepted, Deliveries, Datagrams, Bursts, Shaped, StandingOf, UserFrames, UserFrameOf, FrameOfPicture, Tidy,
         AllApart, SentBefore, PictureArrives, Arrived, DeliveryOf, BurstOf, ExpectedAt, AllSendable;
    var s, ks := StandingOf(Accepted(g, before)), Arrived(ats, |ps|);
    var now := before + Datagrams(g, ps, ats, mtu, first, ssrc, |ps|);
    BurstsMatch(g, ps, ats, mtu, first, |ps|);
    SeenIsExact(ats, |ps|);
    ds := LossyBroadcastApart(g, ps, ats, mtu, first, ssrc, before);
    var log, after := Accepted(g, before), Accepted(g, now);
    var from := |View(g, before)| + |Waiting(s)|;
    forall n: nat | from <= n < |View(g, now)|
      ensures FrameOfPicture(View(g, now)[n], n, ds, ks, n - from, g, ps)
    {
      ShownIsDelivered(Deliveries(log), Waiting(s), ds, Deliveries(after), Waiting(StandingOf(after)), n);
      FramesAreNumbered(g, Ycbcr422_10bit, Uyvy, Deliveries(after), n);
      OutcomeShows(ds, s, g, ps, ats, mtu, first, n - from, n);
    }
  }

  lemma ShownIsDelivered(
    was: seq<Delivery>, waited: seq<Delivery>, ds: seq<Delivery>, now: seq<Delivery>, waits: seq<Delivery>, n: nat)
    requires now + waits == was + (waited + ds) && |was| + |waited| <= n < |now|
    ensures now[n] == ds[n - |was| - |waited|]
  {
    assert now[n] == (now + waits)[n];
  }

  /** The same for the receiver object. */
  lemma ReceiverShowsParts(
    r: Receiver.Receiver, ps: seq<Picture>, ats: seq<seq<nat>>, mtu: nat, first: nat, ssrc: u32, before: seq<seq<byte>>)
    returns (ds: seq<Delivery>)
    requires r.Valid() && r.inputFmt == Ycbcr422_10bit && r.wanted == Uyvy
    requires AllSendable(r.geom, ps) && mtu in {1500, 9000} && CanArrive(r.geom, ps, ats, mtu)
    requires r.datagrams == before + Datagrams(r.geom, ps, ats, mtu, first, ssrc, |ps|)
    requires ToldApart(Accepted(r.geom, before), Bursts(r.geom, ps, ats, mtu, first, |ps|))
    ensures Outcomes(ds, StandingOf(Accepted(r.geom, before)), Bursts(r.geom, ps, ats, mtu, first, |ps|))
    ensures ShowsParts(r.handed, |View(r.geom, before)| + |Waiting(StandingOf(Accepted(r.geom, before)))|,
                       ds, Arrived(ats, |ps|), r.geom, ps)
  {
    hide Accepted, Deliveries, UserFrames, Datagrams, Bursts, StandingOf, StateOf, TotalLost, ToldApart, ShowsParts;
    ds := UserSeesParts(r.geom, ps, ats, mtu, first, ssrc, before);
    assert r.handed == View(r.geom, r.datagrams);
  }
}
