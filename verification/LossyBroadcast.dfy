/** Many pictures with losses in all of them, from the sender to the deliveries. */
module LossyBroadcast {
  import opened Bytes
  import opened Overlay
  import opened Wire
  import opened Stream
  import opened OneFrame
  import opened ManyFrames
  import opened Sender
  import opened Reception
  import opened EndToEnd
  import opened Split

  /** The chunks of a picture. */
  ghost function Chunks(g: Geometry, p: Picture, mtu: nat): seq<Chunk>
    requires Sendable(g, p) && mtu in {1500, 9000}
  {
    PackedFrameSize(g);
    FramePlan(g, p.frame, MaxSegment(mtu))
  }

  lemma ChunksAreAFrame(g: Geometry, p: Picture, mtu: nat, first: nat)
    requires Sendable(g, p) && mtu in {1500, 9000}
    ensures var full := PacketsOf(Chunks(g, p, mtu), first, p.ts, g);
            full != [] && full[0].seqNo == SeqNumber(first) && SentFrame(full, full[0].seqNo, p.ts) &&
            AllSlicesOf(AllWrites(full), p.frame)
  {
    PackedFrameSize(g);
    PacketsPerFrame(g, p.frame, mtu);
    PlanSplits(g, p.frame, MaxSegment(mtu));
    PacketsOfSplit(g, p.frame, Chunks(g, p, mtu), first, p.ts);
  }

  /** How many packets the pictures before picture `i` take. */
  ghost function SentBefore(g: Geometry, ps: seq<Picture>, mtu: nat, i: nat): nat
    requires AllSendable(g, ps) && mtu in {1500, 9000} && i <= |ps|
  {
    if i == 0 then 0 else SentBefore(g, ps, mtu, i - 1) + |Chunks(g, ps[i - 1], mtu)|
  }

  /** `ats[i]` are the positions of the packets of picture `i` that arrive: none, or any, in any
      order, with any repetition, with the marker last or lost. */
  ghost predicate CanArrive(g: Geometry, ps: seq<Picture>, ats: seq<seq<nat>>, mtu: nat)
    requires AllSendable(g, ps) && mtu in {1500, 9000}
  {
    |ats| == |ps| && forall i: nat :: i < |ps| ==> PictureArrives(g, ps[i], ats[i], mtu)
  }

  ghost predicate PictureArrives(g: Geometry, p: Picture, at: seq<nat>, mtu: nat)
    requires Sendable(g, p) && mtu in {1500, 9000}
  {
    at == [] || Arrivals(at, |Chunks(g, p, mtu)|)
  }

  ghost function BurstOf(g: Geometry, p: Picture, at: seq<nat>, mtu: nat, first: nat): Burst
    requires Sendable(g, p) && mtu in {1500, 9000}
  {
    Burst(PacketsOf(Chunks(g, p, mtu), first, p.ts, g), at, p.ts)
  }

  /** The pictures of which something arrives, among the first `n`. */
  ghost function Arrived(ats: seq<seq<nat>>, n: nat): seq<nat>
    requires n <= |ats|
  {
    if n == 0 then [] else Arrived(ats, n - 1) + (if ats[n - 1] == [] then [] else [n - 1])
  }

  /** The arrivals of the first `n` pictures, as frames of packets, numbered through. */
  ghost function Bursts(g: Geometry, ps: seq<Picture>, ats: seq<seq<nat>>, mtu: nat, first: nat, n: nat): seq<Burst>
    requires AllSendable(g, ps) && mtu in {1500, 9000} && |ats| == |ps| && n <= |ps|
  {
    if n == 0 then
      []
    else
      Bursts(g, ps, ats, mtu, first, n - 1) +
      (if ats[n - 1] == [] then []
       else [BurstOf(g, ps[n - 1], ats[n - 1], mtu, first + SentBefore(g, ps, mtu, n - 1))])
  }

  /** The datagrams that arrive of the first `n` pictures. */
  ghost function Datagrams(
    g: Geometry, ps: seq<Picture>, ats: seq<seq<nat>>, mtu: nat, first: nat, ssrc: u32, n: nat): seq<seq<byte>>
    requires AllSendable(g, ps) && mtu in {1500, 9000} && CanArrive(g, ps, ats, mtu) && n <= |ps|
  {
    if n == 0 then
      []
    else
      var sent := PicturePackets(g, ps[n - 1], mtu, first + SentBefore(g, ps, mtu, n - 1), ssrc);
      assert PictureArrives(g, ps[n - 1], ats[n - 1], mtu);
      Datagrams(g, ps, ats, mtu, first, ssrc, n - 1) + Pick(sent, ats[n - 1])
  }

  lemma BurstIsSent(g: Geometry, p: Picture, at: seq<nat>, mtu: nat, first: nat)
    requires Sendable(g, p) && mtu in {1500, 9000} && PictureArrives(g, p, at, mtu) && at != []
    ensures Sent(BurstOf(g, p, at, mtu, first)) && Shaped(BurstOf(g, p, at, mtu, first))
  {
    hide Chunks, SentFrame, AllWrites, AllSlicesOf;
    ChunksAreAFrame(g, p, mtu, first);
  }

  /** Which picture each burst is of. */
  ghost predicate Matched(
    bs: seq<Burst>, ks: seq<nat>, g: Geometry, ps: seq<Picture>, ats: seq<seq<nat>>, mtu: nat, first: nat)
    requires AllSendable(g, ps) && mtu in {1500, 9000} && |ats| == |ps|
  {
    |bs| == |ks| && forall j: nat :: j < |ks| ==>
      ks[j] < |ps| && bs[j] == BurstOf(g, ps[ks[j]], ats[ks[j]], mtu, first + SentBefore(g, ps, mtu, ks[j]))
  }

  lemma MatchedSnoc(
    bs: seq<Burst>, ks: seq<nat>, k: nat, g: Geometry, ps: seq<Picture>, ats: seq<seq<nat>>, mtu: nat, first: nat)
    requires AllSendable(g, ps) && mtu in {1500, 9000} && |ats| == |ps| && k < |ps|
    requires Matched(bs, ks, g, ps, ats, mtu, first) && AllSent(bs) && AllShaped(bs)
    requires PictureArrives(g, ps[k], ats[k], mtu) && ats[k] != []
    ensures var b := BurstOf(g, ps[k], ats[k], mtu, first + SentBefore(g, ps, mtu, k));
            AllSent(bs + [b]) && AllShaped(bs + [b]) && Matched(bs + [b], ks + [k], g, ps, ats, mtu, first)
  {
    hide BurstOf, Sent, Shaped, SentBefore, Sendable;
    BurstIsSent(g, ps[k], ats[k], mtu, first + SentBefore(g, ps, mtu, k));
  }

  lemma {:induction false} BurstsMatch(
    g: Geometry, ps: seq<Picture>, ats: seq<seq<nat>>, mtu: nat, first: nat, n: nat)
    requires AllSendable(g, ps) && mtu in {1500, 9000} && CanArrive(g, ps, ats, mtu) && n <= |ps|
    ensures var bs := Bursts(g, ps, ats, mtu, first, n);
            AllSent(bs) && AllShaped(bs) && Matched(bs, Arrived(ats, n), g, ps, ats, mtu, first)
  {
    hide BurstOf, Sent, Shaped, SentBefore, Sendable, PictureArrives;
    if n == 0 {
    } else {
      BurstsMatch(g, ps, ats, mtu, first, n - 1);
      assert PictureArrives(g, ps[n - 1], ats[n - 1], mtu);
      if ats[n - 1] == [] {
        assert Bursts(g, ps, ats, mtu, first, n) == Bursts(g, ps, ats, mtu, first, n - 1);
      } else {
        MatchedSnoc(Bursts(g, ps, ats, mtu, first, n - 1), Arrived(ats, n - 1), n - 1, g, ps, ats, mtu, first);
      }
    }
  }

  /** Exactly the pictures of which something arrives, in order. */
  lemma {:induction false} SeenIsExact(ats: seq<seq<nat>>, n: nat)
    requires n <= |ats|
    ensures Ascending(Arrived(ats, n)) && PositionsIn(Arrived(ats, n), n)
    ensures forall i: nat :: i in Arrived(ats, n) <==> i < n && ats[i] != []
  {
    if n == 0 {
    } else {
      SeenIsExact(ats, n - 1);
    }
  }

  lemma PictureIsDecoded(
    g: Geometry, p: Picture, mtu: nat, first: nat, ssrc: u32, at: seq<nat>, before: seq<seq<byte>>)
    requires Sendable(g, p) && mtu in {1500, 9000} && PositionsIn(at, |Chunks(g, p, mtu)|)
    ensures var sent := PicturePackets(g, p, mtu, first, ssrc);
            |sent| == |Chunks(g, p, mtu)| &&
            Accepted(g, before + Pick(sent, at)) ==
            Accepted(g, before) + Pick(PacketsOf(Chunks(g, p, mtu), first, p.ts, g), at)
  {
    hide Accepted, DecodeAll, RfcPackets, PacketsOf;
    var cs := Chunks(g, p, mtu);
    var full := PacketsOf(cs, first, p.ts, g);
    PackedFrameSize(g);
    PacketsPerFrame(g, p.frame, mtu);
    PlanSplits(g, p.frame, MaxSegment(mtu));
    ArrivalsAreDecoded(g, p.frame, cs, first, p.ts, ssrc, at);
    AcceptedConcat(g, before, Pick(RfcPackets(cs, first, p.ts, ssrc), at), Pick(full, at));
  }

  lemma OneMorePicture(
    g: Geometry, ps: seq<Picture>, ats: seq<seq<nat>>, mtu: nat, first: nat, ssrc: u32, before: seq<seq<byte>>, n: nat)
    requires AllSendable(g, ps) && mtu in {1500, 9000} && CanArrive(g, ps, ats, mtu) && 0 < n <= |ps|
    ensures var from := first + SentBefore(g, ps, mtu, n - 1);
            PositionsIn(ats[n - 1], |PacketsOf(Chunks(g, ps[n - 1], mtu), from, ps[n - 1].ts, g)|) &&
            Accepted(g, before + Datagrams(g, ps, ats, mtu, first, ssrc, n)) ==
            Accepted(g, before + Datagrams(g, ps, ats, mtu, first, ssrc, n - 1)) +
            Pick(PacketsOf(Chunks(g, ps[n - 1], mtu), from, ps[n - 1].ts, g), ats[n - 1])
  {
    hide Accepted, Chunks, PicturePackets, PacketsOf, Sendable, SentBefore;
    var earlier, from := Datagrams(g, ps, ats, mtu, first, ssrc, n - 1), first + SentBefore(g, ps, mtu, n - 1);
    assert Sendable(g, ps[n - 1]) && PictureArrives(g, ps[n - 1], ats[n - 1], mtu);
    PictureIsDecoded(g, ps[n - 1], mtu, from, ssrc, ats[n - 1], before + earlier);
    var more := Pick(PicturePackets(g, ps[n - 1], mtu, from, ssrc), ats[n - 1]);
    assert before + (earlier + more) == before + earlier + more;
  }

  lemma ArrivingSnoc(bs: seq<Burst>, b: Burst)
    requires AllShaped(bs) && AllShaped(bs + [b]) && Shaped(b)
    ensures Arriving(bs + [b]) == Arriving(bs) + Got(b)
  {
    assert Front(bs + [b]) == bs;
  }

  lemma OneMoreBurst(
    g: Geometry, ps: seq<Picture>, ats: seq<seq<nat>>, mtu: nat, first: nat, n: nat, log: Log)
    requires AllSendable(g, ps) && mtu in {1500, 9000} && CanArrive(g, ps, ats, mtu) && 0 < n <= |ps|
    ensures var from := first + SentBefore(g, ps, mtu, n - 1);
            var full := PacketsOf(Chunks(g, ps[n - 1], mtu), from, ps[n - 1].ts, g);
            PositionsIn(ats[n - 1], |full|) &&
            AllShaped(Bursts(g, ps, ats, mtu, first, n)) && AllShaped(Bursts(g, ps, ats, mtu, first, n - 1)) &&
            log + Arriving(Bursts(g, ps, ats, mtu, first, n)) ==
            log + Arriving(Bursts(g, ps, ats, mtu, first, n - 1)) + Pick(full, ats[n - 1])
  {
    hide PacketsOf, Chunks, SentBefore, Sendable, Arriving, Matched, AllSent, Sent;
    BurstsMatch(g, ps, ats, mtu, first, n);
    BurstsMatch(g, ps, ats, mtu, first, n - 1);
    assert PictureArrives(g, ps[n - 1], ats[n - 1], mtu);
    var earlier, at := Bursts(g, ps, ats, mtu, first, n - 1), ats[n - 1];
    if at == [] {
      assert Bursts(g, ps, ats, mtu, first, n) == earlier;
      assert log + Arriving(earlier) + [] == log + Arriving(earlier);
    } else {
      var b := BurstOf(g, ps[n - 1], at, mtu, first + SentBefore(g, ps, mtu, n - 1));
      assert Bursts(g, ps, ats, mtu, first, n) == earlier + [b];
      ArrivingSnoc(earlier, b);
      assert log + (Arriving(earlier) + Got(b)) == log + Arriving(earlier) + Got(b);
    }
  }

  lemma {:induction false} DatagramsAreTheBursts(
    g: Geometry, ps: seq<Picture>, ats: seq<seq<nat>>, mtu: nat, first: nat, ssrc: u32, before: seq<seq<byte>>, n: nat)
    requires AllSendable(g, ps) && mtu in {1500, 9000} && CanArrive(g, ps, ats, mtu) && n <= |ps|
    ensures AllShaped(Bursts(g, ps, ats, mtu, first, n))
    ensures Accepted(g, before + Datagrams(g, ps, ats, mtu, first, ssrc, n)) ==
            Accepted(g, before) + Arriving(Bursts(g, ps, ats, mtu, first, n))
    decreases n
  {
    hide Accepted, Arriving, Datagrams, Bursts, Chunks, SentBefore, AllSendable, PictureArrives, PacketsOf;
    if n == 0 {
      NothingSent(g, ps, ats, mtu, first, ssrc, before);
    } else {
      DatagramsAreTheBursts(g, ps, ats, mtu, first, ssrc, before, n - 1);
      OneMorePicture(g, ps, ats, mtu, first, ssrc, before, n);
      OneMoreBurst(g, ps, ats, mtu, first, n, Accepted(g, before));
    }
  }

  lemma NothingSent(
    g: Geometry, ps: seq<Picture>, ats: seq<seq<nat>>, mtu: nat, first: nat, ssrc: u32, before: seq<seq<byte>>)
    requires AllSendable(g, ps) && mtu in {1500, 9000} && CanArrive(g, ps, ats, mtu)
    ensures AllShaped(Bursts(g, ps, ats, mtu, first, 0))
    ensures Accepted(g, before + Datagrams(g, ps, ats, mtu, first, ssrc, 0)) ==
            Accepted(g, before) + Arriving(Bursts(g, ps, ats, mtu, first, 0))
  {
    assert before + [] == before && Accepted(g, before) + [] == Accepted(g, before);
  }

  /** Pictures sent back to back to a receiver that has seen any datagrams whatever: any packets
      of them lost, repeated or out of order inside their picture, whole pictures and markers
      included. The deliveries are those of the frame-by-frame account. */
  lemma LossyBroadcastArrives(
    g: Geometry, ps: seq<Picture>, ats: seq<seq<nat>>, mtu: nat, first: nat, ssrc: u32, before: seq<seq<byte>>)
    requires AllSendable(g, ps) && mtu in {1500, 9000} && CanArrive(g, ps, ats, mtu)
    ensures var bs := Bursts(g, ps, ats, mtu, first, |ps|);
            AllShaped(bs) && Matched(bs, Arrived(ats, |ps|), g, ps, ats, mtu, first)
    ensures var bs, log := Bursts(g, ps, ats, mtu, first, |ps|), Accepted(g, before);
            var after := Accepted(g, before + Datagrams(g, ps, ats, mtu, first, ssrc, |ps|));
            Deliveries(after) == Deliveries(log) + DeliveredByAll(StandingOf(log), bs) &&
            StandingOf(after) == AfterAll(StandingOf(log), bs)
  {
    hide Accepted, Deliveries, Chunks, BurstOf, Datagrams, Bursts, Shaped, AllSent, Sent, StandingOf, Matched;
    BurstsMatch(g, ps, ats, mtu, first, |ps|);
    DatagramsAreTheBursts(g, ps, ats, mtu, first, ssrc, before, |ps|);
    AnyStream(Accepted(g, before), Bursts(g, ps, ats, mtu, first, |ps|));
  }

  /** The receiver can tell the frames apart, from one another and from the stream before. */
  ghost predicate ToldApart(log: Log, bs: seq<Burst>) {
    AllShaped(bs) && Tidy(StandingOf(log)) && AllApart(StandingOf(log), bs)
  }

  /** If the pictures can be told apart: one delivery for each picture of which something arrives,
      the last possibly still waiting, flagged exactly if its marker is lost, its arrivals have a
      hole, or they do not carry on the numbers of a picture before it whose marker came. */
  lemma LossyBroadcastApart(
    g: Geometry, ps: seq<Picture>, ats: seq<seq<nat>>, mtu: nat, first: nat, ssrc: u32, before: seq<seq<byte>>)
    returns (ds: seq<Delivery>)
    requires AllSendable(g, ps) && mtu in {1500, 9000} && CanArrive(g, ps, ats, mtu)
    requires ToldApart(Accepted(g, before), Bursts(g, ps, ats, mtu, first, |ps|))
    ensures Outcomes(ds, StandingOf(Accepted(g, before)), Bursts(g, ps, ats, mtu, first, |ps|))
    ensures var log := Accepted(g, before);
            var after := Accepted(g, before + Datagrams(g, ps, ats, mtu, first, ssrc, |ps|));
            Deliveries(after) + Waiting(StandingOf(after)) == Deliveries(log) + (Waiting(StandingOf(log)) + ds)
  {
    hide Accepted, Deliveries, Chunks, BurstOf, Datagrams, Bursts, Shaped, AllSent, Sent, StandingOf, Matched, Outcomes;
    BurstsMatch(g, ps, ats, mtu, first, |ps|);
    DatagramsAreTheBursts(g, ps, ats, mtu, first, ssrc, before, |ps|);
    ds := LossyStream(Accepted(g, before), Bursts(g, ps, ats, mtu, first, |ps|));
  }
}
