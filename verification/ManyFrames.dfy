/** Whole streams of frames, with losses in all of them. */
module ManyFrames {
  import opened Bytes
  import opened Wire
  import opened Stream
  import opened OneFrame

  /** A frame as sent, the positions of what arrives of it, and its timestamp. */
  datatype Burst = Burst(full: seq<Packet>, at: seq<nat>, ts: u32)

  /** Something arrives, and all of it is part of the frame. */
  ghost predicate Shaped(b: Burst) {
    b.at != [] && PositionsIn(b.at, |b.full|)
  }

  ghost predicate Sent(b: Burst) {
    Shaped(b) && b.full != [] && SentFrame(b.full, b.full[0].seqNo, b.ts) && Arrivals(b.at, |b.full|)
  }

  ghost predicate AllShaped(bs: seq<Burst>) {
    forall i: nat :: i < |bs| ==> Shaped(bs[i])
  }

  ghost predicate AllSent(bs: seq<Burst>) {
    forall i: nat :: i < |bs| ==> Sent(bs[i])
  }

  ghost predicate Marked(b: Burst) {
    WithMarker(b.at, |b.full|)
  }

  ghost function Got(b: Burst): (got: seq<Packet>)
    requires Shaped(b)
    ensures |got| == |b.at| && got[0] == b.full[b.at[0]]
  {
    Pick(b.full, b.at)
  }

  /** All arrivals, frame after frame. */
  ghost function Arriving(bs: seq<Burst>): Log
    requires AllShaped(bs)
  {
    if bs == [] then [] else Arriving(Front(bs)) + Got(Last(bs))
  }

  // ---------- Frame by frame ----------

  /** All that a stream leaves behind for the frames after it: its last packet, whether the run
      of that packet's timestamp has a marker, the pending packets and whether they have a gap. */
  datatype Standing = Standing(hasPrev: bool, lastTs: u32, lastSeq: u16, marked: bool,
                               held: seq<Packet>, gapped: bool)

  ghost function StandingOf(log: Log): Standing {
    Standing(log != [], if log == [] then 0 else Last(log).ts, if log == [] then 0 else Last(log).seqNo,
             RunMarked(log), Pending(log), Gapped(log, PendingStart(log)))
  }

  /** The first arrival is not itself the marker. */
  ghost predicate StartsPlain(b: Burst)
    requires Shaped(b)
  {
    b.at[0] != |b.full| - 1
  }

  ghost predicate Flushing(s: Standing, b: Burst)
    requires Shaped(b)
  {
    s.hasPrev && b.ts != s.lastTs && StartsPlain(b) && !s.marked
  }

  ghost predicate GapInFront(s: Standing, b: Burst)
    requires Shaped(b)
  {
    s.hasPrev && Got(b)[0].seqNo != Succ16(s.lastSeq)
  }

  /** The frame is flagged: a hole in its arrivals, or, unless it flushes, a gap that was
      pending or lies in front of it. */
  ghost predicate Flawed(s: Standing, b: Burst)
    requires Shaped(b)
  {
    !NoHoles(b.at, b.at[0]) || (!Flushing(s, b) && (s.gapped || GapInFront(s, b)))
  }

  /** The packets that go out with the frame, or wait with it. */
  ghost function Gathered(s: Standing, b: Burst): seq<Packet>
    requires Shaped(b)
  {
    (if Flushing(s, b) then [] else s.held) + Got(b)
  }

  /** What the arrivals of one frame deliver. */
  ghost function DeliveredByBurst(s: Standing, b: Burst): seq<Delivery>
    requires Shaped(b)
  {
    (if Flushing(s, b) then [Delivery(s.held, s.lastTs, true)] else []) +
    (if Marked(b) then [Delivery(Gathered(s, b), b.ts, Flawed(s, b))] else [])
  }

  ghost function AfterBurst(s: Standing, b: Burst): Standing
    requires Shaped(b)
  {
    if Marked(b) then
      Standing(true, b.ts, Last(Got(b)).seqNo, true, [], false)
    else
      Standing(true, b.ts, Last(Got(b)).seqNo, s.hasPrev && s.lastTs == b.ts && s.marked,
               Gathered(s, b), Flawed(s, b))
  }

  ghost function AfterAll(s: Standing, bs: seq<Burst>): Standing
    requires AllShaped(bs)
  {
    if bs == [] then s else AfterBurst(AfterAll(s, Front(bs)), Last(bs))
  }

  ghost function DeliveredByAll(s: Standing, bs: seq<Burst>): seq<Delivery>
    requires AllShaped(bs)
  {
    if bs == [] then [] else DeliveredByAll(s, Front(bs)) + DeliveredByBurst(AfterAll(s, Front(bs)), Last(bs))
  }

  lemma SentIsMarkedOnce(b: Burst)
    requires Sent(b)
    ensures forall i :: 0 <= i < |b.full| ==> b.full[i].ts == b.ts && (b.full[i].marker <==> i == |b.full| - 1)
    ensures Last(Got(b)) == b.full[Last(b.at)]
  {
  }

  /** The standing decides what the first arrival does. */
  lemma StandingTells(log: Log, b: Burst)
    requires Sent(b)
    ensures var s, p := StandingOf(log), Got(b)[0];
            (Flushes(log + [p]) <==> Flushing(s, b)) && (Broken(log, p, b.at) <==> Flawed(s, b)) &&
            HeldOver(log, p) + Got(b) == Gathered(s, b) &&
            Settled(log, p) == Deliveries(log) + (if Flushing(s, b) then [Delivery(s.held, s.lastTs, true)] else [])
  {
    hide Deliveries, RunMarked, Gapped, NoHoles, SentFrame, Pending;
    var p := Got(b)[0];
    SentIsMarkedOnce(b);
    assert Front(log + [p]) == log;
    if log != [] {
      NextToMarker(log, p);
    }
    assert Deliveries(log) + [] == Deliveries(log);
  }

  lemma MarkerLeavesNothing(log: Log)
    requires log != [] && Last(log).marker
    ensures RunMarked(log) && !Gapped(log, PendingStart(log))
  {
    MarkerIsInItsRun(log);
    NothingHeldOver(log, Last(log));
  }

  /** The arrivals of one frame, on any stream whatever. */
  lemma BurstStep(log: Log, b: Burst)
    requires Sent(b)
    ensures Deliveries(log + Got(b)) == Deliveries(log) + DeliveredByBurst(StandingOf(log), b)
    ensures StandingOf(log + Got(b)) == AfterBurst(StandingOf(log), b)
  {
    hide Deliveries, RunMarked, Gapped, Broken, HeldOver, Settled, SentFrame, Pending, Flawed, Gathered, Flushing;
    var s, stream := StandingOf(log), log + Got(b);
    SentIsMarkedOnce(b);
    StandingTells(log, b);
    FrameAfterAnything(log, b.full, b.at, b.full[0].seqNo, b.ts);
    assert stream != [] && Last(stream) == Last(Got(b));
    var flushed := if Flushing(s, b) then [Delivery(s.held, s.lastTs, true)] else [];
    if Marked(b) {
      MarkerLeavesNothing(stream);
      var d := [Delivery(Gathered(s, b), b.ts, Flawed(s, b))];
      assert Deliveries(log) + flushed + d == Deliveries(log) + (flushed + d);
    } else {
      assert flushed + [] == flushed;
    }
  }

  /** Any stream of frames on any earlier stream: any losses, repetition and reordering inside
      the frames, any markers lost, any timestamps and any numbers. The deliveries are those of
      the frame-by-frame account, which looks at no more of the past than the standing. */
  lemma {:induction false} AnyStream(log: Log, bs: seq<Burst>)
    requires AllSent(bs)
    ensures AllShaped(bs)
    ensures Deliveries(log + Arriving(bs)) == Deliveries(log) + DeliveredByAll(StandingOf(log), bs)
    ensures StandingOf(log + Arriving(bs)) == AfterAll(StandingOf(log), bs)
    decreases |bs|
  {
    hide Deliveries, StandingOf, DeliveredByBurst, AfterBurst, Got, Sent;
    AllSentAreShaped(bs);
    if bs == [] {
      assert log + [] == log && Deliveries(log) + [] == Deliveries(log);
    } else {
      var n := |bs| - 1;
      AllSentAreShaped(Front(bs));
      AnyStream(log, Front(bs));
      assert Sent(bs[n]);
      BurstStep(log + Arriving(Front(bs)), Last(bs));
      assert log + (Arriving(Front(bs)) + Got(Last(bs))) == log + Arriving(Front(bs)) + Got(Last(bs));
    }
  }

  lemma AllSentAreShaped(bs: seq<Burst>)
    requires AllSent(bs)
    ensures AllShaped(bs)
  {
    forall i: nat | i < |bs|
      ensures Shaped(bs[i])
    {
      assert Sent(bs[i]);
    }
  }

  // ---------- Frames that can be told apart ----------

  /** Nothing trails a delivered frame's marker. */
  ghost predicate Tidy(s: Standing) {
    if s.held == [] then !s.gapped && (s.hasPrev ==> s.marked) else s.hasPrev && !s.marked
  }

  /** The frame can be told from what is before it: another timestamp, and if that lost its
      marker, a first arrival that is not itself a marker. */
  ghost predicate Joins(s: Standing, b: Burst)
    requires Shaped(b)
  {
    (s.hasPrev ==> s.lastTs != b.ts) && (s.held == [] || StartsPlain(b))
  }

  ghost predicate Apart(prev: Burst, b: Burst)
    requires Shaped(b)
  {
    prev.ts != b.ts && (Marked(prev) || StartsPlain(b))
  }

  ghost predicate AllApart(s: Standing, bs: seq<Burst>)
    requires AllShaped(bs)
  {
    (bs != [] ==> Joins(s, bs[0])) && forall i: nat :: 0 < i < |bs| ==> Apart(bs[i - 1], bs[i])
  }

  /** A frame without its marker waits for the next one to flush it. */
  ghost function Waiting(s: Standing): seq<Delivery> {
    if s.held == [] then [] else [Delivery(s.held, s.lastTs, true)]
  }

  /** The number that the next frame must start with to be unflagged, if any: only after a
      frame whose marker came. */
  ghost function Expected(s: Standing): Option<u16> {
    if s.hasPrev && s.held == [] then Some(Succ16(s.lastSeq)) else None
  }

  ghost function ExpectedAfter(b: Burst): Option<u16>
    requires Shaped(b)
  {
    if Marked(b) then Some(Succ16(Last(Got(b)).seqNo)) else None
  }

  /** The delivery a frame comes to: its arrivals, flagged if the marker is lost, if they have a
      hole, or if they do not start with the expected number. */
  ghost function DeliveryOf(b: Burst, expected: Option<u16>): Delivery
    requires Shaped(b)
  {
    Delivery(Got(b), b.ts,
             !Marked(b) || !NoHoles(b.at, b.at[0]) || (expected.Some? && Got(b)[0].seqNo != expected.value))
  }

  /** The number expected of frame `i`. */
  ghost function ExpectedAt(s: Standing, bs: seq<Burst>, i: nat): Option<u16>
    requires AllShaped(bs) && i < |bs|
  {
    if i == 0 then Expected(s) else ExpectedAfter(bs[i - 1])
  }

  /** One delivery for each frame. */
  ghost predicate Outcomes(ds: seq<Delivery>, s: Standing, bs: seq<Burst>) {
    AllShaped(bs) && |ds| == |bs| &&
    forall i: nat :: i < |bs| ==> ds[i] == DeliveryOf(bs[i], ExpectedAt(s, bs, i))
  }

  lemma TidyStep(s: Standing, b: Burst)
    requires Shaped(b) && Tidy(s) && Joins(s, b)
    ensures Tidy(AfterBurst(s, b)) && Expected(AfterBurst(s, b)) == ExpectedAfter(b)
    ensures DeliveredByBurst(s, b) + Waiting(AfterBurst(s, b)) == Waiting(s) + [DeliveryOf(b, Expected(s))]
  {
    hide NoHoles, Got, Marked;
    assert [] + Got(b) == Got(b);
  }

  lemma NextJoins(s: Standing, prev: Burst, b: Burst)
    requires Shaped(prev) && Shaped(b) && Apart(prev, b)
    ensures Joins(AfterBurst(s, prev), b)
  {
  }

  lemma OutcomesSnoc(ds: seq<Delivery>, s: Standing, bs: seq<Burst>)
    requires bs != [] && AllShaped(bs) && Outcomes(ds, s, Front(bs))
    ensures Outcomes(ds + [DeliveryOf(Last(bs), ExpectedAt(s, bs, |bs| - 1))], s, bs)
  {
    hide DeliveryOf, Expected, ExpectedAfter;
    var now := ds + [DeliveryOf(Last(bs), ExpectedAt(s, bs, |bs| - 1))];
    forall i: nat | i < |bs|
      ensures now[i] == DeliveryOf(bs[i], ExpectedAt(s, bs, i))
    {
      if i < |bs| - 1 {
        var some := Front(bs);
        assert some[i] == bs[i] && (i > 0 ==> some[i - 1] == bs[i - 1]);
        assert ExpectedAt(s, some, i) == ExpectedAt(s, bs, i);
        assert ds[i] == DeliveryOf(some[i], ExpectedAt(s, some, i));
      }
    }
  }

  lemma AllApartFront(s: Standing, bs: seq<Burst>)
    requires bs != [] && AllShaped(bs) && AllApart(s, bs)
    ensures AllShaped(Front(bs)) && AllApart(s, Front(bs))
  {
    forall i: nat | 0 < i < |bs| - 1
      ensures Apart(Front(bs)[i - 1], Front(bs)[i])
    {
      assert Apart(bs[i - 1], bs[i]);
    }
  }

  lemma {:induction false} AccountOfApart(s: Standing, bs: seq<Burst>) returns (ds: seq<Delivery>)
    requires AllShaped(bs) && Tidy(s) && AllApart(s, bs)
    ensures Outcomes(ds, s, bs)
    ensures DeliveredByAll(s, bs) + Waiting(AfterAll(s, bs)) == Waiting(s) + ds
    ensures Tidy(AfterAll(s, bs))
    ensures bs != [] ==> Expected(AfterAll(s, bs)) == ExpectedAfter(Last(bs))
    decreases |bs|
  {
    hide DeliveryOf, DeliveredByBurst, Waiting, AfterBurst, Tidy, Joins, Expected, ExpectedAfter, Apart, Shaped;
    if bs == [] {
      ds := [];
      assert [] + Waiting(s) == Waiting(s) == Waiting(s) + [];
    } else {
      var n, b := |bs| - 1, Last(bs);
      assert Shaped(bs[n]);
      AllApartFront(s, bs);
      var before := AccountOfApart(s, Front(bs));
      var mid := AfterAll(s, Front(bs));
      if n > 0 {
        assert Apart(bs[n - 1], bs[n]) && Shaped(bs[n - 1]);
        NextJoins(AfterAll(s, Front(Front(bs))), bs[n - 1], b);
      }
      TidyStep(mid, b);
      var d := DeliveryOf(b, Expected(mid));
      assert Expected(mid) == ExpectedAt(s, bs, n);
      ds := before + [d];
      OutcomesSnoc(before, s, bs);
      Regroup(DeliveredByAll(s, Front(bs)), DeliveredByBurst(mid, b), Waiting(AfterBurst(mid, b)), Waiting(mid), [d]);
    }
  }

  lemma Regroup<T>(a: seq<T>, b: seq<T>, c: seq<T>, w: seq<T>, d: seq<T>)
    requires b + c == w + d
    ensures a + b + c == a + w + d
  {
    assert a + b + c == a + (b + c);
  }

  /** A stream of frames that can be told apart, on any earlier stream that nothing trails: with
      any losses, repetitions and reorderings inside the frames, any markers lost and any frames
      lost altogether, each frame of which something arrives gives one delivery of exactly its
      arrivals, the last one possibly still waiting to be flushed, flagged exactly if its marker
      is lost, its arrivals have a hole, or they do not carry on the numbers of a frame before it
      whose marker came. */
  lemma LossyStream(log: Log, bs: seq<Burst>) returns (ds: seq<Delivery>)
    requires AllSent(bs) && AllShaped(bs) && Tidy(StandingOf(log)) && AllApart(StandingOf(log), bs)
    ensures Outcomes(ds, StandingOf(log), bs)
    ensures var stream := log + Arriving(bs);
            Deliveries(stream) + Waiting(StandingOf(stream)) == Deliveries(log) + (Waiting(StandingOf(log)) + ds)
  {
    hide Deliveries, StandingOf, Waiting, Outcomes, Tidy, AllApart, AllSent, AllShaped, AfterAll;
    var s := StandingOf(log);
    AnyStream(log, bs);
    ds := AccountOfApart(s, bs);
    var made, rest := DeliveredByAll(s, bs), Waiting(AfterAll(s, bs));
    assert Deliveries(log) + made + rest == Deliveries(log) + (made + rest);
  }

  /** Which earlier streams nothing trails: after a marker and at the start always, otherwise if
      the pending packets are not the late ones of a timestamp whose marker came. */
  lemma WhenTidy(log: Log)
    ensures Tidy(StandingOf(log)) <==> BetweenFrames(log) || !RunMarked(log)
  {
    if BetweenFrames(log) {
      NothingHeldOver(log, Packet(0, 0, false, []));
      MarkerIsInItsRun(log);
    }
  }
}
