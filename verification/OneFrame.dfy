/** One frame on top of any earlier stream: what is handed over when its packets are
    lost, repeated or reordered on the way. */
module OneFrame {
  import opened Bytes
  import opened Overlay
  import opened Wire
  import opened Stream

  // ---------- Packets of one timestamp ----------

  /** Packets of one timestamp, none with a marker. */
  ghost predicate FrameBody(ps: seq<Packet>, ts: u32) {
    forall i :: 0 <= i < |ps| ==> ps[i].ts == ts && !ps[i].marker
  }

  /** A body and then the marker. */
  ghost predicate MarkedFrame(ps: seq<Packet>, ts: u32) {
    ps != [] && FrameBody(Front(ps), ts) && Last(ps).ts == ts && Last(ps).marker
  }

  /** What has been delivered once `p` has dealt with the frame before it. */
  ghost function Settled(log: Log, p: Packet): seq<Delivery> {
    if Flushes(log + [p]) then Deliveries(log) + [Delivery(Pending(log), Last(log).ts, true)] else Deliveries(log)
  }

  /** Earlier packets that end up in the same frame as `p`: the pending ones, unless `p`
      flushes them. */
  ghost function HeldOver(log: Log, p: Packet): seq<Packet> {
    if Flushes(log + [p]) then [] else Pending(log)
  }

  lemma FirstPacket(log: Log, p: Packet)
    requires !p.marker
    ensures Deliveries(log + [p]) == Settled(log, p) && Pending(log + [p]) == HeldOver(log, p) + [p]
  {
    DeliveriesSnoc(log, p);
    if Flushes(log + [p]) {
      FlushStep(log, p);
    } else {
      PlainStep(log, p);
      assert Deliveries(log) + [] == Deliveries(log);
    }
  }

  lemma SameTimestampStays(log: Log, p: Packet)
    requires log != [] && Last(log).ts == p.ts && !p.marker
    ensures Deliveries(log + [p]) == Deliveries(log) && Pending(log + [p]) == Pending(log) + [p]
    ensures RunMarked(log + [p]) <==> RunMarked(log)
  {
    assert Front(log + [p]) == log;
    FirstPacket(log, p);
    RunMarkedSnoc(log, p);
  }

  /** Any number of unmarked packets of one timestamp, after any stream. */
  lemma {:induction false} BodyArrives(log: Log, body: seq<Packet>, ts: u32)
    requires FrameBody(body, ts) && body != []
    ensures Deliveries(log + body) == Settled(log, body[0]) && Pending(log + body) == HeldOver(log, body[0]) + body
    ensures RunMarked(log + body) <==> log != [] && Last(log).ts == ts && RunMarked(log)
    decreases |body|
  {
    hide Deliveries, RunMarked, Settled, HeldOver, Pending;
    var rest, p := Front(body), Last(body);
    FrontThenLast(body);
    if rest == [] {
      assert body == [p];
      FirstPacket(log, p);
      RunMarkedSnoc(log, p);
    } else {
      BodyArrives(log, rest, ts);
      assert log + body == log + rest + [p] && Last(log + rest) == Last(rest);
      SameTimestampStays(log + rest, p);
      assert HeldOver(log, body[0]) + rest + [p] == HeldOver(log, body[0]) + body;
    }
  }

  lemma PendingIsASuffix(log: Log, ps: seq<Packet>)
    requires Pending(log) == ps
    ensures PendingStart(log) == |log| - |ps|
  {
  }

  /** The first packet of the log whose gaps count against the frame of `p`. */
  ghost function FrameStart(log: Log, p: Packet): nat {
    |log| - |HeldOver(log, p)|
  }

  lemma MarkerDoesNotFlush(log: Log, m: Packet)
    requires m.marker
    ensures !Flushes(log + [m]) && Settled(log, m) == Deliveries(log) && HeldOver(log, m) == Pending(log)
  {
  }

  lemma GapsWithMarker(log: Log, m: Packet)
    requires m.marker
    ensures Gapped(log + [m], PendingStart(log)) <==> Gapped(log, PendingStart(log)) || GapAt(log + [m], |log|)
  {
    GappedSnoc(log, m, PendingStart(log));
  }

  lemma MarkerTakesPending(log: Log, m: Packet, held: seq<Packet>)
    requires m.marker && Pending(log) == held
    ensures Pending(log + [m]) == []
    ensures Deliveries(log + [m]) ==
            Deliveries(log) + [Delivery(held + [m], m.ts, Gapped(log + [m], |log| - |held|))]
  {
    hide Deliveries, Gapped, Flushes;
    PendingIsASuffix(log, held);
    DeliveriesSnoc(log, m);
    MarkerStep(log, m);
    GapsWithMarker(log, m);
  }

  /** A marked frame after any stream: whatever it does not flush goes out with it. */
  lemma FrameArrives(log: Log, got: seq<Packet>, ts: u32)
    requires MarkedFrame(got, ts)
    ensures Deliveries(log + got) == Settled(log, got[0]) +
            [Delivery(HeldOver(log, got[0]) + got, ts, Gapped(log + got, FrameStart(log, got[0])))]
    ensures Pending(log + got) == []
  {
    hide Deliveries, Gapped, RunMarked, Settled, HeldOver, Pending;
    var body, m := Front(got), Last(got);
    FrontThenLast(got);
    var before := log + body;
    assert before + [m] == log + got;
    if body == [] {
      assert before == log && got == [m];
      MarkerDoesNotFlush(log, m);
    } else {
      BodyArrives(log, body, ts);
    }
    var held := HeldOver(log, got[0]);
    assert Pending(before) == held + body && held + got == held + body + [m];
    MarkerTakesPending(before, m, held + body);
  }

  // ---------- After a marker ----------

  /** Nothing was received yet, or the last accepted packet closed its frame. */
  ghost predicate BetweenFrames(log: Log) {
    log == [] || Last(log).marker
  }

  lemma NothingHeldOver(log: Log, p: Packet)
    requires BetweenFrames(log)
    ensures !Flushes(log + [p]) && Pending(log) == HeldOver(log, p) == [] && Settled(log, p) == Deliveries(log)
    ensures !Gapped(log, PendingStart(log)) && FrameStart(log, p) == |log|
  {
    assert Front(log + [p]) == log;
    if log != [] {
      assert MarkedSince(log, |log| - 1);
    }
  }

  /** A whole frame becomes one more delivery, made of exactly its packets in the order
      they came. */
  lemma FrameIsDelivered(log: Log, frame: seq<Packet>, ts: u32)
    requires BetweenFrames(log) && MarkedFrame(frame, ts)
    ensures Deliveries(log + frame) == Deliveries(log) + [Delivery(frame, ts, Gapped(log + frame, |log|))]
  {
    FrameArrives(log, frame, ts);
    NothingHeldOver(log, frame[0]);
    assert [] + frame == frame;
  }

  lemma NewTimestampFlushes(log: Log, p: Packet)
    requires log != [] && Last(log).ts != p.ts && !p.marker
    ensures Flushes(log + [p]) <==> !RunMarked(log)
  {
    assert Front(log + [p]) == log;
  }

  lemma MarkerIsInItsRun(log: Log)
    requires BetweenFrames(log)
    ensures log != [] ==> RunMarked(log)
  {
    if log != [] {
      assert MarkedSince(log, |log| - 1);
    }
  }

  lemma BodyWaits(log: Log, body: seq<Packet>, ts: u32)
    requires BetweenFrames(log) && FrameBody(body, ts) && body != []
    ensures Deliveries(log + body) == Deliveries(log) && Pending(log + body) == body && Last(log + body).ts == ts
    ensures RunMarked(log + body) <==> log != [] && Last(log).ts == ts
  {
    hide Deliveries, RunMarked, Pending;
    BodyArrives(log, body, ts);
    NothingHeldOver(log, body[0]);
    MarkerIsInItsRun(log);
    assert [] + body == body && Last(log + body) == Last(body);
  }

  /** A frame whose marker is lost is handed over, flagged, by the first packet of the next
      timestamp, if and only if that packet has no marker and the timestamp differs from that
      of the frame before. With a marker the packet goes out in one frame with it, without it
      becomes part of the next frame. */
  lemma LostMarkerMeansFlush(log: Log, body: seq<Packet>, ts: u32, p: Packet)
    requires BetweenFrames(log) && FrameBody(body, ts) && body != [] && p.ts != ts
    ensures var stream := log + body + [p];
            var flushed := !p.marker && (log == [] || Last(log).ts != ts);
            Deliveries(stream) == Deliveries(log) +
              (if flushed then [Delivery(body, ts, true)]
               else if p.marker then [Delivery(body + [p], p.ts, Gapped(stream, |log|))]
               else []) &&
            Pending(stream) == if flushed then [p] else if p.marker then [] else body + [p]
  {
    hide Deliveries, RunMarked, Gapped, Flushes, Pending;
    BodyWaits(log, body, ts);
    if p.marker {
      MarkerTakesPending(log + body, p, body);
    } else {
      FirstPacket(log + body, p);
      NewTimestampFlushes(log + body, p);
      assert Deliveries(log) + [] == Deliveries(log);
    }
  }

  // ---------- Reordering and repetition of any packets ----------

  lemma {:induction false} WritesOfPackets(ps: seq<Packet>, w: Write)
    ensures w in AllWrites(ps) <==> exists p :: p in ps && w in p.writes
  {
    if ps == [] {
    } else {
      WritesOfPackets(Front(ps), w);
      FrontThenLast(ps);
      assert forall p :: p in ps <==> p in Front(ps) || p == Last(ps);
    }
  }

  /** If overlapping segments of a frame agree, as disjoint ones and repeated ones do, then
      neither the order nor the repetition of its packets before the marker shows in the
      delivered buffer. It can show in the flag, which is that of the numbers as they came. */
  lemma OrderAndRepetitionDoNotShow(log: Log, a: seq<Packet>, b: seq<Packet>, m: Packet, size: nat)
    requires BetweenFrames(log) && FrameBody(a, m.ts) && m.marker
    requires forall p :: p in a <==> p in b
    requires Consistent(AllWrites(a + [m])) && forall w :: w in AllWrites(a + [m]) ==> Fits(w, size)
    ensures var da, db := Deliveries(log + (a + [m])), Deliveries(log + (b + [m]));
            |da| == |db| == |Deliveries(log)| + 1 &&
            Last(da).ts == Last(db).ts && Image(size, Last(da).packets) == Image(size, Last(db).packets) &&
            Last(da).incomplete == Gapped(log + (a + [m]), |log|) &&
            Last(db).incomplete == Gapped(log + (b + [m]), |log|)
  {
    hide Deliveries, Gapped, Apply, Agree;
    assert FrameBody(b, m.ts) by {
      forall i | 0 <= i < |b|
        ensures b[i].ts == m.ts && !b[i].marker
      {
        assert b[i] in a;
      }
    }
    assert Front(a + [m]) == a && Front(b + [m]) == b;
    FrameIsDelivered(log, a + [m], m.ts);
    FrameIsDelivered(log, b + [m], m.ts);
    forall w
      ensures w in AllWrites(a + [m]) <==> w in AllWrites(b + [m])
    {
      WritesOfPackets(a + [m], w);
      WritesOfPackets(b + [m], w);
      assert forall p :: p in a + [m] <==> p in b + [m];
    }
    OnlyTheSetOfWritesMatters(Zeros(size), AllWrites(a + [m]), AllWrites(b + [m]));
  }

  // ---------- A sent frame and what arrives of it ----------

  /** A whole frame as sent: one timestamp, numbers ascending by one from `first`, the
      marker on the last packet only. */
  ghost predicate SentFrame(full: seq<Packet>, first: u16, ts: u32) {
    0 < |full| <= 0x1_0000 && Numbered(full, first) && MarkedAtTheEnd(full, ts)
  }

  ghost predicate Numbered(full: seq<Packet>, first: u16) {
    forall i :: 0 <= i < |full| ==> full[i].seqNo == (first + i) % 0x1_0000
  }

  ghost predicate MarkedAtTheEnd(full: seq<Packet>, ts: u32) {
    forall i :: 0 <= i < |full| ==> full[i].ts == ts && (full[i].marker <==> i == |full| - 1)
  }

  ghost predicate PositionsIn(at: seq<nat>, n: nat) {
    forall i :: 0 <= i < |at| ==> at[i] < n
  }

  /** The packets at these positions of the frame, in the order of the list. */
  ghost function Pick<T>(full: seq<T>, at: seq<nat>): (r: seq<T>)
    requires PositionsIn(at, |full|)
    ensures |r| == |at| && forall i :: 0 <= i < |at| ==> r[i] == full[at[i]]
  {
    if at == [] then [] else Pick(full, Front(at)) + [full[Last(at)]]
  }

  /** Positions of arriving packets of a frame of `n`: any of them, in any order and with any
      repetition, except that nothing comes after the marker. */
  ghost predicate Arrivals(at: seq<nat>, n: nat) {
    at != [] && PositionsIn(at, n) && forall i :: 0 <= i < |at| - 1 ==> at[i] != n - 1
  }

  /** The marker is among them. */
  ghost predicate WithMarker(at: seq<nat>, n: nat) {
    at != [] && Last(at) == n - 1
  }

  ghost predicate Ascending(at: seq<nat>) {
    forall i, j :: 0 <= i < j < |at| ==> at[i] < at[j]
  }

  /** Losses only: what is left is in order, and the marker is there. */
  ghost predicate KeepsMarker(keep: seq<nat>, n: nat) {
    keep != [] && Ascending(keep) && PositionsIn(keep, n) && Last(keep) == n - 1
  }

  lemma KeptPacketsArrive(keep: seq<nat>, n: nat)
    requires KeepsMarker(keep, n)
    ensures Arrivals(keep, n) && WithMarker(keep, n)
  {
    forall i | 0 <= i < |keep| - 1
      ensures keep[i] != n - 1
    {
      assert keep[i] < keep[|keep| - 1];
    }
  }

  /** Every arrival is the one after the arrival before it, from `start` on. */
  ghost predicate NoHoles(at: seq<nat>, start: nat) {
    forall i :: 0 <= i < |at| ==> at[i] == start + i
  }

  lemma NoHolesSnoc(at: seq<nat>, n: nat, start: nat)
    requires 0 < n < |at|
    ensures NoHoles(at[..n + 1], start) <==> NoHoles(at[..n], start) && at[n] == at[n - 1] + 1
  {
    var a, b := at[..n], at[..n + 1];
    assert forall i :: 0 <= i < n ==> a[i] == b[i];
    assert b[n] == at[n] && a[n - 1] == at[n - 1];
  }

  /** Inside a frame the next number belongs to the next packet and no other. */
  lemma NextNumber(first: u16, a: nat, b: nat)
    requires a + 1 < 0x1_0000 && b < 0x1_0000
    ensures (first + b) % 0x1_0000 == Succ16((first + a) % 0x1_0000) <==> b == a + 1
  {
    var x, y := first + a + 1, first + b;
    assert Succ16((first + a) % 0x1_0000) == x % 0x1_0000;
    assert -0x1_0000 < y - x < 0x1_0000;
    assert y % 0x1_0000 == x % 0x1_0000 ==> (y - x) % 0x1_0000 == 0;
  }

  lemma GapIsHole(log: Log, full: seq<Packet>, first: u16, ts: u32, a: nat, b: nat)
    requires SentFrame(full, first, ts) && a < |full| - 1 && b < |full| && log != [] && Last(log) == full[a]
    ensures GapAt(log + [full[b]], |log|) <==> b != a + 1
  {
    NextNumber(first, a, b);
    assert full[a].seqNo == (first + a) % 0x1_0000 && full[b].seqNo == (first + b) % 0x1_0000;
  }

  lemma PickSnoc(full: seq<Packet>, at: seq<nat>, n: nat)
    requires PositionsIn(at, |full|) && n < |at|
    ensures PositionsIn(at[..n], |full|) && PositionsIn(at[..n + 1], |full|)
    ensures Pick(full, at[..n + 1]) == Pick(full, at[..n]) + [full[at[n]]]
  {
    var b := at[..n + 1];
    assert b != [] && Front(b) == at[..n] && Last(b) == at[n];
  }

  /** After the first arrival of a frame, gaps are holes in the positions. */
  lemma {:induction false} HolesShow(
    log: Log, full: seq<Packet>, at: seq<nat>, first: u16, ts: u32, from: nat, n: nat)
    requires SentFrame(full, first, ts) && Arrivals(at, |full|) && 0 < n <= |at| && from <= |log|
    ensures PositionsIn(at[..n], |full|)
    ensures Gapped(log + Pick(full, at[..n]), from) <==>
            Gapped(log + [full[at[0]]], from) || !NoHoles(at[..n], at[0])
    decreases n
  {
    hide Gapped, SentFrame;
    if n == 1 {
      assert at[..1] == [at[0]] && Pick(full, at[..1]) == [full[at[0]]];
    } else {
      HolesShow(log, full, at, first, ts, from, n - 1);
      PickSnoc(full, at, n - 1);
      var stream, p := log + Pick(full, at[..n - 1]), full[at[n - 1]];
      assert log + Pick(full, at[..n]) == stream + [p];
      assert Last(stream) == full[at[n - 2]];
      GappedSnoc(stream, p, from);
      GapIsHole(stream, full, first, ts, at[n - 2], at[n - 1]);
      NoHolesSnoc(at, n - 1, at[0]);
    }
  }

  /** The frame will be flagged: holes after its first arrival, or, unless that flushed, gaps
      that were pending or that it makes. */
  ghost predicate Broken(log: Log, p: Packet, at: seq<nat>)
    requires at != []
  {
    !NoHoles(at, at[0]) ||
    (!Flushes(log + [p]) && (Gapped(log, PendingStart(log)) || GapAt(log + [p], |log|)))
  }

  lemma GappedIsBroken(log: Log, full: seq<Packet>, at: seq<nat>, first: u16, ts: u32)
    requires SentFrame(full, first, ts) && Arrivals(at, |full|)
    ensures var got := Pick(full, at);
            Gapped(log + got, FrameStart(log, got[0])) <==> Broken(log, got[0], at)
  {
    var p := full[at[0]];
    var from := FrameStart(log, p);
    HolesShow(log, full, at, first, ts, from, |at|);
    assert at[..|at|] == at;
    GappedSnoc(log, p, from);
    assert !Flushes(log + [p]) ==> from == PendingStart(log);
    assert !Gapped(log, |log|);
  }

  /** What any arrivals of a frame do to the deliveries and to what is pending. */
  ghost predicate Outcome(log: Log, got: seq<Packet>, ts: u32, at: seq<nat>, n: nat)
    requires got != [] && at != []
  {
    var stream, p := log + got, got[0];
    if WithMarker(at, n) then
      Deliveries(stream) == Settled(log, p) + [Delivery(HeldOver(log, p) + got, ts, Broken(log, p, at))] &&
      Pending(stream) == []
    else
      Deliveries(stream) == Settled(log, p) && Pending(stream) == HeldOver(log, p) + got &&
      (Gapped(stream, PendingStart(stream)) <==> Broken(log, p, at)) &&
      (RunMarked(stream) <==> log != [] && Last(log).ts == ts && RunMarked(log))
  }

  lemma ArrivalsAreABody(full: seq<Packet>, at: seq<nat>, ts: u32)
    requires MarkedAtTheEnd(full, ts) && Arrivals(at, |full|)
    ensures var got := Pick(full, at);
            if WithMarker(at, |full|) then MarkedFrame(got, ts) else FrameBody(got, ts)
  {
  }

  /** A sent frame after any stream whatever, with any packets lost, repeated or out of order,
      and with or without its marker. */
  lemma FrameAfterAnything(log: Log, full: seq<Packet>, at: seq<nat>, first: u16, ts: u32)
    requires SentFrame(full, first, ts) && Arrivals(at, |full|)
    ensures Outcome(log, Pick(full, at), ts, at, |full|)
  {
    hide Deliveries, Gapped, Flushes, Broken, RunMarked, SentFrame, Settled, MarkedFrame, FrameBody;
    var got := Pick(full, at);
    assert MarkedAtTheEnd(full, ts) by {
      SentIsMarked(full, first, ts);
    }
    ArrivalsAreABody(full, at, ts);
    GappedIsBroken(log, full, at, first, ts);
    if WithMarker(at, |full|) {
      FrameArrives(log, got, ts);
    } else {
      BodyArrives(log, got, ts);
      PendingIsASuffix(log + got, HeldOver(log, got[0]) + got);
    }
  }

  lemma SentIsMarked(full: seq<Packet>, first: u16, ts: u32)
    requires SentFrame(full, first, ts)
    ensures MarkedAtTheEnd(full, ts)
  {
  }

  // ---------- What the flag is worth ----------

  /** The stream ended with the marker numbered before `first`, or is empty. */
  ghost predicate Follows(log: Log, first: u16) {
    BetweenFrames(log) && (log != [] ==> first == Succ16(Last(log).seqNo))
  }

  /** The position in the frame that follows the packets seen so far: the start after an
      earlier frame, anything at the beginning of the stream. */
  ghost function FirstExpected(log: Log, at: seq<nat>): nat
    requires at != []
  {
    if log == [] then at[0] else 0
  }

  lemma NumberIsPosition(first: u16, a: nat, b: nat)
    requires a < 0x1_0000 && b < 0x1_0000
    ensures (first + a) % 0x1_0000 == (first + b) % 0x1_0000 <==> a == b
  {
    var x, y := first + a, first + b;
    assert -0x1_0000 < y - x < 0x1_0000;
    assert y % 0x1_0000 == x % 0x1_0000 ==> (y - x) % 0x1_0000 == 0;
  }

  /** In a stream that follows on, the flag tells exactly the holes. */
  lemma BrokenMeansHoles(log: Log, full: seq<Packet>, at: seq<nat>, first: u16, ts: u32)
    requires SentFrame(full, first, ts) && Arrivals(at, |full|) && Follows(log, first)
    ensures Broken(log, full[at[0]], at) <==> !NoHoles(at, FirstExpected(log, at))
  {
    var p := full[at[0]];
    NothingHeldOver(log, p);
    assert p.seqNo == (first + at[0]) % 0x1_0000 && first == (first + 0) % 0x1_0000;
    NumberIsPosition(first, at[0], 0);
    assert GapAt(log + [p], |log|) <==> log != [] && p.seqNo != first;
  }

  lemma GappedMeansHoles(log: Log, full: seq<Packet>, at: seq<nat>, first: u16, ts: u32)
    requires SentFrame(full, first, ts) && Arrivals(at, |full|) && Follows(log, first)
    ensures Gapped(log + Pick(full, at), |log|) <==> !NoHoles(at, FirstExpected(log, at))
  {
    hide Gapped, Broken, SentFrame;
    GappedIsBroken(log, full, at, first, ts);
    BrokenMeansHoles(log, full, at, first, ts);
    NothingHeldOver(log, full[at[0]]);
  }

  lemma PacketIsPosition(full: seq<Packet>, first: u16, ts: u32, a: nat, b: nat)
    requires SentFrame(full, first, ts) && a < |full| && b < |full| && full[a] == full[b]
    ensures a == b
  {
    assert full[a].seqNo == (first + a) % 0x1_0000 && full[b].seqNo == (first + b) % 0x1_0000;
    NumberIsPosition(first, a, b);
  }

  /** Everything arrived, once and in order. */
  lemma WholeMeansNoHoles(full: seq<Packet>, at: seq<nat>, first: u16, ts: u32)
    requires SentFrame(full, first, ts) && Arrivals(at, |full|) && WithMarker(at, |full|)
    ensures Pick(full, at) == full <==> NoHoles(at, 0)
  {
    hide SentFrame;
    var got := Pick(full, at);
    if got == full {
      forall i | 0 <= i < |at|
        ensures at[i] == i
      {
        PacketIsPosition(full, first, ts, at[i], i);
      }
    }
    if NoHoles(at, 0) {
      assert at[|at| - 1] == |at| - 1;
    }
  }

  /** After any frame whose marker came, a frame is unflagged if and only if its packets arrived
      in order from some position on and the first carries the number after that marker. If the
      stream follows on, that means all of them, once and in order. */
  lemma UnflaggedIffExactlyAsSent(log: Log, full: seq<Packet>, at: seq<nat>, first: u16, ts: u32)
    requires SentFrame(full, first, ts) && Arrivals(at, |full|) && WithMarker(at, |full|)
    requires log != [] && BetweenFrames(log)
    ensures var got := Pick(full, at);
            var joined := NoHoles(at, at[0]) && got[0].seqNo == Succ16(Last(log).seqNo);
            Deliveries(log + got) == Deliveries(log) + [Delivery(got, ts, !joined)] &&
            (Follows(log, first) ==> (joined <==> got == full))
  {
    hide Deliveries, SentFrame, Gapped;
    var p := full[at[0]];
    FrameAfterAnything(log, full, at, first, ts);
    NothingHeldOver(log, p);
    NextToMarker(log, p);
    assert [] + Pick(full, at) == Pick(full, at);
    if Follows(log, first) {
      BrokenMeansHoles(log, full, at, first, ts);
      WholeMeansNoHoles(full, at, first, ts);
    }
  }

  lemma NextToMarker(log: Log, p: Packet)
    requires log != []
    ensures GapAt(log + [p], |log|) <==> p.seqNo != Succ16(Last(log).seqNo)
  {
  }

  lemma StartOfRun(at: seq<nat>, n: nat)
    requires at != []
    ensures NoHoles(at, 0) <==> NoHoles(at, at[0]) && at[0] == 0
  {
  }

  /** The flag for every stream before it: a marked frame comes out unflagged but not whole if
      and only if its packets arrived in order from a position other than the first, and either
      the first arrival flushed the frame before, or nothing pending has a gap and the first
      arrival opens the stream or happens to carry the number after the packet before it. */
  lemma UnflaggedButPartial(log: Log, full: seq<Packet>, at: seq<nat>, first: u16, ts: u32)
    requires SentFrame(full, first, ts) && Arrivals(at, |full|) && WithMarker(at, |full|)
    ensures var got := Pick(full, at);
            Deliveries(log + got) ==
              Settled(log, got[0]) + [Delivery(HeldOver(log, got[0]) + got, ts, Broken(log, got[0], at))] &&
            (!Broken(log, got[0], at) && got != full <==>
               NoHoles(at, at[0]) && at[0] > 0 &&
               (Flushes(log + [got[0]]) ||
                (!Gapped(log, PendingStart(log)) &&
                 (log == [] || (first + at[0]) % 0x1_0000 == Succ16(Last(log).seqNo)))))
  {
    hide Deliveries, Gapped, Flushes, NoHoles, Settled, HeldOver;
    var got := Pick(full, at);
    FrameAfterAnything(log, full, at, first, ts);
    WholeMeansNoHoles(full, at, first, ts);
    StartOfRun(at, |full|);
    assert got[0].seqNo == (first + at[0]) % 0x1_0000;
    if log != [] {
      NextToMarker(log, got[0]);
    }
  }

  /** Without a flush it takes a loss of a multiple of 2^16 packets in front of the frame: after
      a delivered marker numbered 6, the frame that starts at the next number 6 loses its first
      packet and shows no gap. */
  lemma LostWrapIsUnflagged(a: seq<Write>, b: seq<Write>, c: seq<Write>, d: seq<Write>)
    ensures var full := [Packet(6, 2, false, b), Packet(7, 2, false, c), Packet(8, 2, true, d)];
            var log := [Packet(6, 1, true, a)];
            SentFrame(full, 6, 2) && BetweenFrames(log) &&
            Deliveries(log + [full[1], full[2]]) == Deliveries(log) + [Delivery([full[1], full[2]], 2, false)]
  {
    hide Deliveries;
    var full := [Packet(6, 2, false, b), Packet(7, 2, false, c), Packet(8, 2, true, d)];
    var at: seq<nat> := [1, 2];
    UnflaggedIffExactlyAsSent([Packet(6, 1, true, a)], full, at, 6, 2);
    assert Pick(full, at) == [full[1], full[2]];
  }

  lemma FlushingPacket(log: Log, p: Packet, at: seq<nat>)
    requires log != [] && Flushes(log + [p]) && at != []
    ensures Settled(log, p) == Deliveries(log) + [Delivery(Pending(log), Last(log).ts, true)]
    ensures HeldOver(log, p) == [] && (Broken(log, p, at) <==> !NoHoles(at, at[0]))
  {
  }

  /** When the first arrival flushes the frame before, the gap in front of it is charged to
      that frame: this one is unflagged if and only if its packets arrived in order from some
      position on, and it lacks its head, unflagged, exactly if that position is not the first. */
  lemma FlushHidesMissingHead(log: Log, full: seq<Packet>, at: seq<nat>, first: u16, ts: u32)
    requires SentFrame(full, first, ts) && Arrivals(at, |full|) && WithMarker(at, |full|)
    requires log != [] && Flushes(log + [full[at[0]]])
    ensures var got := Pick(full, at);
            Deliveries(log + got) == Deliveries(log) +
              [Delivery(Pending(log), Last(log).ts, true), Delivery(got, ts, !NoHoles(at, at[0]))] &&
            (NoHoles(at, at[0]) && got != full <==> NoHoles(at, at[0]) && at[0] > 0)
  {
    hide Deliveries, SentFrame, Flushes, NoHoles, Settled, HeldOver, Broken;
    var got := Pick(full, at);
    FrameAfterAnything(log, full, at, first, ts);
    WholeMeansNoHoles(full, at, first, ts);
    StartOfRun(at, |full|);
    FlushingPacket(log, got[0], at);
    assert [] + got == got;
    var d := Delivery(got, ts, !NoHoles(at, at[0]));
    assert Settled(log, got[0]) + [d] == Deliveries(log) + [Delivery(Pending(log), Last(log).ts, true), d];
  }

  lemma OnePacketWaits(p: Packet)
    requires !p.marker
    ensures Deliveries([p]) == [] && Pending([p]) == [p] && !RunMarked([p])
  {
    assert [] + [p] == [p];
    PlainStep([], p);
    DeliveriesSnoc([], p);
    RunMarkedSnoc([], p);
  }

  /** The case is real: the end of one frame and the head of the next are lost together, and
      the next frame is delivered without its first packet and without a flag. */
  lemma HeadlessFrameIsUnflagged(a: seq<Write>, b: seq<Write>, c: seq<Write>, d: seq<Write>)
    ensures var full := [Packet(7, 2, false, b), Packet(8, 2, false, c), Packet(9, 2, true, d)];
            var log := [Packet(5, 1, false, a)];
            SentFrame(full, 7, 2) &&
            Deliveries(log + [full[1], full[2]]) == [Delivery(log, 1, true), Delivery([full[1], full[2]], 2, false)]
  {
    hide Deliveries, Pending, RunMarked, Flushes;
    var p := Packet(5, 1, false, a);
    var full := [Packet(7, 2, false, b), Packet(8, 2, false, c), Packet(9, 2, true, d)];
    var at: seq<nat> := [1, 2];
    OnePacketWaits(p);
    NewTimestampFlushes([p], full[1]);
    FlushHidesMissingHead([p], full, at, 7, 2);
    assert Pick(full, at) == [full[1], full[2]];
  }

  // ---------- Loss ----------

  lemma {:induction false} UpToLast(keep: seq<nat>, i: nat)
    requires Ascending(keep) && i < |keep|
    ensures keep[i] <= Last(keep) - (|keep| - 1 - i)
    decreases |keep| - i
  {
    if i + 1 == |keep| {
    } else {
      UpToLast(keep, i + 1);
      assert keep[i] < keep[i + 1];
    }
  }

  lemma {:induction false} AscendingGrows(keep: seq<nat>, i: nat)
    requires Ascending(keep) && i < |keep|
    ensures keep[i] >= keep[0] + i && keep[i] <= Last(keep) - (|keep| - 1 - i)
    decreases i
  {
    UpToLast(keep, i);
    if i == 0 {
    } else {
      AscendingGrows(keep, i - 1);
      assert keep[i - 1] < keep[i];
    }
  }

  /** Counting the arrivals finds the holes. */
  lemma HolesByCount(keep: seq<nat>, n: nat, start: nat)
    requires KeepsMarker(keep, n) && start <= keep[0]
    ensures NoHoles(keep, start) <==> |keep| == n - start
  {
    forall i | 0 <= i < |keep|
      ensures keep[i] >= keep[0] + i && keep[i] <= n - 1 - (|keep| - 1 - i)
    {
      AscendingGrows(keep, i);
    }
    assert NoHoles(keep, start) ==> keep[|keep| - 1] == start + |keep| - 1;
  }

  /** Bytes of `image` under the writes, zeros elsewhere. */
  ghost predicate PartOf(got: seq<byte>, image: seq<byte>, ws: seq<Write>) {
    |got| == |image| && forall j :: 0 <= j < |got| ==> got[j] == if Covered(ws, j) then image[j] else 0
  }

  lemma PickedWritesAreSlices(full: seq<Packet>, at: seq<nat>, image: seq<byte>)
    requires PositionsIn(at, |full|) && AllSlicesOf(AllWrites(full), image)
    ensures AllSlicesOf(AllWrites(Pick(full, at)), image)
  {
    forall w | w in AllWrites(Pick(full, at))
      ensures SliceOf(w, image)
    {
      WritesOfPackets(Pick(full, at), w);
      var p :| p in Pick(full, at) && w in p.writes;
      assert p in full;
      WritesOfPackets(full, w);
    }
  }

  /** `image` under the writes, `under` elsewhere. */
  ghost predicate PaintedOver(got: seq<byte>, under: seq<byte>, image: seq<byte>, ws: seq<Write>) {
    |got| == |image| == |under| &&
    forall j :: 0 <= j < |got| ==> got[j] == if Covered(ws, j) then image[j] else under[j]
  }

  lemma {:induction false} ImageConcat(size: nat, a: seq<Packet>, b: seq<Packet>)
    ensures Image(size, a + b) == Apply(Image(size, a), AllWrites(b))
    decreases |b|
  {
    if b == [] {
      assert a + b == a;
    } else {
      ImageConcat(size, a, Front(b));
      FrontThenLast(b);
      assert a + b == a + Front(b) + [Last(b)];
      ImageSnoc(size, a + Front(b), Last(b));
      ApplyConcat(Image(size, a), AllWrites(Front(b)), Last(b).writes);
    }
  }

  /** Any packets of a frame, in any order and with any repetition, paint the image under the
      segments that arrived and leave what was there elsewhere: zeros, or packets held over. */
  lemma PartArrives(held: seq<Packet>, full: seq<Packet>, at: seq<nat>, image: seq<byte>)
    requires PositionsIn(at, |full|) && AllSlicesOf(AllWrites(full), image)
    ensures var got := Pick(full, at);
            PaintedOver(Image(|image|, held + got), Image(|image|, held), image, AllWrites(got)) &&
            PartOf(Image(|image|, got), image, AllWrites(got))
  {
    var got := Pick(full, at);
    PickedWritesAreSlices(full, at, image);
    ImageConcat(|image|, held, got);
    SlicesRebuildImage(Image(|image|, held), AllWrites(got), image);
    SlicesRebuildImage(Zeros(|image|), AllWrites(got), image);
  }

  /** Losses alone are counted: how many packets are missing between the first expected one
      and the marker. */
  lemma BrokenMeansMissing(log: Log, full: seq<Packet>, keep: seq<nat>, first: u16, ts: u32)
    requires SentFrame(full, first, ts) && KeepsMarker(keep, |full|) && Follows(log, first)
    ensures var missing := |full| - |keep| - FirstExpected(log, keep);
            missing >= 0 && (Broken(log, full[keep[0]], keep) <==> missing != 0)
  {
    hide Broken, SentFrame;
    KeptPacketsArrive(keep, |full|);
    BrokenMeansHoles(log, full, keep, first, ts);
    HolesByCount(keep, |full|, FirstExpected(log, keep));
    AscendingGrows(keep, 0);
  }

  /** Any packets of a frame may be lost, repeated or reordered as long as the marker comes
      last and no earlier frame is held over: one frame is handed over, it is the whole image
      under the segments that arrived and zero elsewhere. With losses alone, after the marker
      with the number before, it is flagged exactly when a packet is missing; at the beginning
      of the stream the packets before the first arrival are not missed, and neither are they
      after a flush, which takes the gap in front of it. */
  lemma LossShowsAsZerosAndFlag(
    log: Log, full: seq<Packet>, at: seq<nat>, first: u16, ts: u32, image: seq<byte>)
    requires SentFrame(full, first, ts) && Arrivals(at, |full|) && WithMarker(at, |full|)
    requires HeldOver(log, full[at[0]]) == [] && AllSlicesOf(AllWrites(full), image)
    ensures var got := Pick(full, at);
            Deliveries(log + got) == Settled(log, got[0]) + [Delivery(got, ts, Broken(log, got[0], at))] &&
            PartOf(Image(|image|, got), image, AllWrites(got))
    ensures Follows(log, first) && Ascending(at) ==>
              Settled(log, full[at[0]]) == Deliveries(log) &&
              (Broken(log, full[at[0]], at) <==> |full| - |at| - FirstExpected(log, at) != 0)
    ensures Flushes(log + [full[at[0]]]) ==> (Broken(log, full[at[0]], at) <==> !NoHoles(at, at[0]))
  {
    hide Deliveries, SentFrame, AllSlicesOf, AllWrites, PartOf, PaintedOver, Gapped, Settled, HeldOver;
    FrameAfterAnything(log, full, at, first, ts);
    PartArrives([], full, at, image);
    assert [] + Pick(full, at) == Pick(full, at);
    if Follows(log, first) {
      NothingHeldOver(log, full[at[0]]);
      if Ascending(at) {
        BrokenMeansMissing(log, full, at, first, ts);
      }
    }
  }

  /** The usual case: losses alone, after a marker with the number before or at the start. */
  lemma LossesAlone(
    log: Log, full: seq<Packet>, keep: seq<nat>, first: u16, ts: u32, image: seq<byte>)
    requires SentFrame(full, first, ts) && KeepsMarker(keep, |full|) && Follows(log, first)
    requires AllSlicesOf(AllWrites(full), image)
    ensures var got := Pick(full, keep);
            var missing := |full| - |keep| - FirstExpected(log, keep);
            Deliveries(log + got) == Deliveries(log) + [Delivery(got, ts, missing != 0)] && missing >= 0 &&
            PartOf(Image(|image|, got), image, AllWrites(got))
  {
    hide Deliveries, Broken, SentFrame, AllSlicesOf, AllWrites, PartOf, Settled, HeldOver;
    KeptPacketsArrive(keep, |full|);
    NothingHeldOver(log, full[keep[0]]);
    BrokenMeansMissing(log, full, keep, first, ts);
    LossShowsAsZerosAndFlag(log, full, keep, first, ts, image);
  }
}
