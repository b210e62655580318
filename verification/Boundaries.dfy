/** How every stream of packets is cut into frames, and what the flags and the
    loss count of those frames say. */
module Boundaries {
  import opened Bytes
  import opened Wire
  import opened Stream
  import opened Assembler

  // ---------- Partition ----------

  /** The packets behind a list of deliveries, in order. */
  ghost function Flat(ds: seq<Delivery>): Log {
    if ds == [] then [] else Flat(Front(ds)) + Last(ds).packets
  }

  lemma FlatSnoc(ds: seq<Delivery>, d: Delivery)
    ensures Flat(ds + [d]) == Flat(ds) + d.packets
  {
    assert Front(ds + [d]) == ds;
  }

  /** Nothing is pending exactly after a marker (or before the first packet). */
  lemma PendingIsEmptyAfterMarker(log: Log)
    ensures Pending(log) == [] <==> log == [] || Last(log).marker
    ensures Pending(log) != [] ==> Last(Pending(log)) == Last(log)
  {
  }

  lemma FlushedFrameHasPackets(log: Log)
    requires Flushes(log)
    ensures Pending(Front(log)) != [] && !Last(Front(log)).marker
  {
    var before := Front(log);
    PendingIsEmptyAfterMarker(before);
    if Last(before).marker {
      assert MarkedSince(before, |before| - 1);
    }
  }

  ghost predicate WellCut(d: Delivery) {
    d.packets != [] && d.ts == Last(d.packets).ts
  }

  lemma DeliveredByIsWellCut(log: Log)
    requires log != []
    ensures forall d :: d in DeliveredBy(log) ==> WellCut(d)
  {
    if !Last(log).marker && Flushes(log) {
      FlushedFrameHasPackets(log);
      PendingIsEmptyAfterMarker(Front(log));
    }
  }

  lemma PartitionStep(log: Log, p: Packet)
    requires Flat(Deliveries(log)) + Pending(log) == log
    ensures Flat(Deliveries(log + [p])) + Pending(log + [p]) == log + [p]
  {
    var was, now := Deliveries(log), DeliveredBy(log + [p]);
    DeliveriesSnoc(log, p);
    if p.marker {
      MarkerStep(log, p);
      FlatSnoc(was, now[0]);
    } else if Flushes(log + [p]) {
      FlushStep(log, p);
      FlatSnoc(was, now[0]);
    } else {
      PlainStep(log, p);
      assert was + now == was;
    }
  }

  lemma {:induction false} DeliveriesAreWellCut(log: Log)
    ensures forall d :: d in Deliveries(log) ==> WellCut(d)
  {
    if log == [] {
    } else {
      DeliveriesAreWellCut(Front(log));
      DeliveredByIsWellCut(log);
    }
  }

  lemma PartitionOf(log: Log, before: Log, p: Packet)
    requires log == before + [p] && Flat(Deliveries(before)) + Pending(before) == before
    ensures Flat(Deliveries(log)) + Pending(log) == log
  {
    PartitionStep(before, p);
  }

  lemma {:induction false} LogIsPartitioned(log: Log)
    ensures Flat(Deliveries(log)) + Pending(log) == log
  {
    if log == [] {
      assert Deliveries(log) == [] && Pending(log) == [];
    } else {
      var before, p := Front(log), Last(log);
      FrontThenLast(log);
      LogIsPartitioned(before);
      PartitionOf(log, before, p);
    }
  }

  /** The packets behind the deliveries, then the pending ones, are the accepted
      packets: none lost, none twice, none reordered, and no frame without packets. */
  lemma StreamPartition(log: Log)
    ensures Flat(Deliveries(log)) + Pending(log) == log
    ensures forall d :: d in Deliveries(log) ==> WellCut(d)
  {
    LogIsPartitioned(log);
    DeliveriesAreWellCut(log);
  }

  // ---------- The incomplete flag ----------

  /** Packet `j` of the log breaks the numbering inside the frame that begins at `from`. */
  ghost predicate BreaksFrame(log: Log, from: nat, to: nat, j: int) {
    j < to && ChargedGap(log, from, j)
  }

  /** Delivery `d` is the packets `from..to` of the log, and its flag says: no marker
      at the end, or a gap inside. */
  ghost predicate FlaggedExactly(log: Log, d: Delivery, from: nat, to: nat) {
    from < to <= |log| && d.packets == log[from..to] &&
    (d.incomplete <==> !log[to - 1].marker || exists j :: BreaksFrame(log, from, to, j))
  }

  lemma FlagSurvives(log: Log, p: Packet, d: Delivery, from: nat, to: nat)
    requires FlaggedExactly(log, d, from, to)
    ensures FlaggedExactly(log + [p], d, from, to)
  {
    var log' := log + [p];
    assert log'[from..to] == log[from..to];
    forall j
      ensures BreaksFrame(log', from, to, j) <==> BreaksFrame(log, from, to, j)
    {
      if 0 <= j < to {
        assert log'[..j + 1] == log[..j + 1];
      }
    }
  }

  lemma PrefixOfConcat<T>(a: seq<T>, b: seq<T>, k: nat)
    requires k <= |a|
    ensures (a + b)[..k] == a[..k]
  {
  }

  lemma OneOnTop<T>(a: seq<T>, b: seq<T>)
    requires |b| == 1
    ensures (a + b)[..|a|] == a && (a + b)[..|a| + 1] == a + b == a + [b[0]] && (a + b)[|a|] == b[0]
  {
  }

  lemma GappedIsABreak(log: Log, from: nat)
    ensures Gapped(log, from) <==> exists j :: BreaksFrame(log, from, |log|, j)
  {
    if Gapped(log, from) {
      var j :| ChargedGap(log, from, j);
      assert BreaksFrame(log, from, |log|, j);
    }
  }

  lemma NewFlag(log: Log)
    requires log != [] && DeliveredBy(log) != []
    ensures var from := PendingStart(Front(log));
            FlaggedExactly(log, DeliveredBy(log)[0], from, from + |DeliveredBy(log)[0].packets|)
  {
    var before, from := Front(log), PendingStart(Front(log));
    var d := DeliveredBy(log)[0];
    if Last(log).marker {
      GappedIsABreak(log, from);
      PendingIsEmptyAfterMarker(before);
      assert d.packets == log[from..|log|];
    } else {
      FlushedFrameHasPackets(log);
      assert d.packets == before[from..] == log[from..|before|];
    }
  }

  /** The exact meaning of `incomplete` in every stream: the `k`-th frame is flagged
      if and only if no marker ended it, or one of its packets did not carry the number
      after its predecessor's; the first packet ever and a first packet that flushed the
      frame before do not count. */
  lemma {:induction false} IncompleteMeansGapOrNoMarker(log: Log, k: nat)
    requires k < |Deliveries(log)|
    ensures var ds := Deliveries(log);
            FlaggedExactly(log, ds[k], |Flat(ds[..k])|, |Flat(ds[..k + 1])|)
  {
    hide FlaggedExactly, Flat, DeliveredBy;
    var before, p := Front(log), Last(log);
    if k < |Deliveries(before)| {
      IncompleteMeansGapOrNoMarker(before, k);
      OldFlag(log, before, p, k);
    } else {
      NewestFlag(log, before, p);
    }
  }

  lemma OldFlag(log: Log, before: Log, p: Packet, k: nat)
    requires log == before + [p] && k < |Deliveries(before)|
    requires var was := Deliveries(before);
             FlaggedExactly(before, was[k], |Flat(was[..k])|, |Flat(was[..k + 1])|)
    ensures var ds := Deliveries(log);
            |ds| > k && FlaggedExactly(log, ds[k], |Flat(ds[..k])|, |Flat(ds[..k + 1])|)
  {
    var was, now := Deliveries(before), DeliveredBy(log);
    DeliveriesSnoc(before, p);
    PrefixOfConcat(was, now, k);
    PrefixOfConcat(was, now, k + 1);
    FlagSurvives(before, p, was[k], |Flat(was[..k])|, |Flat(was[..k + 1])|);
  }

  lemma NewestFlag(log: Log, before: Log, p: Packet)
    requires log == before + [p] && |Deliveries(log)| > |Deliveries(before)|
    ensures var ds, k := Deliveries(log), |Deliveries(before)|;
            |ds| == k + 1 && FlaggedExactly(log, ds[k], |Flat(ds[..k])|, |Flat(ds[..k + 1])|)
  {
    hide FlaggedExactly, DeliveredBy, PendingStart;
    var was, now := Deliveries(before), DeliveredBy(log);
    DeliveriesSnoc(before, p);
    LogIsPartitioned(before);
    LengthOfParts(before);
    assert Front(log) == before;
    NewFlag(log);
    OneOnTop(was, now);
    FlatSnoc(was, now[0]);
  }

  lemma LengthOfParts(log: Log)
    requires Flat(Deliveries(log)) + Pending(log) == log
    ensures |Flat(Deliveries(log))| == PendingStart(log)
  {
    assert |Pending(log)| == |log| - PendingStart(log);
  }

  // ---------- Frames and timestamps ----------

  ghost predicate OneTimestamp(ps: seq<Packet>) {
    forall i :: 0 <= i < |ps| ==> ps[i].ts == Last(ps).ts
  }

  /** No delivered or pending frame mixes timestamps. */
  ghost predicate TimestampsSeparate(log: Log) {
    OneTimestamp(Pending(log)) && forall d :: d in Deliveries(log) ==> OneTimestamp(d.packets)
  }

  /** Packet `k` changes the timestamp in a way the receiver recognises: right after a
      marker, or as a packet without marker after a timestamp that never had one. */
  ghost predicate CleanChange(log: Log, k: nat)
    requires k < |log|
  {
    k > 0 && log[k].ts != log[k - 1].ts && !log[k - 1].marker ==>
      !log[k].marker && !RunMarked(log[..k])
  }

  ghost predicate CleanStream(log: Log) {
    forall k: nat :: k < |log| ==> CleanChange(log, k)
  }

  lemma CleanStreamSnoc(log: Log, p: Packet)
    ensures CleanStream(log + [p]) <==> CleanStream(log) && CleanChange(log + [p], |log|)
  {
    var log' := log + [p];
    forall k: nat | k < |log|
      ensures CleanChange(log', k) <==> CleanChange(log, k)
    {
      assert log'[..k] == log[..k];
    }
  }

  lemma OneTimestampSnoc(ps: seq<Packet>, p: Packet)
    ensures OneTimestamp(ps + [p]) <==> ps == [] || (OneTimestamp(ps) && Last(ps).ts == p.ts)
  {
    var ps' := ps + [p];
    if OneTimestamp(ps') && ps != [] {
      assert ps'[|ps| - 1].ts == p.ts;
      assert forall i :: 0 <= i < |ps| ==> ps[i] == ps'[i];
    }
  }

  lemma SeparateSnoc(log: Log, p: Packet)
    ensures TimestampsSeparate(log + [p]) <==>
            OneTimestamp(Pending(log + [p])) &&
            (forall d :: d in DeliveredBy(log + [p]) ==> OneTimestamp(d.packets)) &&
            (forall d :: d in Deliveries(log) ==> OneTimestamp(d.packets))
  {
    DeliveriesSnoc(log, p);
    assert forall d :: d in Deliveries(log + [p]) <==> d in Deliveries(log) || d in DeliveredBy(log + [p]);
  }

  lemma SeparateStep(log: Log, p: Packet)
    ensures TimestampsSeparate(log + [p]) <==> TimestampsSeparate(log) && CleanChange(log + [p], |log|)
  {
    var log' := log + [p];
    assert log'[..|log|] == log && Front(log') == log;
    SeparateSnoc(log, p);
    PendingIsEmptyAfterMarker(log);
    OneTimestampSnoc(Pending(log), p);
    if p.marker {
      MarkerStep(log, p);
      assert DeliveredBy(log')[0] in DeliveredBy(log');
    } else if Flushes(log') {
      FlushStep(log, p);
      FlushedFrameHasPackets(log');
      assert DeliveredBy(log')[0] in DeliveredBy(log');
    } else {
      PlainStep(log, p);
    }
  }

  /** Frames keep their timestamps apart if and only if every change of timestamp is a
      clean one. A marker that itself opens a new timestamp over an unfinished frame
      merges two frames, and so does a packet that trails a marker. */
  lemma {:induction false} TimestampsSeparateIffClean(log: Log)
    ensures TimestampsSeparate(log) <==> CleanStream(log)
  {
    if log == [] {
    } else {
      var before, p := Front(log), Last(log);
      assert log == before + [p];
      TimestampsSeparateIffClean(before);
      CleanStreamSnoc(before, p);
      SeparateStep(before, p);
    }
  }

  /** The timestamp handed to the callback is that of the frame's last packet, hence of
      all its packets in a clean stream; in nanoseconds it is what a 90 kHz clock reads, and the
      product on the way fits 64 bits. */
  lemma DeliveredTimestamp(log: Log, d: Delivery, g: Geometry, fmt: PixelFormat, k: nat)
    requires d in Deliveries(log)
    ensures WellCut(d) && d.ts * 1_000_000_000 < 0x1_0000_0000_0000_0000
    ensures CleanStream(log) ==> forall p :: p in d.packets ==> p.ts == d.ts
    ensures 0 <= d.ts * 1_000_000_000 - 90_000 * FrameOf(g, fmt, d, k).timestampNs < 90_000
  {
    StreamPartition(log);
    TimestampsSeparateIffClean(log);
    NsOfTicks(d.ts);
  }

  /** Without cleanness frames do merge: an unfinished frame with timestamp 1 and a marker
      packet with timestamp 2 come out as one frame, and it is not even flagged. */
  lemma MarkerMergesFrames(a: seq<Overlay.Write>, b: seq<Overlay.Write>)
    ensures var log := [Packet(7, 1, false, a), Packet(8, 2, true, b)];
            Deliveries(log) == [Delivery(log, 2, false)] && !CleanStream(log)
  {
    var p, q := Packet(7, 1, false, a), Packet(8, 2, true, b);
    assert [] + [p] == [p] && [p] + [q] == [p, q];
    PlainStep([], p);
    MarkerStep([p], q);
    DeliveriesSnoc([], p);
    DeliveriesSnoc([p], q);
    assert !CleanChange([p, q], 1);
  }

  // ---------- Loss ----------

  lemma DiffIsCongruent(a: u16, b: u16) returns (wraps: int)
    ensures Diff16(a, Succ16(b)) == a - b - 1 + 0x1_0000 * wraps
  {
    var next := Succ16(b);
    assert next == b + 1 || next == b + 1 - 0x1_0000;
    assert Diff16(a, next) == a - next || Diff16(a, next) == a - next + 0x1_0000;
    var d := Diff16(a, next) - (a - b - 1);
    wraps := if d < 0 then -1 else if d == 0 then 0 else if d == 0x1_0000 then 1 else 2;
  }

  lemma WholeWraps(x: int, wraps: int)
    requires x == 0x1_0000 * wraps
    ensures x % 0x1_0000 == 0
  {
  }

  lemma {:induction false} LossUpToWraps(log: Log) returns (wraps: int)
    requires log != []
    ensures TotalLost(log) == Last(log).seqNo - log[0].seqNo - (|log| - 1) + 0x1_0000 * wraps
  {
    if |log| == 1 {
      assert Front(log) == [];
      wraps := 0;
    } else {
      var w := LossUpToWraps(Front(log));
      var v := DiffIsCongruent(Last(log).seqNo, Last(Front(log)).seqNo);
      wraps := w + v;
    }
  }

  /** Over every run, whatever was lost, repeated or reordered, the total is the distance
      between the last and the first number less the packets in between, modulo 2^16. */
  lemma LossTelescopes(log: Log)
    requires log != []
    ensures (TotalLost(log) - (Last(log).seqNo - log[0].seqNo - (|log| - 1))) % 0x1_0000 == 0
  {
    var wraps := LossUpToWraps(log);
    WholeWraps(TotalLost(log) - (Last(log).seqNo - log[0].seqNo - (|log| - 1)), wraps);
  }

  /** `sent[i]` is the unwrapped number of the `i`-th accepted packet. */
  ghost predicate CarriesNumbers(log: Log, sent: seq<int>) {
    |sent| == |log| && forall i :: 0 <= i < |log| ==> log[i].seqNo == sent[i] % 0x1_0000
  }

  /** Packets missing between neighbours, summed. */
  ghost function Missing(sent: seq<int>): int {
    if |sent| < 2 then 0 else Missing(Front(sent)) + (Last(sent) - sent[|sent| - 2] - 1)
  }

  /** The most one gap can hide. */
  ghost predicate GapsBelowWrap(sent: seq<int>) {
    forall i :: 0 < i < |sent| ==> 0 <= sent[i] - sent[i - 1] - 1 < 0x1_0000
  }

  lemma {:induction false} MissingIsRangeLessReceived(sent: seq<int>)
    requires sent != []
    ensures Missing(sent) == Last(sent) - sent[0] + 1 - |sent|
  {
    if |sent| <= 1 {
    } else {
      MissingIsRangeLessReceived(Front(sent));
    }
  }

  lemma WrappedDifference(a: int, b: int)
    requires 0 <= b - a - 1 < 0x1_0000
    ensures Diff16(b % 0x1_0000, Succ16(a % 0x1_0000)) == b - a - 1
  {
    var next := Succ16(a % 0x1_0000);
    assert next == (a + 1) % 0x1_0000;
    assert (b % 0x1_0000 - next) % 0x1_0000 == (b - (a + 1)) % 0x1_0000;
  }

  /** While numbers ascend and no single gap reaches 2^16 packets, the count is exact,
      across any number of wraps. */
  lemma {:induction false} LossIsExact(log: Log, sent: seq<int>)
    requires log != [] && CarriesNumbers(log, sent) && GapsBelowWrap(sent)
    ensures TotalLost(log) == Missing(sent) == Last(sent) - sent[0] + 1 - |log|
  {
    MissingIsRangeLessReceived(sent);
    if |log| == 1 {
      assert Front(log) == [];
    } else {
      LossIsExact(Front(log), Front(sent));
      MissingIsRangeLessReceived(Front(sent));
      WrappedDifference(sent[|log| - 2], sent[|log| - 1]);
    }
  }
}
