/** Frame boundaries and loss, stated over the whole log of accepted packets. */
module Stream {
  import opened Bytes
  import opened Overlay
  import opened Wire

  type Log = seq<Packet>

  /** Packet `i` carries a marker and every packet from it on has the last timestamp. */
  ghost predicate MarkedSince(log: Log, i: int) {
    0 <= i < |log| && log[i].marker && forall j :: i <= j < |log| ==> log[j].ts == Last(log).ts
  }

  /** The packets at the end of the log that share its last timestamp include a marker. */
  ghost predicate RunMarked(log: Log) {
    exists i :: MarkedSince(log, i)
  }

  /** The last packet ends the frame before it without a marker: it has a new
      timestamp, no marker of its own, and the old timestamp never had one. */
  ghost predicate Flushes(log: Log) {
    |log| >= 2 &&
    Last(log).ts != Last(Front(log)).ts &&
    !Last(log).marker &&
    !RunMarked(Front(log))
  }

  /** Where the packets of the frame still being filled begin. */
  ghost function PendingStart(log: Log): (n: nat)
    ensures n <= |log|
  {
    if log == [] then 0
    else if Last(log).marker then |log|
    else if Flushes(log) then |log| - 1
    else PendingStart(Front(log))
  }

  ghost function Pending(log: Log): Log {
    log[PendingStart(log)..]
  }

  /** Packet `k` does not carry the number after its predecessor's. */
  ghost predicate GapAt(log: Log, k: int) {
    0 < k < |log| && log[k].seqNo != Succ16(log[k - 1].seqNo)
  }

  ghost predicate FlushesAt(log: Log, k: int) {
    0 <= k < |log| && Flushes(log[..k + 1])
  }

  /** A gap at packet `k` that counts against a frame beginning at `from`. A gap on
      the packet that flushed the frame before is charged to that frame. */
  ghost predicate ChargedGap(log: Log, from: nat, k: int) {
    from <= k && GapAt(log, k) && !(k == from && FlushesAt(log, k))
  }

  ghost predicate Gapped(log: Log, from: nat) {
    exists k :: ChargedGap(log, from, k)
  }

  /** One frame handed over: the packets behind it, its timestamp and its flag. */
  datatype Delivery = Delivery(packets: seq<Packet>, ts: u32, incomplete: bool)

  /** What the last packet of the log delivers. A marker closes the frame with
      itself inside, a flush closes it without the flushing packet. */
  ghost function DeliveredBy(log: Log): (ds: seq<Delivery>)
    requires log != []
    ensures |ds| <= 1
  {
    var before := Front(log);
    if Last(log).marker then
      [Delivery(log[PendingStart(before)..], Last(log).ts, Gapped(log, PendingStart(before)))]
    else if Flushes(log) then
      [Delivery(Pending(before), Last(before).ts, true)]
    else
      []
  }

  ghost function Deliveries(log: Log): seq<Delivery> {
    if log == [] then [] else Deliveries(Front(log)) + DeliveredBy(log)
  }

  /** Packets taken to be missing in front of the last one, in 16-bit arithmetic. */
  ghost function LostBefore(log: Log): nat {
    if |log| < 2 then 0 else Diff16(Last(log).seqNo, Succ16(log[|log| - 2].seqNo))
  }

  ghost function TotalLost(log: Log): nat {
    if log == [] then 0 else TotalLost(Front(log)) + LostBefore(log)
  }

  /** All copies made for a list of packets. */
  ghost function AllWrites(ps: seq<Packet>): seq<Write> {
    if ps == [] then [] else AllWrites(Front(ps)) + Last(ps).writes
  }

  /** The `size` bytes a list of packets paints, starting from zeros. */
  ghost function Image(size: nat, ps: seq<Packet>): (r: seq<byte>)
    ensures |r| == size
  {
    Apply(Zeros(size), AllWrites(ps))
  }

  lemma ImageSnoc(size: nat, ps: seq<Packet>, p: Packet)
    ensures Image(size, ps + [p]) == Apply(Image(size, ps), p.writes)
  {
    assert Front(ps + [p]) == ps;
    ApplyConcat(Zeros(size), AllWrites(ps), p.writes);
  }

  lemma ImageOfOne(size: nat, p: Packet)
    ensures Image(size, [p]) == Apply(Zeros(size), p.writes)
  {
    assert [] + [p] == [p];
    ImageSnoc(size, [], p);
  }

  // ---------- One more packet ----------

  lemma RunMarkedSnoc(log: Log, p: Packet)
    ensures RunMarked(log + [p]) <==> p.marker || (log != [] && p.ts == Last(log).ts && RunMarked(log))
  {
    var log' := log + [p];
    if p.marker {
      assert MarkedSince(log', |log|);
    } else if RunMarked(log') {
      var i :| MarkedSince(log', i);
      assert log'[|log| - 1].ts == p.ts;
      forall j | i <= j < |log|
        ensures log[j].ts == Last(log).ts
      {
        assert log'[j].ts == p.ts;
      }
      assert MarkedSince(log, i);
    }
    if log != [] && p.ts == Last(log).ts && RunMarked(log) {
      var i :| MarkedSince(log, i);
      assert MarkedSince(log', i);
    }
  }

  lemma GappedSnoc(log: Log, p: Packet, from: nat)
    requires from <= |log|
    ensures Gapped(log + [p], from) <==> Gapped(log, from) || ChargedGap(log + [p], from, |log|)
    ensures ChargedGap(log + [p], from, |log|) <==>
            GapAt(log + [p], |log|) && !(from == |log| && Flushes(log + [p]))
  {
    var log' := log + [p];
    assert log'[..|log| + 1] == log';
    forall k | k < |log|
      ensures ChargedGap(log', from, k) <==> ChargedGap(log, from, k)
    {
      if 0 <= k {
        assert log'[..k + 1] == log[..k + 1];
      }
    }
    if Gapped(log, from) {
      var k :| ChargedGap(log, from, k);
      assert ChargedGap(log', from, k);
    }
  }

  lemma DeliveriesSnoc(log: Log, p: Packet)
    ensures Deliveries(log + [p]) == Deliveries(log) + DeliveredBy(log + [p])
  {
    assert Front(log + [p]) == log;
  }

  lemma PendingStartSnoc(log: Log, p: Packet)
    ensures PendingStart(log + [p]) ==
            if p.marker then |log| + 1 else if Flushes(log + [p]) then |log| else PendingStart(log)
  {
    assert Front(log + [p]) == log;
  }

  lemma SuffixSnoc<T>(s: seq<T>, x: T, n: nat)
    requires n <= |s|
    ensures (s + [x])[n..] == s[n..] + [x]
  {
  }

  lemma FlushStep(log: Log, p: Packet)
    requires Flushes(log + [p])
    ensures DeliveredBy(log + [p]) == [Delivery(Pending(log), Last(log).ts, true)]
    ensures Pending(log + [p]) == [p] && !Gapped(log + [p], PendingStart(log + [p]))
  {
    assert Front(log + [p]) == log && Last(log + [p]) == p;
    PendingStartSnoc(log, p);
    GappedSnoc(log, p, |log|);
  }

  lemma MarkerStep(log: Log, p: Packet)
    requires p.marker
    ensures DeliveredBy(log + [p]) ==
            [Delivery(Pending(log) + [p], p.ts, Gapped(log, PendingStart(log)) || GapAt(log + [p], |log|))]
    ensures Pending(log + [p]) == [] && !Gapped(log + [p], PendingStart(log + [p]))
  {
    var log' := log + [p];
    assert Front(log') == log && Last(log') == p;
    PendingStartSnoc(log, p);
    GappedSnoc(log, p, PendingStart(log));
    SuffixSnoc(log, p, PendingStart(log));
  }

  lemma PlainStep(log: Log, p: Packet)
    requires !p.marker && !Flushes(log + [p])
    ensures DeliveredBy(log + [p]) == []
    ensures PendingStart(log + [p]) == PendingStart(log) && Pending(log + [p]) == Pending(log) + [p]
    ensures Gapped(log + [p], PendingStart(log + [p])) <==>
            Gapped(log, PendingStart(log)) || GapAt(log + [p], |log|)
  {
    PendingStartSnoc(log, p);
    GappedSnoc(log, p, PendingStart(log));
    SuffixSnoc(log, p, PendingStart(log));
  }
}
