/** The statistics under concurrency: one writing thread, any number of readers, every
    atomic access one step, in any interleaving. */
module Seqlock {
  import opened Bytes
  import opened Stats

  // ---------- The machine ----------

  /** What the writer publishes under the lock. */
  datatype Pair = Pair(jitter: real, gap: real)

  /** What one packet adds to the averages. */
  datatype Sample = Sample(jitter: int, gap: int)

  /** The averages moved by one sample. */
  ghost function Moved(p: Pair, x: Sample): Pair {
    Pair(p.jitter + (x.jitter as real - p.jitter) * JITTER_SHARE, p.gap + (x.gap as real - p.gap) * GAP_SHARE)
  }

  /** The writer between its accesses; `Frame` is between the two frame counters. */
  datatype Writer = Idle | Locked(x: Sample) | HalfWritten(x: Sample) | Written(x: Sample) | Frame

  /** A reader's loads of the two frame counters. For the record: how many frames were recorded
      at the second load, and how many of these were counted to the end, drop included. */
  datatype Loads = Loads(received: nat, dropped: nat, recorded: nat, settled: nat)

  /** For the record: over how many samples each of the two values read is the average. */
  datatype Ages = Ages(jitter: nat, gap: nat)

  /** A reader between its accesses. `attempts` counts finished rounds of the retry loop. */
  datatype Reader =
    | Start
    | Counted(received: nat)
    | Loop(loads: Loads, attempts: nat)
    | HaveSeq(loads: Loads, attempts: nat, seq1: nat)
    | HaveJitter(loads: Loads, attempts: nat, seq1: nat, jitter: real, age: nat)
    | HavePair(loads: Loads, attempts: nat, seq1: nat, out: Pair, ages: Ages)
    | Done(loads: Loads, attempts: nat, seq1: nat, seq2: nat, out: Pair, ages: Ages)

  /** Shared memory, the threads, and for the record every pair ever published, the samples
      that led there, and for each frame recorded whether it was incomplete. */
  datatype System = System(framesReceived: nat, framesDropped: nat, lock: nat, current: Pair, writer: Writer,
                           readers: map<nat, Reader>, published: seq<Pair>, samples: seq<Sample>,
                           frames: seq<bool>)

  const GIVE_UP: nat := 1000

  ghost predicate Init(s: System) {
    s.framesReceived == 0 && s.framesDropped == 0 && s.lock == 0 && s.current == Pair(0.0, 0.0) &&
    s.writer == Idle && s.published == [s.current] && s.samples == [] && s.frames == [] &&
    forall r :: r in s.readers ==> s.readers[r] == Start
  }

  /** The writer: lock, two plain stores, unlock; or the frame counters. The sample and
      `incomplete` are the writer's input. */
  datatype WriterStep = Lock(x: Sample) | StoreJitter | StoreGap | Unlock | CountFrame(incomplete: bool) | CountDrop

  ghost predicate WriterMoves(s: System, t: System, step: WriterStep) {
    match step
    case Lock(x) =>
      s.writer == Idle && t == s.(lock := s.lock + 1, writer := Locked(x))
    case StoreJitter =>
      s.writer.Locked? &&
      t == s.(current := s.current.(jitter := Moved(s.current, s.writer.x).jitter), writer := HalfWritten(s.writer.x))
    case StoreGap =>
      s.writer.HalfWritten? &&
      t == s.(current := s.current.(gap := Moved(s.current, s.writer.x).gap), writer := Written(s.writer.x))
    case Unlock =>
      s.writer.Written? &&
      t == s.(lock := s.lock + 1, writer := Idle,
              published := s.published + [s.current], samples := s.samples + [s.writer.x])
    case CountFrame(incomplete) =>
      s.writer == Idle &&
      t == s.(framesReceived := s.framesReceived + 1, writer := if incomplete then Frame else Idle,
              frames := s.frames + [incomplete])
    case CountDrop =>
      s.writer == Frame && t == s.(framesDropped := s.framesDropped + 1, writer := Idle)
  }

  /** Frames whose counters are both up to date. */
  ghost function SettledFrames(s: System): int {
    |s.frames| - (if s.writer == Frame then 1 else 0)
  }

  /** Over how many samples the jitter in memory is the average: one more than are published
      once it is stored. */
  ghost function JitterAge(s: System): nat {
    |s.samples| + (if s.writer.HalfWritten? || s.writer.Written? then 1 else 0)
  }

  ghost function GapAge(s: System): nat {
    |s.samples| + (if s.writer.Written? then 1 else 0)
  }

  /** The next access of a reader. */
  ghost function ReaderNext(s: System, r: Reader): Reader
    requires SettledFrames(s) >= 0
  {
    match r
    case Start => Counted(s.framesReceived)
    case Counted(received) => Loop(Loads(received, s.framesDropped, |s.frames|, SettledFrames(s)), 0)
    case Loop(l, n) => HaveSeq(l, n, s.lock)
    case HaveSeq(l, n, seq1) => HaveJitter(l, n, seq1, s.current.jitter, JitterAge(s))
    case HaveJitter(l, n, seq1, jitter, age) =>
      HavePair(l, n, seq1, Pair(jitter, s.current.gap), Ages(age, GapAge(s)))
    case HavePair(l, n, seq1, out, ages) =>
      var seq2, attempts := s.lock, n + 1;
      if attempts > GIVE_UP then
        Done(l, attempts, seq1, seq2, out, ages)
      else if seq1 != seq2 || seq1 % 2 == 1 then
        Loop(l, attempts)
      else
        Done(l, attempts, seq1, seq2, out, ages)
    case Done(_, _, _, _, _, _) => r
  }

  ghost predicate ReaderMoves(s: System, t: System, id: nat) {
    SettledFrames(s) >= 0 && id in s.readers && t == s.(readers := s.readers[id := ReaderNext(s, s.readers[id])])
  }

  /** One access by one thread. */
  datatype Move = ByWriter(step: WriterStep) | ByReader(id: nat)

  ghost predicate Moves(s: System, t: System, m: Move) {
    match m
    case ByWriter(step) => WriterMoves(s, t, step)
    case ByReader(id) => ReaderMoves(s, t, id)
  }

  ghost predicate Next(s: System, t: System) {
    exists m :: Moves(s, t, m)
  }

  ghost predicate Run(states: seq<System>) {
    states != [] && Init(states[0]) && forall i :: 0 <= i < |states| - 1 ==> Next(states[i], states[i + 1])
  }

  // ---------- The invariant ----------

  /** The pair that was current while the lock was `n`, if `n` is even. */
  ghost predicate PublishedAt(s: System, n: nat) {
    n % 2 == 0 && n / 2 < |s.published|
  }

  /** Incomplete frames. */
  ghost function Drops(frames: seq<bool>): nat {
    if frames == [] then 0 else Drops(Front(frames)) + (if Last(frames) then 1 else 0)
  }

  /** The frame counters at each point of the writer. */
  ghost predicate FramesInv(s: System) {
    s.framesReceived == |s.frames| && (s.writer == Frame ==> s.frames != [] && Last(s.frames)) &&
    s.framesDropped + (if s.writer == Frame then 1 else 0) == Drops(s.frames)
  }

  /** What is in memory at each point of the writer. */
  ghost predicate WriterInv(s: System) {
    var last := |s.samples|;
    |s.published| == last + 1 && FramesInv(s) &&
    match s.writer
    case Idle => s.lock == 2 * last && s.current == s.published[last]
    case Frame => s.lock == 2 * last && s.current == s.published[last]
    case Locked(_) => s.lock == 2 * last + 1 && s.current == s.published[last]
    case HalfWritten(x) =>
      s.lock == 2 * last + 1 && s.current == s.published[last].(jitter := Moved(s.published[last], x).jitter)
    case Written(x) => s.lock == 2 * last + 1 && s.current == Moved(s.published[last], x)
  }

  /** What the loads of the frame counters say about the frames. */
  ghost predicate LoadsInv(s: System, l: Loads) {
    l.received <= l.recorded <= |s.frames| && l.settled <= l.recorded <= l.settled + 1 &&
    l.dropped == Drops(s.frames[..l.settled])
  }

  /** While the lock still has the even value a reader saw first, all it read is the pair
      published then. */
  ghost predicate ReaderInv(s: System, r: Reader) {
    match r
    case Start => true
    case Counted(received) => received <= |s.frames|
    case Loop(l, n) => n <= GIVE_UP && LoadsInv(s, l)
    case HaveSeq(l, n, seq1) => n <= GIVE_UP && LoadsInv(s, l) && seq1 <= s.lock
    case HaveJitter(l, n, seq1, jitter, _) =>
      n <= GIVE_UP && LoadsInv(s, l) && seq1 <= s.lock &&
      (PublishedAt(s, seq1) && s.lock == seq1 ==> jitter == s.published[seq1 / 2].jitter)
    case HavePair(l, n, seq1, out, _) =>
      n <= GIVE_UP && LoadsInv(s, l) && seq1 <= s.lock &&
      (PublishedAt(s, seq1) && s.lock == seq1 ==> out == s.published[seq1 / 2])
    case Done(l, n, seq1, seq2, out, _) =>
      n <= GIVE_UP + 1 && LoadsInv(s, l) && seq1 <= seq2 <= s.lock &&
      (n <= GIVE_UP ==> seq1 == seq2 && seq1 % 2 == 0) &&
      (seq1 == seq2 && seq1 % 2 == 0 ==> PublishedAt(s, seq1) && out == s.published[seq1 / 2])
  }

  /** Each published pair is the one before it, moved by one sample. */
  ghost predicate History(s: System) {
    |s.published| == |s.samples| + 1 && s.published[0] == Pair(0.0, 0.0) &&
    forall k :: 0 <= k < |s.samples| ==> s.published[k + 1] == Moved(s.published[k], s.samples[k])
  }

  ghost predicate Inv(s: System) {
    WriterInv(s) && History(s) && forall id :: id in s.readers ==> ReaderInv(s, s.readers[id])
  }

  lemma LoadsSurvive(s: System, t: System, l: Loads)
    requires LoadsInv(s, l) && s.frames <= t.frames
    ensures LoadsInv(t, l)
  {
    assert t.frames[..l.settled] == s.frames[..l.settled];
  }

  lemma FramesOnlyGrow(s: System, t: System, step: WriterStep)
    requires WriterMoves(s, t, step)
    ensures s.frames <= t.frames && t.readers == s.readers
  {
  }

  /** The writer never disturbs what a reader knows. */
  lemma WriterKeepsReader(s: System, t: System, step: WriterStep, r: Reader)
    requires WriterInv(s) && WriterMoves(s, t, step) && ReaderInv(s, r)
    ensures ReaderInv(t, r)
  {
    hide LoadsInv, FramesInv;
    FramesOnlyGrow(s, t, step);
    if !r.Start? && !r.Counted? {
      LoadsSurvive(s, t, r.loads);
    }
  }

  lemma DropsSnoc(frames: seq<bool>, incomplete: bool)
    ensures Drops(frames + [incomplete]) == Drops(frames) + (if incomplete then 1 else 0)
  {
    assert Front(frames + [incomplete]) == frames;
  }

  lemma WriterKeepsCounts(s: System, t: System, step: WriterStep)
    requires FramesInv(s) && WriterMoves(s, t, step)
    ensures FramesInv(t)
  {
    if step.CountFrame? {
      DropsSnoc(s.frames, step.incomplete);
    }
  }

  /** The drops counted are those of the settled frames. */
  lemma DropsAreSettled(s: System)
    requires FramesInv(s)
    ensures SettledFrames(s) >= 0 && s.framesDropped == Drops(s.frames[..SettledFrames(s)])
  {
    if s.writer == Frame {
      FrontThenLast(s.frames);
      DropsSnoc(Front(s.frames), true);
    } else {
      assert s.frames[..|s.frames|] == s.frames;
    }
  }

  lemma WriterKeepsWriter(s: System, t: System, step: WriterStep)
    requires WriterInv(s) && History(s) && WriterMoves(s, t, step)
    ensures WriterInv(t) && History(t)
  {
    hide FramesInv;
    WriterKeepsCounts(s, t, step);
  }

  lemma ReaderKeepsItself(s: System, r: Reader)
    requires WriterInv(s) && ReaderInv(s, r)
    ensures SettledFrames(s) >= 0 && ReaderInv(s, ReaderNext(s, r))
  {
    DropsAreSettled(s);
  }

  lemma NextKeepsInv(s: System, t: System, m: Move)
    requires Inv(s) && Moves(s, t, m)
    ensures Inv(t)
  {
    hide ReaderInv, History;
    match m
    case ByWriter(step) =>
      WriterKeepsWriter(s, t, step);
      FramesOnlyGrow(s, t, step);
      forall id | id in t.readers
        ensures ReaderInv(t, t.readers[id])
      {
        WriterKeepsReader(s, t, step, s.readers[id]);
      }
    case ByReader(id) =>
      ReaderKeepsItself(s, s.readers[id]);
      SameMemory(s, t);
      forall k | k in t.readers
        ensures ReaderInv(t, t.readers[k])
      {
        assert k != id ==> t.readers[k] == s.readers[k] && ReaderInv(s, s.readers[k]);
      }
  }

  /** A reader's move changes nothing but readers. */
  lemma SameMemory(s: System, t: System)
    requires t == s.(readers := t.readers)
    ensures WriterInv(t) <==> WriterInv(s)
    ensures History(t) <==> History(s)
    ensures forall r :: ReaderInv(t, r) <==> ReaderInv(s, r)
  {
  }

  /** The invariant holds in every state of every run. */
  lemma {:induction false} RunKeepsInv(states: seq<System>, i: nat)
    requires Run(states) && i < |states|
    ensures Inv(states[i])
  {
    if i == 0 {
    } else {
      RunKeepsInv(states, i - 1);
      assert Next(states[i - 1], states[i - 1 + 1]);
      var m :| Moves(states[i - 1], states[i], m);
      NextKeepsInv(states[i - 1], states[i], m);
    }
  }

  // ---------- What readers get ----------

  ghost function Jitters(xs: seq<Sample>): (r: seq<int>)
    ensures |r| == |xs|
  {
    if xs == [] then [] else Jitters(Front(xs)) + [Last(xs).jitter]
  }

  ghost function Gaps(xs: seq<Sample>): (r: seq<int>)
    ensures |r| == |xs|
  {
    if xs == [] then [] else Gaps(Front(xs)) + [Last(xs).gap]
  }

  /** Both averages over a sequence of samples. */
  ghost function Averages(xs: seq<Sample>): Pair {
    Pair(Average(Jitters(xs), JITTER_SHARE), Average(Gaps(xs), GAP_SHARE))
  }

  lemma AveragesSnoc(xs: seq<Sample>, x: Sample)
    ensures Averages(xs + [x]) == Moved(Averages(xs), x)
  {
    assert Front(xs + [x]) == xs;
    AverageSnoc(Jitters(xs), x.jitter, JITTER_SHARE);
    AverageSnoc(Gaps(xs), x.gap, GAP_SHARE);
  }

  /** Published pairs are the averages over the samples so far. */
  lemma {:induction false} PublishedIsAverages(s: System, k: nat)
    requires History(s) && k <= |s.samples|
    ensures s.published[k] == Averages(s.samples[..k])
  {
    if k == 0 {
    } else {
      PublishedIsAverages(s, k - 1);
      assert s.samples[..k] == s.samples[..k - 1] + [s.samples[k - 1]];
      AveragesSnoc(s.samples[..k - 1], s.samples[k - 1]);
      assert s.published[k - 1 + 1] == Moved(s.published[k - 1], s.samples[k - 1]);
    }
  }

  /** In every interleaving: a reader that leaves the loop because both loads of the sequence
      agree on an even number holds both averages over the same samples, the first half as many
      as that number. Every reader stops after at most 1001 attempts, and only one that used
      them all can hold anything else. */
  lemma SnapshotIsConsistent(states: seq<System>, i: nat, id: nat)
    requires Run(states) && i < |states| && id in states[i].readers && states[i].readers[id].Done?
    ensures var s, r := states[i], states[i].readers[id];
            r.attempts <= 1001 && (r.attempts <= 1000 ==> r.seq1 == r.seq2 && r.seq1 % 2 == 0) &&
            (r.seq1 == r.seq2 && r.seq1 % 2 == 0 ==>
               r.seq1 / 2 <= |s.samples| && r.out == Averages(s.samples[..r.seq1 / 2]))
  {
    hide Moved, Averages;
    RunKeepsInv(states, i);
    var s, r := states[i], states[i].readers[id];
    if r.seq1 == r.seq2 && r.seq1 % 2 == 0 {
      PublishedIsAverages(s, r.seq1 / 2);
    }
  }

  /** The samples of a sequence of packets. */
  ghost function SamplesOf(seen: seq<Arrival>): seq<Sample> {
    if |seen| < 2 then
      []
    else
      var a, b := seen[|seen| - 2], Last(seen);
      SamplesOf(Front(seen)) + [Sample(JitterUs(a, b), GapUs(a, b))]
  }

  lemma {:induction false} SamplesMatch(seen: seq<Arrival>)
    ensures Jitters(SamplesOf(seen)) == JitterSamples(seen) && Gaps(SamplesOf(seen)) == GapSamples(seen)
  {
    if |seen| < 2 {
    } else {
      SamplesMatch(Front(seen));
      assert Front(SamplesOf(seen)) == SamplesOf(Front(seen));
    }
  }

  /** The record of the receiving thread, between packets, is what this machine holds after the
      same samples: so a consistent snapshot is the record as it was after some whole packet. */
  lemma RecordIsPublished(st: StatsState)
    requires st.Valid()
    ensures var xs := SamplesOf(st.seen);
            st.lock == Wrap64(2 * |xs|) && Pair(st.jitter, st.avgGapUs) == Averages(xs)
  {
    SamplesMatch(st.seen);
    assert |Jitters(SamplesOf(st.seen))| == |SamplesOf(st.seen)|;
  }

  // ---------- How old the values are ----------

  /** All samples, the one being written included. */
  ghost function AllSamples(s: System): seq<Sample> {
    s.samples + (if s.writer.Idle? || s.writer.Frame? then [] else [s.writer.x])
  }

  ghost predicate JitterOver(xs: seq<Sample>, v: real, age: nat) {
    age <= |xs| && v == Averages(xs[..age]).jitter
  }

  ghost predicate GapOver(xs: seq<Sample>, v: real, age: nat) {
    age <= |xs| && v == Averages(xs[..age]).gap
  }

  /** Both values are averages over first samples, at least as many as were complete at the
      first load of the sequence; the gap lags at most one sample behind the jitter. */
  ghost predicate PairOver(xs: seq<Sample>, out: Pair, ages: Ages, seq1: nat) {
    JitterOver(xs, out.jitter, ages.jitter) && GapOver(xs, out.gap, ages.gap) &&
    seq1 / 2 <= ages.jitter <= ages.gap + 1 && seq1 / 2 <= ages.gap
  }

  /** What a reader has read, and how old it is by now. */
  ghost predicate AgesInv(s: System, r: Reader) {
    match r
    case HaveJitter(_, _, seq1, jitter, age) =>
      JitterOver(AllSamples(s), jitter, age) && seq1 / 2 <= age <= JitterAge(s)
    case HavePair(_, _, seq1, out, ages) =>
      PairOver(AllSamples(s), out, ages, seq1) && ages.jitter <= JitterAge(s) && ages.gap <= GapAge(s)
    case Done(_, _, seq1, seq2, out, ages) =>
      PairOver(AllSamples(s), out, ages, seq1) && ages.jitter <= (seq2 + 1) / 2 && ages.gap <= (seq2 + 1) / 2
    case _ => true
  }

  lemma AveragesStay(xs: seq<Sample>, ys: seq<Sample>, v: real, age: nat)
    requires xs <= ys
    ensures JitterOver(xs, v, age) ==> JitterOver(ys, v, age)
    ensures GapOver(xs, v, age) ==> GapOver(ys, v, age)
  {
    if age <= |xs| {
      assert ys[..age] == xs[..age];
    }
  }

  lemma TimePasses(s: System, t: System, m: Move)
    requires Moves(s, t, m)
    ensures AllSamples(s) <= AllSamples(t) && JitterAge(s) <= JitterAge(t) && GapAge(s) <= GapAge(t)
  {
  }

  lemma AgesStay(s: System, t: System, m: Move, r: Reader)
    requires Moves(s, t, m) && AgesInv(s, r)
    ensures AgesInv(t, r)
  {
    hide JitterOver, GapOver, Moves, AllSamples, JitterAge, GapAge;
    var xs, ys := AllSamples(s), AllSamples(t);
    TimePasses(s, t, m);
    match r
    case HaveJitter(_, _, _, jitter, age) => AveragesStay(xs, ys, jitter, age);
    case HavePair(_, _, _, out, ages) =>
      AveragesStay(xs, ys, out.jitter, ages.jitter);
      AveragesStay(xs, ys, out.gap, ages.gap);
    case Done(_, _, _, _, out, ages) =>
      AveragesStay(xs, ys, out.jitter, ages.jitter);
      AveragesStay(xs, ys, out.gap, ages.gap);
    case _ =>
  }

  /** Whatever the writer is doing, each value in memory is the average over that many samples. */
  lemma MemoryIsAverages(s: System)
    requires WriterInv(s) && History(s)
    ensures JitterOver(AllSamples(s), s.current.jitter, JitterAge(s))
    ensures GapOver(AllSamples(s), s.current.gap, GapAge(s))
  {
    hide Averages, Moved, FramesInv;
    var n, all := |s.samples|, AllSamples(s);
    PublishedIsAverages(s, n);
    assert s.samples[..n] == s.samples == all[..n];
    if !s.writer.Idle? && !s.writer.Frame? {
      AveragesSnoc(s.samples, s.writer.x);
      assert all == all[..n + 1] == s.samples + [s.writer.x];
    }
  }

  /** The sequence number counts complete samples twice. */
  lemma LockCountsSamples(s: System)
    requires WriterInv(s)
    ensures s.lock / 2 == |s.samples| && JitterAge(s) <= (s.lock + 1) / 2
    ensures s.lock / 2 <= GapAge(s) <= JitterAge(s) <= GapAge(s) + 1
  {
  }

  lemma ReadingKeepsAges(s: System, r: Reader)
    requires WriterInv(s) && History(s) && ReaderInv(s, r) && AgesInv(s, r)
    ensures SettledFrames(s) >= 0 && AgesInv(s, ReaderNext(s, r))
  {
    hide JitterOver, GapOver, AllSamples, History, FramesInv, LoadsInv;
    SettledIsCount(s);
    MemoryIsAverages(s);
    LockCountsSamples(s);
  }

  lemma SettledIsCount(s: System)
    requires WriterInv(s)
    ensures SettledFrames(s) >= 0
  {
  }

  lemma OthersLeaveReader(s: System, t: System, m: Move, id: nat)
    requires Moves(s, t, m) && m != ByReader(id)
    ensures id in t.readers <==> id in s.readers
    ensures id in s.readers ==> t.readers[id] == s.readers[id]
  {
  }

  lemma ReadersStay(s: System, t: System, m: Move)
    requires Moves(s, t, m)
    ensures t.readers.Keys == s.readers.Keys
  {
  }

  lemma NextKeepsAges(s: System, t: System, m: Move, id: nat)
    requires Inv(s) && Moves(s, t, m) && id in t.readers && id in s.readers && AgesInv(s, s.readers[id])
    ensures AgesInv(t, t.readers[id])
  {
    hide WriterInv, ReaderInv, History, AgesInv;
    if m == ByReader(id) {
      ReadingKeepsAges(s, s.readers[id]);
      AgesStay(s, t, m, ReaderNext(s, s.readers[id]));
    } else {
      OthersLeaveReader(s, t, m, id);
      AgesStay(s, t, m, s.readers[id]);
    }
  }

  /** In every interleaving, given up or not: each of the two values a reader returns is the
      average over some first samples, no fewer than were complete at the first load of its last
      round and no more than were begun at the second, and the gap lags at most one behind the
      jitter. */
  lemma {:induction false} EachValueIsAnAverage(states: seq<System>, i: nat, id: nat)
    requires Run(states) && i < |states| && id in states[i].readers
    ensures AgesInv(states[i], states[i].readers[id])
  {
    hide WriterInv, ReaderInv, History, AgesInv;
    if i == 0 {
      NothingRead(states[0], id);
    } else {
      var s, t := states[i - 1], states[i];
      assert Next(states[i - 1], states[i - 1 + 1]);
      var m :| Moves(s, t, m);
      ReadersStay(s, t, m);
      assert id in s.readers.Keys;
      RunKeepsInv(states, i - 1);
      EachValueIsAnAverage(states, i - 1, id);
      NextKeepsAges(s, t, m, id);
    }
  }

  lemma NothingRead(s: System, id: nat)
    requires Init(s) && id in s.readers
    ensures AgesInv(s, s.readers[id])
  {
  }

  /** Where a reader that is done made its last load. */
  lemma {:induction false} LastLoad(states: seq<System>, i: nat, id: nat) returns (j: nat)
    requires Run(states) && i < |states| && id in states[i].readers && states[i].readers[id].Done?
    ensures j < i && id in states[j].readers && states[j].readers[id].HavePair?
    ensures SettledFrames(states[j]) >= 0 && ReaderNext(states[j], states[j].readers[id]) == states[i].readers[id]
  {
    hide ReaderNext;
    if i == 0 {
      assert false;
    } else {
      var s, t := states[i - 1], states[i];
      assert Next(states[i - 1], states[i - 1 + 1]);
      var m :| Moves(s, t, m);
      ReadersStay(s, t, m);
      assert id in s.readers.Keys;
      if s.readers[id].Done? {
        DoneStays(s, t, m, id);
        j := LastLoad(states, i - 1, id);
      } else {
        j := i - 1;
        LastStep(s, t, m, id);
      }
    }
  }

  lemma DoneStays(s: System, t: System, m: Move, id: nat)
    requires Moves(s, t, m) && id in s.readers && id in t.readers && s.readers[id].Done?
    ensures t.readers[id] == s.readers[id]
  {
  }

  lemma LastStep(s: System, t: System, m: Move, id: nat)
    requires Moves(s, t, m) && id in s.readers && id in t.readers && !s.readers[id].Done? && t.readers[id].Done?
    ensures s.readers[id].HavePair? && SettledFrames(s) >= 0 && ReaderNext(s, s.readers[id]) == t.readers[id]
  {
  }

  /** How recent a consistent snapshot is: at the moment of its second load nothing was being
      written, and its pair was what memory held, the averages over all samples by then. */
  lemma SnapshotIsCurrent(states: seq<System>, i: nat, id: nat) returns (j: nat)
    requires Run(states) && i < |states| && id in states[i].readers && states[i].readers[id].Done?
    requires var r := states[i].readers[id]; r.seq1 == r.seq2 && r.seq1 % 2 == 0
    ensures j < i && id in states[j].readers && states[j].readers[id].HavePair?
    ensures var s, r := states[j], states[i].readers[id];
            s.lock == r.seq2 && (s.writer.Idle? || s.writer.Frame?) &&
            r.out == s.current == Averages(s.samples) && s.published != [] && r.out == Last(s.published)
  {
    j := LastLoad(states, i, id);
    RunKeepsInv(states, j);
    var s := states[j];
    EvenIsCurrent(s, s.readers[id]);
  }

  lemma EvenIsCurrent(s: System, r: Reader)
    requires WriterInv(s) && History(s) && ReaderInv(s, r) && r.HavePair? && r.seq1 == s.lock && s.lock % 2 == 0
    ensures s.writer.Idle? || s.writer.Frame?
    ensures r.out == s.current == Averages(s.samples) && s.published != [] && r.out == Last(s.published)
  {
    hide Averages, Moved, FramesInv, LoadsInv;
    PublishedIsAverages(s, |s.samples|);
    assert s.samples[..|s.samples|] == s.samples;
  }

  // ---------- Every reader ends ----------

  /** How many more accesses a reader makes at most. */
  ghost function Rank(r: Reader): int {
    match r
    case Start => 4 * (GIVE_UP + 1) + 2
    case Counted(_) => 4 * (GIVE_UP + 1) + 1
    case Loop(_, n) => 4 * (GIVE_UP + 1 - n)
    case HaveSeq(_, n, _) => 4 * (GIVE_UP + 1 - n) - 1
    case HaveJitter(_, n, _, _, _) => 4 * (GIVE_UP + 1 - n) - 2
    case HavePair(_, n, _, _, _) => 4 * (GIVE_UP + 1 - n) - 3
    case Done(_, _, _, _, _, _) => 0
  }

  lemma OwnMoveLowersRank(s: System, r: Reader)
    requires SettledFrames(s) >= 0 && ReaderInv(s, r) && !r.Done?
    ensures Rank(r) > 0 && Rank(ReaderNext(s, r)) < Rank(r)
  {
  }

  /** A run together with who moved. */
  ghost predicate RunBy(states: seq<System>, moves: seq<Move>) {
    |states| == |moves| + 1 && Init(states[0]) &&
    forall i :: 0 <= i < |moves| ==> Moves(states[i], states[i + 1], moves[i])
  }

  /** The accesses of one reader. */
  ghost function OwnMoves(moves: seq<Move>, id: nat): nat {
    if moves == [] then 0 else OwnMoves(Front(moves), id) + (if Last(moves) == ByReader(id) then 1 else 0)
  }

  lemma RunByIsRun(states: seq<System>, moves: seq<Move>)
    requires RunBy(states, moves)
    ensures Run(states)
  {
    forall i | 0 <= i < |states| - 1
      ensures Next(states[i], states[i + 1])
    {
      assert Moves(states[i], states[i + 1], moves[i]);
    }
  }

  lemma {:induction false} RankFalls(states: seq<System>, moves: seq<Move>, id: nat)
    requires RunBy(states, moves) && id in states[0].readers
    ensures id in Last(states).readers
    ensures var r := Last(states).readers[id]; r.Done? || 0 < Rank(r) <= 4 * (GIVE_UP + 1) + 2 - OwnMoves(moves, id)
  {
    hide ReaderNext, ReaderInv, WriterInv, History, Rank;
    RunByIsRun(states, moves);
    RunKeepsInv(states, |moves|);
    if moves == [] {
      StartsFull(states[0], id);
    } else {
      var n := |moves| - 1;
      RankFalls(Front(states), Front(moves), id);
      RunKeepsInv(states, n);
      assert Moves(states[n], states[n + 1], moves[n]);
      MoveLowersRank(states[n], states[n + 1], moves[n], id);
    }
  }

  lemma StartsFull(s: System, id: nat)
    requires Init(s) && id in s.readers
    ensures Rank(s.readers[id]) == 4 * (GIVE_UP + 1) + 2
  {
  }

  lemma MoveLowersRank(s: System, t: System, m: Move, id: nat)
    requires Inv(s) && Inv(t) && Moves(s, t, m) && id in s.readers
    ensures id in t.readers
    ensures s.readers[id].Done? ==> t.readers[id].Done?
    ensures !t.readers[id].Done? ==>
              0 < Rank(t.readers[id]) <= Rank(s.readers[id]) - (if m == ByReader(id) then 1 else 0)
  {
    hide ReaderInv, WriterInv, History, Rank;
    if m == ByReader(id) {
      if !s.readers[id].Done? {
        OwnMoveLowersRank(s, s.readers[id]);
      }
    } else {
      OthersLeaveReader(s, t, m, id);
    }
    if !t.readers[id].Done? {
      SettledIsCount(t);
      OwnMoveLowersRank(t, t.readers[id]);
    }
  }

  /** In every interleaving: once a reader has made 4006 accesses it has left the loop. */
  lemma EveryReaderEnds(states: seq<System>, moves: seq<Move>, id: nat)
    requires RunBy(states, moves) && id in states[0].readers && OwnMoves(moves, id) >= 4006
    ensures id in Last(states).readers && Last(states).readers[id].Done?
  {
    RankFalls(states, moves, id);
  }

  // ---------- Every retry is made ----------

  /** At its second load the reader finds that its round was disturbed. */
  ghost predicate RoundFails(s: System, r: Reader) {
    r.HavePair? && (r.seq1 != s.lock || r.seq1 % 2 == 1)
  }

  /** Each of the first thousand failed rounds sends the reader back into the loop, and only
      the one after them ends it. */
  lemma FailedRoundRetries(s: System, r: Reader)
    requires SettledFrames(s) >= 0 && RoundFails(s, r)
    ensures r.attempts < 1000 ==> ReaderNext(s, r) == Loop(r.loads, r.attempts + 1)
    ensures r.attempts >= 1000 ==> ReaderNext(s, r).Done?
  {
  }

  /** A round that is not disturbed ends it at once, with the pair it read. */
  lemma QuietRoundEnds(s: System, r: Reader)
    requires SettledFrames(s) >= 0 && r.HavePair? && !RoundFails(s, r)
    ensures var d := ReaderNext(s, r);
            d.Done? && d.out == r.out && d.seq1 == d.seq2 && d.attempts == r.attempts + 1
  {
  }

  ghost predicate Consistent(r: Reader)
    requires r.Done?
  {
    r.seq1 == r.seq2 && r.seq1 % 2 == 0
  }

  /** The rounds of a reader that were disturbed. */
  ghost function FailedRounds(r: Reader): nat {
    match r
    case Start => 0
    case Counted(_) => 0
    case Done(_, n, seq1, seq2, _, _) => if seq1 == seq2 && seq1 % 2 == 0 && n > 0 then n - 1 else n
    case Loop(_, n) => n
    case HaveSeq(_, n, _) => n
    case HaveJitter(_, n, _, _, _) => n
    case HavePair(_, n, _, _, _) => n
  }

  lemma RoundStep(s: System, t: System, m: Move, id: nat)
    requires Moves(s, t, m) && id in s.readers && id in t.readers
    requires FailedRounds(t.readers[id]) > FailedRounds(s.readers[id])
    ensures RoundFails(s, s.readers[id]) && s.readers[id].attempts == FailedRounds(s.readers[id])
    ensures FailedRounds(t.readers[id]) == FailedRounds(s.readers[id]) + 1
  {
    hide RoundFails;
    if m == ByReader(id) {
      OwnRoundStep(s, s.readers[id]);
    } else {
      OthersLeaveReader(s, t, m, id);
      assert false;
    }
  }

  lemma OwnRoundStep(s: System, r: Reader)
    requires SettledFrames(s) >= 0 && FailedRounds(ReaderNext(s, r)) > FailedRounds(r)
    ensures RoundFails(s, r) && r.attempts == FailedRounds(r)
    ensures FailedRounds(ReaderNext(s, r)) == FailedRounds(r) + 1
  {
  }

  /** Round `k` of the reader was disturbed, at the step after state `j`. */
  ghost predicate FailedAt(states: seq<System>, j: nat, id: nat, k: nat) {
    j < |states| && id in states[j].readers && RoundFails(states[j], states[j].readers[id]) &&
    states[j].readers[id].attempts == k
  }

  ghost predicate FailedBefore(states: seq<System>, i: nat, id: nat, k: nat) {
    exists j: nat :: j < i && FailedAt(states, j, id, k)
  }

  lemma {:induction false} EveryRoundFailed(states: seq<System>, i: nat, id: nat, k: nat) returns (j: nat)
    requires Run(states) && i < |states| && id in states[i].readers && k < FailedRounds(states[i].readers[id])
    ensures j < i && FailedAt(states, j, id, k)
  {
    hide FailedRounds, RoundFails;
    if i == 0 {
      NoRoundYet(states[0], id);
      assert false;
    } else {
      var s, t := states[i - 1], states[i];
      assert Next(states[i - 1], states[i - 1 + 1]);
      var m :| Moves(s, t, m);
      ReadersStay(s, t, m);
      assert id in s.readers.Keys;
      if k < FailedRounds(s.readers[id]) {
        j := EveryRoundFailed(states, i - 1, id, k);
      } else {
        RoundStep(s, t, m, id);
        j := i - 1;
      }
    }
  }

  lemma NoRoundYet(s: System, id: nat)
    requires Init(s) && id in s.readers
    ensures FailedRounds(s.readers[id]) == 0
  {
  }

  /** In every interleaving a reader that comes back without a consistent pair has made exactly
      1001 attempts, and every one of them was disturbed. */
  lemma GaveUpAfterFailures(states: seq<System>, i: nat, id: nat)
    requires Run(states) && i < |states| && id in states[i].readers && states[i].readers[id].Done?
    requires !Consistent(states[i].readers[id])
    ensures states[i].readers[id].attempts == 1001
    ensures forall k: nat :: k < 1001 ==> FailedBefore(states, i, id, k)
  {
    hide FailedAt;
    RunKeepsInv(states, i);
    forall k: nat | k < 1001
      ensures FailedBefore(states, i, id, k)
    {
      var j := EveryRoundFailed(states, i, id, k);
    }
  }

  // ---------- Runs that show the limits ----------

  lemma Extend(states: seq<System>, t: System, m: Move)
    requires Run(states) && Moves(Last(states), t, m)
    ensures Run(states + [t])
  {
    assert Next(Last(states), t);
  }

  /** One reader, before anything happened. */
  ghost function Fresh(): System {
    System(0, 0, 0, Pair(0.0, 0.0), Idle, map[0 := Start], [Pair(0.0, 0.0)], [], [])
  }

  const NO_FRAMES := Loads(0, 0, 0, 0)

  /** What the second of two packets adds that arrive 256 microseconds apart with one timestamp. */
  const LATE := Sample(256, 256)

  lemma LateIsReal()
    ensures SamplesOf([Arrival(0, 0), Arrival(256, 0)]) == [LATE]
  {
    var seen := [Arrival(0, 0), Arrival(256, 0)];
    assert |Front(seen)| == 1 && SamplesOf(Front(seen)) == [];
    assert GapUs(seen[0], seen[1]) == 256 && RtpToUs(0) == 0;
  }

  /** The new jitter beside the old gap. */
  const TORN := Ages(1, 0)

  /** The writer stopped between its two stores, the new jitter in memory. */
  ghost function MidWrite(r: Reader): System {
    System(0, 0, 1, Pair(16.0, 0.0), HalfWritten(LATE), map[0 := r], [Pair(0.0, 0.0)], [], [])
  }

  lemma {:induction false} ReaderCanBeHeldUp(n: nat) returns (states: seq<System>)
    requires n <= GIVE_UP
    ensures Run(states) && Last(states) == MidWrite(Loop(NO_FRAMES, n))
  {
    if n == 0 {
      var s0 := Fresh();
      var s1 := s0.(readers := s0.readers[0 := Counted(0)]);
      var s2 := s1.(readers := s1.readers[0 := Loop(NO_FRAMES, 0)]);
      var s3 := s2.(lock := 1, writer := Locked(LATE));
      Extend([s0], s1, ByReader(0));
      Extend([s0] + [s1], s2, ByReader(0));
      Extend([s0] + [s1] + [s2], s3, ByWriter(Lock(LATE)));
      states := [s0] + [s1] + [s2] + [s3] + [MidWrite(Loop(NO_FRAMES, 0))];
      Extend([s0] + [s1] + [s2] + [s3], MidWrite(Loop(NO_FRAMES, 0)), ByWriter(StoreJitter));
    } else {
      states := ReaderCanBeHeldUp(n - 1);
      states := OneRound(states, n - 1, MidWrite(Loop(NO_FRAMES, n)));
    }
  }

  lemma OneRound(states: seq<System>, n: nat, end: System) returns (longer: seq<System>)
    requires Run(states) && Last(states) == MidWrite(Loop(NO_FRAMES, n)) && n <= GIVE_UP
    requires end == MidWrite(if n < GIVE_UP then Loop(NO_FRAMES, n + 1)
                             else Done(NO_FRAMES, n + 1, 1, 1, Pair(16.0, 0.0), TORN))
    ensures Run(longer) && Last(longer) == end
  {
    var a, b := MidWrite(HaveSeq(NO_FRAMES, n, 1)), MidWrite(HaveJitter(NO_FRAMES, n, 1, 16.0, 1));
    var c := MidWrite(HavePair(NO_FRAMES, n, 1, Pair(16.0, 0.0), TORN));
    Extend(states, a, ByReader(0));
    Extend(states + [a], b, ByReader(0));
    Extend(states + [a] + [b], c, ByReader(0));
    Extend(states + [a] + [b] + [c], end, ByReader(0));
    longer := states + [a] + [b] + [c] + [end];
  }

  /** The exception is real: a writer that stays between its two stores makes a reader give up
      with the new jitter beside the old gap. The pair is neither the averages over any samples
      published so far nor those with the sample being written, and that sample comes from two
      packets that can arrive. */
  lemma GivingUpCanTear() returns (states: seq<System>)
    ensures Run(states) && 0 in Last(states).readers
    ensures var s, r := Last(states), Last(states).readers[0];
            r.Done? && r.attempts == 1001 && s.writer.HalfWritten? &&
            SamplesOf([Arrival(0, 0), Arrival(256, 0)]) == s.samples + [s.writer.x] &&
            r.out != Averages(s.samples + [s.writer.x]) &&
            forall k: nat :: k <= |s.samples| ==> r.out != Averages(s.samples[..k])
  {
    states := ReaderCanBeHeldUp(GIVE_UP);
    states := OneRound(states, GIVE_UP, MidWrite(Done(NO_FRAMES, GIVE_UP + 1, 1, 1, Pair(16.0, 0.0), TORN)));
    LateIsReal();
    var s := Last(states);
    assert s.samples == [] && [] + [LATE] == [LATE];
    AveragesSnoc([], LATE);
    assert Averages([]) == Pair(0.0, 0.0) && Averages([LATE]).gap == 1.0;
  }

  // ---------- The frame counters in a snapshot ----------

  lemma {:induction false} DropsAtMost(frames: seq<bool>)
    ensures Drops(frames) <= |frames|
  {
    if frames == [] {
    } else {
      DropsAtMost(Front(frames));
    }
  }

  lemma {:induction false} DropsConcat(a: seq<bool>, b: seq<bool>)
    ensures Drops(a + b) == Drops(a) + Drops(b)
    decreases |b|
  {
    if b == [] {
      assert a + b == a;
    } else {
      DropsConcat(a, Front(b));
      ConcatEnd(a, b);
    }
  }

  lemma DropsSplit(frames: seq<bool>, m: nat, n: nat)
    requires m <= n <= |frames|
    ensures Drops(frames[..n]) == Drops(frames[..m]) + Drops(frames[m..n])
  {
    assert frames[..n] == frames[..m] + frames[m..n];
    DropsConcat(frames[..m], frames[m..n]);
  }

  /** In memory a frame counts as received before it counts as dropped, and a snapshot never
      holds more drops than there are frames by then. */
  lemma DropsAreFrames(states: seq<System>, i: nat, id: nat)
    requires Run(states) && i < |states| && id in states[i].readers
    ensures var s, r := states[i], states[i].readers[id];
            s.framesDropped <= s.framesReceived && (r.Done? ==> r.loads.dropped <= s.framesReceived)
  {
    RunKeepsInv(states, i);
    var s, r := states[i], states[i].readers[id];
    DropsAtMost(s.frames);
    if r.Done? {
      DropsAtMost(s.frames[..r.loads.settled]);
    }
  }

  lemma LoadsCompared(s: System, l: Loads)
    requires LoadsInv(s, l)
    ensures l.dropped > l.received <==>
            l.settled > l.received &&
            Drops(s.frames[l.received..l.settled]) > l.received - Drops(s.frames[..l.received])
  {
    if l.settled > l.received {
      DropsSplit(s.frames, l.received, l.settled);
    } else {
      DropsAtMost(s.frames[..l.settled]);
    }
  }

  /** In every interleaving a finished snapshot shows more dropped than received frames if and
      only if, among the frames recorded after its first load and counted by its second, more
      were incomplete than were complete among all the frames before. If no frame was recorded
      between the two loads it never does. */
  lemma SnapshotDropsExceedFrames(states: seq<System>, i: nat, id: nat)
    requires Run(states) && i < |states| && id in states[i].readers && states[i].readers[id].Done?
    ensures var fs, l := states[i].frames, states[i].readers[id].loads;
            l.received <= l.recorded <= |fs| && l.settled <= l.recorded <= l.settled + 1 &&
            (l.dropped > l.received <==>
               l.settled > l.received && Drops(fs[l.received..l.settled]) > l.received - Drops(fs[..l.received])) &&
            (l.recorded == l.received ==> l.dropped <= l.received)
  {
    RunKeepsInv(states, i);
    LoadsCompared(states[i], states[i].readers[id].loads);
  }

  /** It does happen: one incomplete frame, recorded between the two loads, gives a snapshot of
      one drop out of no frames. */
  lemma SnapshotCanShowMoreDropsThanFrames() returns (states: seq<System>)
    ensures Run(states) && 0 in Last(states).readers
    ensures var r := Last(states).readers[0];
            r.Done? && r.attempts == 1 && r.loads.received == 0 && r.loads.dropped == 1
  {
    var l := Loads(0, 1, 1, 1);
    var s0 := Fresh();
    var s1 := s0.(readers := s0.readers[0 := Counted(0)]);
    var s2 := s1.(framesReceived := 1, writer := Frame, frames := [true]);
    var s3 := s2.(framesDropped := 1, writer := Idle);
    Extend([s0], s1, ByReader(0));
    Extend([s0] + [s1], s2, ByWriter(CountFrame(true)));
    Extend([s0] + [s1] + [s2], s3, ByWriter(CountDrop));
    states := QuietRead([s0] + [s1] + [s2] + [s3], l);
  }

  /** A reader alone finishes in one round. */
  lemma QuietRead(states: seq<System>, l: Loads) returns (longer: seq<System>)
    requires Run(states)
    requires var s := Last(states);
             s.readers == map[0 := Counted(l.received)] && s.writer == Idle && s.lock == 0 && s.samples == [] &&
             l == Loads(l.received, s.framesDropped, |s.frames|, |s.frames|)
    ensures var s := Last(states);
            Run(longer) && Last(longer) == s.(readers := map[0 := Done(l, 1, 0, 0, s.current, Ages(0, 0))])
  {
    var s := Last(states);
    var a, b := s.(readers := map[0 := Loop(l, 0)]), s.(readers := map[0 := HaveSeq(l, 0, 0)]);
    var c := s.(readers := map[0 := HaveJitter(l, 0, 0, s.current.jitter, 0)]);
    var d := s.(readers := map[0 := HavePair(l, 0, 0, s.current, Ages(0, 0))]);
    var e := s.(readers := map[0 := Done(l, 1, 0, 0, s.current, Ages(0, 0))]);
    Extend(states, a, ByReader(0));
    Extend(states + [a], b, ByReader(0));
    Extend(states + [a] + [b], c, ByReader(0));
    Extend(states + [a] + [b] + [c], d, ByReader(0));
    Extend(states + [a] + [b] + [c] + [d], e, ByReader(0));
    longer := states + [a] + [b] + [c] + [d] + [e];
  }
}
