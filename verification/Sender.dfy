/** The sending tool: colour bars, the RTP header, and the loop that splits every line
    of a frame into packets. */
module Sender {
  import opened Bytes
  import opened Overlay
  import opened Convert
  import opened Wire
  import opened RoundTrip

  // ---------- Colour bars ----------

  const BARS: seq<(u10, u10, u10)> :=
    [(512, 940, 512), (64, 877, 553), (671, 754, 159), (223, 691, 200),
     (800, 566, 824), (352, 503, 865), (960, 380, 471), (512, 64, 512)]

  /** Which of the eight bars group `g` of a line belongs to. */
  function BarOf(groups: nat, g: nat): nat {
    var perBar := if groups / 8 == 0 then 1 else groups / 8;
    if g / perBar > 7 then 7 else g / perBar
  }

  function BarGroup(groups: nat, g: nat): Group {
    var (cb, y, cr) := BARS[BarOf(groups, g)];
    Group(cb, y, cr, y)
  }

  lemma DivisionBounds(g: nat, e: nat)
    requires e > 0
    ensures e * (g / e) <= g < e * (g / e) + e
  {
    assert g == e * (g / e) + g % e;
  }

  /** The bars of a line: white, yellow, cyan, green, magenta, red, blue and black, an eighth of
      the line each, what is left over to the last. */
  lemma EightBars(groups: nat, g: nat)
    ensures var e := if groups < 8 then 1 else groups / 8;
            BarGroup(groups, g) ==
            if g < e then Group(512, 940, 512, 940)
            else if g < 2 * e then Group(64, 877, 553, 877)
            else if g < 3 * e then Group(671, 754, 159, 754)
            else if g < 4 * e then Group(223, 691, 200, 691)
            else if g < 5 * e then Group(800, 566, 824, 566)
            else if g < 6 * e then Group(352, 503, 865, 503)
            else if g < 7 * e then Group(960, 380, 471, 380)
            else Group(512, 64, 512, 64)
  {
    var e := if groups < 8 then 1 else groups / 8;
    WhichBar(g, e, g / e);
    assert BarOf(groups, g) == if g / e > 7 then 7 else g / e;
  }

  lemma WhichBar(g: nat, e: nat, k: nat)
    requires e > 0 && k == g / e
    ensures k == 0 <==> g < e
    ensures k == 1 <==> e <= g < 2 * e
    ensures k == 2 <==> 2 * e <= g < 3 * e
    ensures k == 3 <==> 3 * e <= g < 4 * e
    ensures k == 4 <==> 4 * e <= g < 5 * e
    ensures k == 5 <==> 5 * e <= g < 6 * e
    ensures k == 6 <==> 6 * e <= g < 7 * e
    ensures k >= 7 <==> 7 * e <= g
  {
    DivisionBounds(g, e);
    if k >= 7 {
      Scaled(e, 7, k);
    } else {
      assert k in {0, 1, 2, 3, 4, 5, 6};
    }
  }

  lemma Scaled(e: nat, a: nat, b: nat)
    requires a <= b
    ensures e * a <= e * b
  {
  }

  /** The first `n` groups of a line of bars. */
  ghost function BarRow(groups: nat, n: nat): (r: seq<Group>)
    ensures |r| == n && forall g: nat :: g < n ==> r[g] == BarGroup(groups, g)
  {
    if n == 0 then [] else BarRow(groups, n - 1) + [BarGroup(groups, n - 1)]
  }

  ghost function BarImage(groups: nat, rows: nat): (img: seq<Group>)
    ensures |img| == Times(rows, groups)
  {
    if rows == 0 then [] else BarImage(groups, rows - 1) + BarRow(groups, groups)
  }

  /** The frame starts with these groups, packed. */
  ghost predicate BeginsWith(frame: seq<byte>, done: seq<Group>) {
    5 * |done| <= |frame| && IsPacked(frame[..5 * |done|], done)
  }

  lemma BeginsWithOneMore(was: seq<byte>, frame: seq<byte>, done: seq<Group>, g: Group)
    requires BeginsWith(was, done) && 5 * |done| + 5 <= |was|
    requires frame == Put(was, Write(5 * |done|, Pack(g)))
    ensures BeginsWith(frame, done + [g])
  {
    var k, front, front' := |done|, was[..5 * |done|], frame[..5 * (|done| + 1)];
    forall n: nat | n < k + 1
      ensures PackedAt(front', done + [g], n)
    {
      if n < k {
        assert PackedAt(front, done, n);
        assert front'[5 * n..5 * n + 5] == front[5 * n..5 * n + 5];
      }
    }
  }

  /** The test picture: eight bars, packed into a frame. */
  method GenerateColorbars(frame: array<byte>, width: nat, height: nat)
    requires frame.Length == Times(height, 5 * (width / 2))
    modifies frame
    ensures IsPacked(frame[..], BarImage(width / 2, height))
  {
    var groups, stride := width / 2, 5 * (width / 2);
    ghost var done: seq<Group> := [];
    assert BeginsWith(frame[..], done);
    hide IsPacked, BarOf, BarGroup;
    for y := 0 to height
      invariant done == BarImage(groups, y) && BeginsWith(frame[..], done)
    {
      TimesMonotone(y + 1, height, stride);
      TimesScales(y, 5, groups);
      BarLine(frame, Times(y, stride), groups, done);
      done := done + BarRow(groups, groups);
    }
    TimesScales(height, 5, groups);
    assert frame[..frame.Length] == frame[..];
  }

  /** One line of bars, behind the groups already there. */
  method BarLine(frame: array<byte>, at: nat, groups: nat, ghost done: seq<Group>)
    requires at == 5 * |done| && at + 5 * groups <= frame.Length && BeginsWith(frame[..], done)
    modifies frame
    ensures BeginsWith(frame[..], done + BarRow(groups, groups))
  {
    assert done + BarRow(groups, 0) == done;
    for g := 0 to groups
      invariant BeginsWith(frame[..], done + BarRow(groups, g))
    {
      var (cb, y, cr) := BARS[BarOf(groups, g)];
      ghost var was := frame[..];
      PackGroup(frame, at + 5 * g, cb, y, cr, y);
      BeginsWithOneMore(was, frame[..], done + BarRow(groups, g), BarGroup(groups, g));
      assert done + BarRow(groups, g + 1) == done + BarRow(groups, g) + [BarGroup(groups, g)];
    }
  }

  // ---------- The plan of one frame ----------

  /** One packet's share of a line. `offset` is in pixels, `more` says that the line
      continues in the next packet, `last` that the frame ends here. */
  datatype Chunk = Chunk(line: nat, offset: u16, more: bool, last: bool, data: seq<byte>)

  /** The largest payload that fits, in whole five-byte groups: 28 bytes of IP and UDP, 12
      of RTP, 6 of segment header. */
  function MaxSegment(mtu: nat): nat
    requires mtu >= 46
  {
    (mtu - 28 - 12 - 6) / 5 * 5
  }

  /** Whole groups, as many as fit beside 46 bytes of headers: one more would not. */
  lemma MaxSegmentIsLargest(mtu: nat)
    requires mtu >= 46
    ensures MaxSegment(mtu) % 5 == 0 && 46 + MaxSegment(mtu) <= mtu < 46 + MaxSegment(mtu) + 5
  {
  }

  function PixelOffset(bytes: nat): u16 {
    bytes / 5 * 2 % 0x1_0000
  }

  /** Where the chunk that starts at `from` ends. */
  function ChunkEnd(len: nat, maxSeg: nat, from: nat): nat
    requires from <= len
  {
    if len - from > maxSeg then from + maxSeg else len
  }

  /** The chunk that starts at byte `from` of a line. */
  ghost function ChunkFrom(row: seq<byte>, line: nat, lastLine: bool, maxSeg: nat, from: nat): Chunk
    requires from <= |row|
  {
    var to := ChunkEnd(|row|, maxSeg, from);
    Chunk(line, PixelOffset(from), to < |row|, lastLine && to == |row|, row[from..to])
  }

  /** The chunks of one line from byte `from` on. */
  ghost function LineChunks(row: seq<byte>, line: nat, lastLine: bool, maxSeg: nat, from: nat): seq<Chunk>
    requires maxSeg > 0
    decreases |row| - from
  {
    if from >= |row| then
      []
    else
      [ChunkFrom(row, line, lastLine, maxSeg, from)] +
      LineChunks(row, line, lastLine, maxSeg, ChunkEnd(|row|, maxSeg, from))
  }

  /** All chunks of a frame from line `line` on. */
  ghost function Plan(frame: seq<byte>, stride: nat, height: nat, maxSeg: nat, line: nat): seq<Chunk>
    requires maxSeg > 0 && |frame| == Times(height, stride) && line <= height
    decreases height - line
  {
    if line == height then
      []
    else
      LineChunks(Row(frame, stride, height, line), line, line + 1 == height, maxSeg, 0) +
      Plan(frame, stride, height, maxSeg, line + 1)
  }

  ghost function Row(frame: seq<byte>, stride: nat, height: nat, line: nat): (row: seq<byte>)
    requires |frame| == Times(height, stride) && line < height
    ensures |row| == stride
  {
    TimesMonotone(line + 1, height, stride);
    frame[Times(line, stride)..Times(line + 1, stride)]
  }

  // ---------- What the plan is good for ----------

  ghost function Payloads(cs: seq<Chunk>): seq<byte> {
    if cs == [] then [] else cs[0].data + Payloads(cs[1..])
  }

  /** A chunk of `row` that starts at a group boundary and says so in pixels. */
  ghost predicate Honest(c: Chunk, row: seq<byte>, line: nat, from: nat, maxSeg: nat) {
    c.line == line && from % 5 == 0 && c.offset / 2 * 5 == from &&
    0 < |c.data| <= maxSeg && |c.data| % 5 == 0 &&
    from + |c.data| <= |row| && c.data == row[from..from + |c.data|]
  }

  /** The chunks come one after another, beginning at byte `from`. */
  ghost predicate InSequence(cs: seq<Chunk>, row: seq<byte>, line: nat, from: nat, maxSeg: nat) {
    cs == [] ||
    (Honest(cs[0], row, line, from, maxSeg) && InSequence(cs[1..], row, line, from + |cs[0].data|, maxSeg))
  }

  lemma OffsetInBytes(from: nat)
    requires from % 5 == 0 && from / 5 * 2 < 0x1_0000
    ensures PixelOffset(from) / 2 * 5 == from
  {
  }

  lemma SplitStep(c: Chunk, rest: seq<Chunk>, row: seq<byte>, line: nat, from: nat, to: nat, maxSeg: nat)
    requires Honest(c, row, line, from, maxSeg) && to == from + |c.data|
    requires Payloads(rest) == row[to..] && InSequence(rest, row, line, to, maxSeg)
    ensures Payloads([c] + rest) == row[from..] && InSequence([c] + rest, row, line, from, maxSeg)
  {
    assert ([c] + rest)[1..] == rest;
    assert row[from..] == row[from..to] + row[to..];
  }

  /** The line continues after every chunk but the last, which alone can end the frame. */
  ghost predicate EndsOnce(cs: seq<Chunk>, lastLine: bool) {
    forall i :: 0 <= i < |cs| ==> (cs[i].more <==> i < |cs| - 1) && (cs[i].last <==> lastLine && i == |cs| - 1)
  }

  lemma {:induction false} LineEndsOnce(row: seq<byte>, line: nat, lastLine: bool, maxSeg: nat, from: nat)
    requires maxSeg > 0 && from <= |row|
    ensures var cs := LineChunks(row, line, lastLine, maxSeg, from);
            EndsOnce(cs, lastLine) && (cs == [] <==> from == |row|)
    decreases |row| - from
  {
    if from >= |row| {
    } else {
      LineEndsOnce(row, line, lastLine, maxSeg, ChunkEnd(|row|, maxSeg, from));
    }
  }

  lemma ChunkIsHonest(row: seq<byte>, line: nat, lastLine: bool, maxSeg: nat, from: nat)
    requires maxSeg > 0 && maxSeg % 5 == 0 && |row| % 5 == 0 && |row| / 5 * 2 <= 0x1_0000
    requires from < |row| && from % 5 == 0
    ensures var c, to := ChunkFrom(row, line, lastLine, maxSeg, from), ChunkEnd(|row|, maxSeg, from);
            Honest(c, row, line, from, maxSeg) && from + |c.data| == to && from < to <= |row| && to % 5 == 0
  {
    OffsetInBytes(from);
  }

  lemma {:induction false} LineInSequence(row: seq<byte>, line: nat, lastLine: bool, maxSeg: nat, from: nat)
    requires maxSeg > 0 && maxSeg % 5 == 0 && |row| % 5 == 0 && |row| / 5 * 2 <= 0x1_0000
    requires from <= |row| && from % 5 == 0
    ensures var cs := LineChunks(row, line, lastLine, maxSeg, from);
            Payloads(cs) == row[from..] && InSequence(cs, row, line, from, maxSeg)
    decreases |row| - from
  {
    hide Honest, ChunkFrom, ChunkEnd;
    if from >= |row| {
    } else {
      var to := ChunkEnd(|row|, maxSeg, from);
      ChunkIsHonest(row, line, lastLine, maxSeg, from);
      LineInSequence(row, line, lastLine, maxSeg, to);
      var c := ChunkFrom(row, line, lastLine, maxSeg, from);
      SplitStep(c, LineChunks(row, line, lastLine, maxSeg, to), row, line, from, to, maxSeg);
    }
  }

  /** The loop over one line: its chunks are whole groups, put together again they are the
      line, each offset in pixels converts back to the offset in bytes, and exactly the
      last one ends the line. */
  lemma LineIsSplitExactly(row: seq<byte>, line: nat, lastLine: bool, maxSeg: nat)
    requires maxSeg > 0 && maxSeg % 5 == 0 && |row| % 5 == 0 && |row| / 5 * 2 <= 0x1_0000
    ensures var cs := LineChunks(row, line, lastLine, maxSeg, 0);
            Payloads(cs) == row && InSequence(cs, row, line, 0, maxSeg) && EndsOnce(cs, lastLine)
  {
    LineInSequence(row, line, lastLine, maxSeg, 0);
    LineEndsOnce(row, line, lastLine, maxSeg, 0);
    assert row[0..] == row;
  }

  /** First byte of a chunk in its line, as the receiver computes it. */
  function StartOf(c: Chunk): nat {
    c.offset / 2 * 5
  }

  /** The chunk is the bytes of the frame that its line and offset name. */
  ghost predicate Placed(c: Chunk, frame: seq<byte>, stride: nat, height: nat, maxSeg: nat) {
    c.line < height && 0 < |c.data| <= maxSeg && |c.data| % 5 == 0 && StartOf(c) + |c.data| <= stride &&
    Times(c.line, stride) + StartOf(c) + |c.data| <= |frame| &&
    c.data == frame[Times(c.line, stride) + StartOf(c)..Times(c.line, stride) + StartOf(c) + |c.data|]
  }

  ghost predicate Reaches(c: Chunk, stride: nat, j: int) {
    Times(c.line, stride) + StartOf(c) <= j < Times(c.line, stride) + StartOf(c) + |c.data|
  }

  ghost predicate Reached(cs: seq<Chunk>, stride: nat, j: int) {
    exists c :: c in cs && Reaches(c, stride, j)
  }

  /** The chunks carry all bytes `from..to` of the frame. */
  ghost predicate ReachAll(cs: seq<Chunk>, stride: nat, from: nat, to: nat) {
    forall j: int :: from <= j < to ==> Reached(cs, stride, j)
  }

  lemma ReachJoin(a: seq<Chunk>, b: seq<Chunk>, stride: nat, from: nat, mid: nat, to: nat)
    requires ReachAll(a, stride, from, mid) && ReachAll(b, stride, mid, to)
    ensures ReachAll(a + b, stride, from, to)
  {
    forall j | from <= j < to
      ensures Reached(a + b, stride, j)
    {
      if j < mid {
        assert Reached(a, stride, j);
        var c :| c in a && Reaches(c, stride, j);
        assert c in a + b;
      } else {
        assert Reached(b, stride, j);
        var c :| c in b && Reaches(c, stride, j);
        assert c in a + b;
      }
    }
  }

  lemma ReachOne(c: Chunk, stride: nat)
    ensures ReachAll([c], stride, Times(c.line, stride) + StartOf(c), Times(c.line, stride) + StartOf(c) + |c.data|)
  {
    forall j | Times(c.line, stride) + StartOf(c) <= j < Times(c.line, stride) + StartOf(c) + |c.data|
      ensures Reached([c], stride, j)
    {
      assert c in [c] && Reaches(c, stride, j);
    }
  }

  /** The sizes for which offsets in pixels fit their field. */
  ghost predicate Splittable(frame: seq<byte>, stride: nat, height: nat, maxSeg: nat) {
    |frame| == Times(height, stride) && 0 < stride && stride % 5 == 0 && stride / 5 * 2 <= 0x1_0000 &&
    maxSeg > 0 && maxSeg % 5 == 0
  }

  lemma FirstChunkPlaced(frame: seq<byte>, stride: nat, height: nat, maxSeg: nat, line: nat, from: nat)
    requires Splittable(frame, stride, height, maxSeg) && line < height && from < stride && from % 5 == 0
    ensures var c := ChunkFrom(Row(frame, stride, height, line), line, line + 1 == height, maxSeg, from);
            Placed(c, frame, stride, height, maxSeg) && c.line == line && StartOf(c) == from &&
            from + |c.data| == ChunkEnd(stride, maxSeg, from)
  {
    var row, at := Row(frame, stride, height, line), Times(line, stride);
    var to := ChunkEnd(stride, maxSeg, from);
    OffsetInBytes(from);
    TimesMonotone(line + 1, height, stride);
    SliceOfSlice(frame, at, row, from, to);
  }

  lemma {:induction false} LineChunksPlaced(
    frame: seq<byte>, stride: nat, height: nat, maxSeg: nat, line: nat, from: nat)
    requires Splittable(frame, stride, height, maxSeg) && line < height && from <= stride && from % 5 == 0
    ensures var cs := LineChunks(Row(frame, stride, height, line), line, line + 1 == height, maxSeg, from);
            (forall c :: c in cs ==> Placed(c, frame, stride, height, maxSeg)) &&
            ReachAll(cs, stride, Times(line, stride) + from, Times(line + 1, stride))
    decreases stride - from
  {
    if from >= stride {
    } else {
      var row := Row(frame, stride, height, line);
      var to := ChunkEnd(stride, maxSeg, from);
      var cs := LineChunks(row, line, line + 1 == height, maxSeg, from);
      var rest := LineChunks(row, line, line + 1 == height, maxSeg, to);
      FirstChunkPlaced(frame, stride, height, maxSeg, line, from);
      LineChunksPlaced(frame, stride, height, maxSeg, line, to);
      ReachOne(cs[0], stride);
      ReachJoin([cs[0]], rest, stride, Times(line, stride) + from, Times(line, stride) + to, Times(line + 1, stride));
      assert cs == [cs[0]] + rest;
    }
  }

  /** Every packet of a frame carries bytes of the frame at the place its header names, and
      together the packets reach every byte. */
  lemma {:induction false} PlanCoversFrame(frame: seq<byte>, stride: nat, height: nat, maxSeg: nat, line: nat)
    requires Splittable(frame, stride, height, maxSeg) && line <= height
    ensures var cs := Plan(frame, stride, height, maxSeg, line);
            (forall c :: c in cs ==> Placed(c, frame, stride, height, maxSeg)) &&
            ReachAll(cs, stride, Times(line, stride), |frame|)
    decreases height - line
  {
    if line >= height {
    } else {
      var first := LineChunks(Row(frame, stride, height, line), line, line + 1 == height, maxSeg, 0);
      var rest := Plan(frame, stride, height, maxSeg, line + 1);
      LineChunksPlaced(frame, stride, height, maxSeg, line, 0);
      PlanCoversFrame(frame, stride, height, maxSeg, line + 1);
      ReachJoin(first, rest, stride, Times(line, stride), Times(line + 1, stride), |frame|);
    }
  }

  /** Exactly one packet of a frame, the last, ends it. */
  lemma {:induction false} PlanEndsOnce(frame: seq<byte>, stride: nat, height: nat, maxSeg: nat, line: nat)
    requires Splittable(frame, stride, height, maxSeg) && line <= height
    ensures var cs := Plan(frame, stride, height, maxSeg, line);
            (line < height ==> cs != []) &&
            forall i :: 0 <= i < |cs| ==> (cs[i].last <==> i == |cs| - 1)
    decreases height - line
  {
    if line >= height {
    } else {
      var row := Row(frame, stride, height, line);
      LineEndsOnce(row, line, line + 1 == height, maxSeg, 0);
      PlanEndsOnce(frame, stride, height, maxSeg, line + 1);
    }
  }

  lemma {:induction false} LineChunkCount(row: seq<byte>, line: nat, lastLine: bool, maxSeg: nat, from: nat, k: nat)
    requires maxSeg > 0 && |row| - from <= Times(k, maxSeg)
    ensures |LineChunks(row, line, lastLine, maxSeg, from)| <= k
    decreases |row| - from
  {
    if from >= |row| {
    } else {
      assert k > 0;
      var to := ChunkEnd(|row|, maxSeg, from);
      LineChunkCount(row, line, lastLine, maxSeg, to, k - 1);
    }
  }

  /** A line of `k` packets at most gives a frame of `k` times `height` at most. */
  lemma {:induction false} PlanCount(frame: seq<byte>, stride: nat, height: nat, maxSeg: nat, line: nat, k: nat)
    requires maxSeg > 0 && |frame| == Times(height, stride) && line <= height && stride <= Times(k, maxSeg)
    ensures |Plan(frame, stride, height, maxSeg, line)| <= Times(height - line, k)
    decreases height - line
  {
    if line >= height {
    } else {
      LineChunkCount(Row(frame, stride, height, line), line, line + 1 == height, maxSeg, 0, k);
      PlanCount(frame, stride, height, maxSeg, line + 1, k);
    }
  }

  // ---------- The packets the tool writes ----------

  /** The tool's RTP header: version 2, dynamic payload type 96, no sources, no extension. */
  function SenderRtp(seqNo: u16, ts: u32, ssrc: u32, marker: bool): (r: Rtp)
    ensures ValidRtp(r) && RtpBytes(r) == FixedBytes(r)
  {
    Rtp(4, 96, marker, seqNo, ts, ssrc, [], None)
  }

  /** The tool's segment header. The top bit of the offset says that the line continues. */
  function ToolHeader(c: Chunk): (b: seq<byte>)
    ensures |b| == 6
  {
    var top := if c.more && Hi(c.offset) < 0x80 then Hi(c.offset) + 0x80 else Hi(c.offset);
    [|c.data| / 256 % 256, |c.data| % 256, c.line / 256 % 256, c.line % 256, top, Lo(c.offset)]
  }

  /** The packet as the tool sends it: no extended sequence number. */
  function ToolPacket(c: Chunk, seqNo: u16, ts: u32, ssrc: u32): seq<byte> {
    FixedBytes(SenderRtp(seqNo, ts, ssrc, c.last)) + ToolHeader(c) + c.data
  }

  function SeqNumber(n: nat): u16 {
    n % 0x1_0000
  }

  /** The `i`-th packet sent is the tool's packet for the `i`-th chunk, numbered from `n` on. */
  ghost predicate PacketFor(ps: seq<seq<byte>>, cs: seq<Chunk>, n: nat, ts: u32, ssrc: u32, i: nat)
    requires |ps| == |cs| && i < |cs|
  {
    ps[i] == ToolPacket(cs[i], SeqNumber(n + i), ts, ssrc)
  }

  ghost predicate PacketsFor(ps: seq<seq<byte>>, cs: seq<Chunk>, n: nat, ts: u32, ssrc: u32) {
    |ps| == |cs| && forall i: nat :: i < |cs| ==> PacketFor(ps, cs, n, ts, ssrc, i)
  }

  lemma PacketsForConcat(
    ps: seq<seq<byte>>, cs: seq<Chunk>, ps': seq<seq<byte>>, cs': seq<Chunk>, n: nat, ts: u32, ssrc: u32)
    requires PacketsFor(ps, cs, n, ts, ssrc) && PacketsFor(ps', cs', n + |cs|, ts, ssrc)
    ensures PacketsFor(ps + ps', cs + cs', n, ts, ssrc)
  {
    forall i: nat | i < |cs + cs'|
      ensures PacketFor(ps + ps', cs + cs', n, ts, ssrc, i)
    {
      if i < |cs| {
        assert PacketFor(ps, cs, n, ts, ssrc, i);
      } else {
        assert PacketFor(ps', cs', n + |cs|, ts, ssrc, i - |cs|);
        assert n + |cs| + (i - |cs|) == n + i;
      }
    }
  }

  lemma PacketsForSnoc(
    ps: seq<seq<byte>>, cs: seq<Chunk>, p: seq<byte>, c: Chunk, n: nat, ts: u32, ssrc: u32)
    requires PacketsFor(ps, cs, n, ts, ssrc) && p == ToolPacket(c, SeqNumber(n + |ps|), ts, ssrc)
    ensures PacketsFor(ps + [p], cs + [c], n, ts, ssrc)
  {
    assert PacketFor([p], [c], n + |cs|, ts, ssrc, 0);
    PacketsForConcat(ps, cs, [p], [c], n, ts, ssrc);
  }

  lemma SenderBytes(seqNo: u16, ts: u32, ssrc: u32, marker: bool)
    ensures FixedBytes(SenderRtp(seqNo, ts, ssrc, marker)) ==
            [0x80, if marker then 0xE0 else 0x60, Hi(seqNo), Lo(seqNo)] + Bytes32(ts) + Bytes32(ssrc)
  {
  }

  method WriteRtpHeader(pkt: array<byte>, seqNo: u16, ts: u32, ssrc: u32, marker: bool)
    requires pkt.Length >= 12
    modifies pkt
    ensures pkt[..12] == FixedBytes(SenderRtp(seqNo, ts, ssrc, marker))
  {
    pkt[0] := 0x80;
    pkt[1] := if marker then 96 + 0x80 else 96;
    pkt[2], pkt[3] := Hi(seqNo), Lo(seqNo);
    ghost var four := pkt[..4];
    assert four == [0x80, if marker then 0xE0 else 0x60, Hi(seqNo), Lo(seqNo)];
    WriteBe32(pkt, 4, ts);
    ghost var eight := pkt[4..8];
    WriteBe32(pkt, 8, ssrc);
    SenderBytes(seqNo, ts, ssrc, marker);
    assert pkt[..4] == four && pkt[4..8] == eight;
    assert pkt[..12] == pkt[..4] + pkt[4..8] + pkt[8..12];
  }

  method WriteBe32(pkt: array<byte>, at: nat, x: u32)
    requires at + 4 <= pkt.Length
    modifies pkt
    ensures pkt[at..at + 4] == Bytes32(x)
    ensures forall j :: 0 <= j < pkt.Length && !(at <= j < at + 4) ==> pkt[j] == old(pkt[j])
  {
    pkt[at] := x / 0x100_0000;
    pkt[at + 1] := x / 0x1_0000 % 256;
    pkt[at + 2] := x / 256 % 256;
    pkt[at + 3] := x % 256;
    FourBytes(x);
    assert pkt[at..at + 4] == [pkt[at], pkt[at + 1], pkt[at + 2], pkt[at + 3]];
  }

  /** One packet, written into the reused buffer; `n` is the length to send. */
  method WritePacket(packet: array<byte>, c: Chunk, seqNo: u16, ts: u32, ssrc: u32) returns (n: nat)
    requires 18 + |c.data| <= packet.Length
    modifies packet
    ensures n == 18 + |c.data| && packet[..n] == ToolPacket(c, seqNo, ts, ssrc)
  {
    n := 18 + |c.data|;
    WriteRtpHeader(packet, seqNo, ts, ssrc, c.last);
    ghost var rtp := packet[..12];
    packet[12], packet[13] := |c.data| / 256 % 256, |c.data| % 256;
    packet[14], packet[15] := c.line / 256 % 256, c.line % 256;
    packet[16] := if c.more && c.offset / 256 < 0x80 then c.offset / 256 + 0x80 else c.offset / 256;
    packet[17] := c.offset % 256;
    forall k | 0 <= k < |c.data| {
      packet[18 + k] := c.data[k];
    }
    assert packet[..12] == rtp && packet[12..18] == ToolHeader(c) && packet[18..n] == c.data;
    assert packet[..n] == packet[..12] + packet[12..18] + packet[18..n];
  }

  lemma NextOffset(from: nat, len: nat)
    requires from % 5 == 0 && len % 5 == 0
    ensures (PixelOffset(from) + len / 5 * 2) % 0x1_0000 == PixelOffset(from + len)
  {
    assert (from + len) / 5 == from / 5 + len / 5;
  }

  /** One more chunk leaves the offset right and the remainder in whole groups. */
  lemma StillAligned(len: nat, maxSeg: nat, remaining: nat)
    requires len % 5 == 0 && maxSeg % 5 == 0 && remaining % 5 == 0 && remaining <= len
    ensures var segLen := if remaining > maxSeg then maxSeg else remaining;
            (remaining - segLen) % 5 == 0 &&
            (PixelOffset(len - remaining) + segLen / 5 * 2) % 0x1_0000 == PixelOffset(len - remaining + segLen)
  {
    NextOffset(len - remaining, if remaining > maxSeg then maxSeg else remaining);
  }

  /** The low bits of a 32-bit counter that has counted to `n`. */
  function Counter(n: nat): u32 {
    n % 0x1_0000_0000
  }

  lemma CounterCast(n: nat)
    ensures Counter(n) % 0x1_0000 == SeqNumber(n) && Inc32(Counter(n)) == Counter(n + 1)
  {
    assert n == 0x1_0000_0000 * (n / 0x1_0000_0000) + Counter(n);
  }

  /** The inner loop: the packets of one line. `next` is the running counter, of which the
      low 16 bits become sequence numbers; `n` is its value without wraps. */
  method SendLine(packet: array<byte>, row: seq<byte>, line: nat, lastLine: bool, maxSeg: nat,
                  first: u32, ghost n: nat, ts: u32, ssrc: u32)
    returns (sent: seq<seq<byte>>, next: u32)
    requires |row| % 5 == 0 && maxSeg > 0 && maxSeg % 5 == 0 && 18 + maxSeg <= packet.Length && first == Counter(n)
    modifies packet
    ensures PacketsFor(sent, LineChunks(row, line, lastLine, maxSeg, 0), n, ts, ssrc)
    ensures next == Counter(n + |sent|)
  {
    sent, next := [], first;
    var remaining, pixelOffset: u16 := |row|, 0;
    ghost var all := LineChunks(row, line, lastLine, maxSeg, 0);
    ghost var done: seq<Chunk> := [];
    while remaining > 0
      invariant remaining <= |row| && remaining % 5 == 0 && pixelOffset == PixelOffset(|row| - remaining)
      invariant PacketsFor(sent, done, n, ts, ssrc) && next == Counter(n + |sent|)
      invariant SentSoFar(done, all, row, line, lastLine, maxSeg, |row| - remaining)
    {
      var from := |row| - remaining;
      LineChunksStep(done, all, row, line, lastLine, maxSeg, from);
      ghost var c := ChunkFrom(row, line, lastLine, maxSeg, from);
      var p, segLen := SendChunk(packet, row, line, lastLine, maxSeg, from, pixelOffset, next, n + |sent|, ts, ssrc);
      PacketsForSnoc(sent, done, p, c, n, ts, ssrc);
      CounterCast(n + |sent|);
      StillAligned(|row|, maxSeg, remaining);
      sent, next, done := sent + [p], Inc32(next), done + [c];
      remaining := remaining - segLen;
      pixelOffset := (pixelOffset + segLen / 5 * 2) % 0x1_0000;
    }
    LineDone(done, all, row, line, lastLine, maxSeg);
  }

  /** The loop body up to the send. */
  method SendChunk(packet: array<byte>, row: seq<byte>, line: nat, lastLine: bool, maxSeg: nat, from: nat,
                   pixelOffset: u16, next: u32, ghost n: nat, ts: u32, ssrc: u32)
    returns (p: seq<byte>, segLen: nat)
    requires from < |row| && 18 + maxSeg <= packet.Length && pixelOffset == PixelOffset(from) && next == Counter(n)
    modifies packet
    ensures p == ToolPacket(ChunkFrom(row, line, lastLine, maxSeg, from), SeqNumber(n), ts, ssrc)
    ensures from + segLen == ChunkEnd(|row|, maxSeg, from)
  {
    var remaining := |row| - from;
    segLen := if remaining > maxSeg then maxSeg else remaining;
    var more := remaining > segLen;
    var c := Chunk(line, pixelOffset, more, lastLine && !more, row[from..from + segLen]);
    CounterCast(n);
    var len := WritePacket(packet, c, next % 0x1_0000, ts, ssrc);
    p := packet[..len];
  }

  /** `done` is the first part of `all`, and the rest begins at byte `from`. */
  ghost predicate SentSoFar(
    done: seq<Chunk>, all: seq<Chunk>, row: seq<byte>, line: nat, lastLine: bool, maxSeg: nat, from: nat)
    requires maxSeg > 0
  {
    |done| <= |all| && done == all[..|done|] && all[|done|..] == LineChunks(row, line, lastLine, maxSeg, from)
  }

  lemma LineChunksStep(
    done: seq<Chunk>, all: seq<Chunk>, row: seq<byte>, line: nat, lastLine: bool, maxSeg: nat, from: nat)
    requires maxSeg > 0 && from < |row| && SentSoFar(done, all, row, line, lastLine, maxSeg, from)
    ensures SentSoFar(done + [ChunkFrom(row, line, lastLine, maxSeg, from)], all, row, line, lastLine, maxSeg,
                      ChunkEnd(|row|, maxSeg, from))
  {
    var rest := all[|done|..];
    assert rest[0] == all[|done|] && rest[1..] == all[|done| + 1..];
  }

  lemma LineDone(done: seq<Chunk>, all: seq<Chunk>, row: seq<byte>, line: nat, lastLine: bool, maxSeg: nat)
    requires maxSeg > 0 && SentSoFar(done, all, row, line, lastLine, maxSeg, |row|)
    ensures done == all
  {
  }

  method LineBytes(frame: array<byte>, stride: nat, height: nat, line: nat) returns (row: seq<byte>)
    requires frame.Length == Times(height, stride) && line < height
    ensures row == Row(frame[..], stride, height, line)
  {
    TimesMonotone(line + 1, height, stride);
    row := frame[Times(line, stride)..Times(line + 1, stride)];
  }

  /** One frame of the sending loop, without drops. */
  method SendFrame(frame: array<byte>, width: nat, height: nat, mtu: nat, first: u32, ts: u32, ssrc: u32)
    returns (sent: seq<seq<byte>>, next: u32)
    requires mtu in {1500, 9000} && frame.Length == Times(height, 5 * (width / 2))
    ensures PacketsFor(sent, Plan(frame[..], 5 * (width / 2), height, MaxSegment(mtu), 0), first, ts, ssrc)
    ensures next == Counter(first + |sent|)
  {
    hide LineChunks, ToolPacket, Row;
    var stride, maxSeg := 5 * (width / 2), MaxSegment(mtu);
    var packet := new byte[mtu - 28](_ => 0);
    sent, next := [], first;
    ghost var image, done := frame[..], [];
    for line := 0 to height
      invariant PacketsFor(sent, done, first, ts, ssrc) && next == Counter(first + |sent|) && frame[..] == image
      invariant SentLines(done, image, stride, height, maxSeg, line)
    {
      var row := LineBytes(frame, stride, height, line);
      ghost var chunks := LineChunks(row, line, line + 1 == height, maxSeg, 0);
      PlanStep(done, image, stride, height, maxSeg, line, row);
      var packets, n := SendLine(packet, row, line, line + 1 == height, maxSeg, next, first + |sent|, ts, ssrc);
      PacketsForConcat(sent, done, packets, chunks, first, ts, ssrc);
      sent, next, done := sent + packets, n, done + chunks;
    }
    PlanDone(done, image, stride, height, maxSeg);
  }

  ghost predicate SentLines(
    done: seq<Chunk>, frame: seq<byte>, stride: nat, height: nat, maxSeg: nat, line: nat)
    requires maxSeg > 0 && |frame| == Times(height, stride) && line <= height
  {
    Plan(frame, stride, height, maxSeg, 0) == done + Plan(frame, stride, height, maxSeg, line)
  }

  lemma PlanStep(
    done: seq<Chunk>, frame: seq<byte>, stride: nat, height: nat, maxSeg: nat, line: nat, row: seq<byte>)
    requires maxSeg > 0 && |frame| == Times(height, stride) && line < height
    requires SentLines(done, frame, stride, height, maxSeg, line) && row == Row(frame, stride, height, line)
    ensures SentLines(done + LineChunks(row, line, line + 1 == height, maxSeg, 0),
                      frame, stride, height, maxSeg, line + 1)
  {
    var chunks := LineChunks(row, line, line + 1 == height, maxSeg, 0);
    var below := Plan(frame, stride, height, maxSeg, line + 1);
    assert done + (chunks + below) == (done + chunks) + below;
  }

  lemma PlanDone(done: seq<Chunk>, frame: seq<byte>, stride: nat, height: nat, maxSeg: nat)
    requires maxSeg > 0 && |frame| == Times(height, stride) && SentLines(done, frame, stride, height, maxSeg, height)
    ensures done == Plan(frame, stride, height, maxSeg, 0)
  {
    assert done + [] == done;
  }

  // ---------- The tool against the receiver ----------

  lemma {:induction false} LandedIsShort(g: Geometry, b: seq<byte>, hs: seq<SegmentHeader>, p: nat, n: nat)
    requires n <= |hs|
    ensures PayloadStart(hs, p, n) >= p
    ensures forall w :: w in Landed(g, b, hs, p, n) ==> p + |w.data| <= |b|
  {
    if n == 0 {
    } else {
      LandedIsShort(g, b, hs, p, n - 1);
    }
  }

  lemma ToolPacketHasRtpHeader(c: Chunk, seqNo: u16, ts: u32, ssrc: u32)
    ensures var b := ToolPacket(c, seqNo, ts, ssrc);
            |b| == 18 + |c.data| && ParseRtpHeader(b) == Some(RtpHeader(seqNo, ts, c.last, 12))
  {
    var r := SenderRtp(seqNo, ts, ssrc, c.last);
    RtpHeaderRoundTrip(r, ToolHeader(c) + c.data);
    assert ToolPacket(c, seqNo, ts, ssrc) == RtpBytes(r) + (ToolHeader(c) + c.data);
  }

  /** What the receiver takes for the first segment header. */
  lemma ToolHeaderIsMisread(c: Chunk, seqNo: u16, ts: u32, ssrc: u32)
    requires |c.data| >= 2
    ensures var b := ToolPacket(c, seqNo, ts, ssrc);
            |b| >= 20 && HeaderAt(b, 14, 0).length == c.line % 0x1_0000 && HeaderAt(b, 14, 0).line == c.offset % 0x8000
  {
    var b, h := ToolPacket(c, seqNo, ts, ssrc), ToolHeader(c);
    var front := FixedBytes(SenderRtp(seqNo, ts, ssrc, c.last)) + h[..2];
    assert b == front + ((h[2..] + c.data[..2]) + c.data[2..]);
    MiddleOf(front, h[2..] + c.data[..2], c.data[2..]);
    LateHeader(c, h[2..] + c.data[..2]);
  }

  /** The bit that would announce another header is the top bit of the first pixel byte; the
      tool's own continuation bit falls into the line field, where the receiver masks it. */
  lemma ToolPixelsDecideContinuation(c: Chunk, seqNo: u16, ts: u32, ssrc: u32)
    requires |c.data| >= 2
    ensures var b := ToolPacket(c, seqNo, ts, ssrc);
            |b| >= 20 && (HeaderAt(b, 14, 0).more <==> c.data[0] >= 0x80)
  {
    hide FixedBytes, ToolHeader;
    var b, h := ToolPacket(c, seqNo, ts, ssrc), ToolHeader(c);
    var front := FixedBytes(SenderRtp(seqNo, ts, ssrc, c.last)) + h[..2];
    var six := h[2..] + c.data[..2];
    assert b == front + (six + c.data[2..]);
    MiddleOf(front, six, c.data[2..]);
    assert six[4] == c.data[0];
  }

  /** With an extended sequence number put in front of it the tool's header is read at its place:
      length, line and offset come through, but a line that continues in the next packet is
      announced as another header in this one. */
  lemma ToolHeaderAnnouncesAnother(c: Chunk, seqNo: u16, ts: u32, ssrc: u32, extSeq: u16)
    ensures var b := FixedBytes(SenderRtp(seqNo, ts, ssrc, c.last)) + [Hi(extSeq), Lo(extSeq)] + ToolHeader(c) + c.data;
            |b| >= 20 &&
            HeaderAt(b, 14, 0) ==
            SegmentHeader(|c.data| % 0x1_0000, c.line % 0x8000, c.offset % 0x8000, c.more || c.offset >= 0x8000)
  {
    hide FixedBytes, ToolHeader, Be16;
    var h := ToolHeader(c);
    var front := FixedBytes(SenderRtp(seqNo, ts, ssrc, c.last)) + [Hi(extSeq), Lo(extSeq)];
    assert front + h + c.data == front + (h + c.data);
    MiddleOf(front, h, c.data);
    LengthField(c);
    LineField(c);
    OffsetField(c);
    TopBitField(c);
    LineBelowTopBit(c.line);
  }

  lemma LengthField(c: Chunk)
    ensures var h := ToolHeader(c); Be16(h[0], h[1]) == |c.data| % 0x1_0000
  {
  }

  lemma TopBitField(c: Chunk)
    ensures var h := ToolHeader(c); Be16(h[4], h[5]) >= 0x8000 <==> c.more || c.offset >= 0x8000
  {
    assert Hi(c.offset) >= 0x80 <==> c.offset >= 0x8000;
  }

  lemma LineBelowTopBit(line: nat)
    ensures line % 0x1_0000 % 0x8000 == line % 0x8000
  {
  }

  lemma LateHeader(c: Chunk, six: seq<byte>)
    requires |six| == 6 && six[..4] == ToolHeader(c)[2..]
    ensures ParseSegmentHeader(six).length == c.line % 0x1_0000 && ParseSegmentHeader(six).line == c.offset % 0x8000
  {
    hide Be16, ToolHeader;
    var h := ToolHeader(c);
    assert six[0] == six[..4][0] == h[2] && six[1] == six[..4][1] == h[3];
    assert six[2] == six[..4][2] == h[4] && six[3] == six[..4][3] == h[5];
    LineField(c);
    OffsetField(c);
  }

  lemma LineField(c: Chunk)
    ensures var h := ToolHeader(c); Be16(h[2], h[3]) == c.line % 0x1_0000
  {
  }

  lemma OffsetField(c: Chunk)
    ensures var h := ToolHeader(c); Be16(h[4], h[5]) % 0x8000 == c.offset % 0x8000
  {
    var h := ToolHeader(c);
    HiLo(c.offset);
    assert h[4] == Hi(c.offset) || h[4] == Hi(c.offset) + 0x80;
    WithoutTopBit(c.offset, Be16(h[4], h[5]));
  }

  lemma WithoutTopBit(x: u16, y: u16)
    requires y == x || y == x + 0x8000
    ensures y % 0x8000 == x % 0x8000
  {
  }

  /** The tool leaves out the extended sequence number of section 4.2 of RFC 4175, which the
      receiver skips. The RTP header comes through, but the first segment header is read two
      bytes late, its length from the line number and its line from the offset, and no copy
      the receiver makes is as long as the payload: no packet of the tool is ever placed as
      meant. */
  lemma ToolPacketIsMisread(g: Geometry, c: Chunk, seqNo: u16, ts: u32, ssrc: u32)
    requires |c.data| >= 2
    ensures var d := Decode(g, ToolPacket(c, seqNo, ts, ssrc));
            d.Some? && d.value.seqNo == seqNo && d.value.ts == ts && d.value.marker == c.last &&
            forall w :: w in d.value.writes ==> |w.data| < |c.data|
  {
    var b := ToolPacket(c, seqNo, ts, ssrc);
    ToolPacketHasRtpHeader(c, seqNo, ts, ssrc);
    var hs := Segments(b, 14);
    DecodeByParts(g, b, RtpHeader(seqNo, ts, c.last, 12), hs);
    LandedIsShort(g, b, hs, 14 + 6 * |hs|, |hs|);
    NoSegmentsNoCopies(g, b);
  }

  lemma NoSegmentsNoCopies(g: Geometry, b: seq<byte>)
    ensures Landed(g, b, [], 14, 0) == []
  {
  }
}
