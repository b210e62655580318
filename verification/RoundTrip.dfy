/** Sections 5.1 and 5.3.1 of RFC 3550 and sections 4.1 to 4.3 of RFC 4175 as an
    encoder, and the proof that the receiver's parser inverts it. */
module RoundTrip {
  import opened Bytes
  import opened Overlay
  import opened Wire

  /** A header extension; `body` is a whole number of 32-bit words. */
  datatype Extension = Extension(profile: u16, body: seq<byte>)

  /** `top` is the version and padding bits, `csrcs` the contributing sources as bytes. */
  datatype Rtp = Rtp(top: nat, payloadType: nat, marker: bool, seqNo: u16, ts: u32, ssrc: u32,
                     csrcs: seq<byte>, extension: Option<Extension>)

  ghost predicate ValidRtp(r: Rtp) {
    r.top < 8 && r.payloadType < 128 && |r.csrcs| % 4 == 0 && |r.csrcs| / 4 < 16 &&
    (r.extension.Some? ==> |r.extension.value.body| % 4 == 0 && |r.extension.value.body| / 4 < 0x1_0000)
  }

  function FixedBytes(r: Rtp): (b: seq<byte>)
    requires ValidRtp(r)
    ensures |b| == 12
  {
    [r.top * 32 + (if r.extension.Some? then 16 else 0) + |r.csrcs| / 4,
     r.payloadType + (if r.marker then 128 else 0),
     Hi(r.seqNo), Lo(r.seqNo)] + Bytes32(r.ts) + Bytes32(r.ssrc)
  }

  function ExtensionBytes(e: Option<Extension>): seq<byte>
    requires e.Some? ==> |e.value.body| / 4 < 0x1_0000
  {
    match e
    case None => []
    case Some(x) => [Hi(x.profile), Lo(x.profile), Hi(|x.body| / 4), Lo(|x.body| / 4)] + x.body
  }

  function RtpBytes(r: Rtp): seq<byte>
    requires ValidRtp(r)
  {
    FixedBytes(r) + r.csrcs + ExtensionBytes(r.extension)
  }

  lemma FirstTwoBytes(r: Rtp)
    requires ValidRtp(r)
    ensures var f := FixedBytes(r);
            (f[1] >= 0x80 <==> r.marker) && (f[0] / 16 % 2 == 1 <==> r.extension.Some?) &&
            f[0] % 16 * 4 == |r.csrcs|
  {
    var cc := |r.csrcs| / 4;
    assert FixedBytes(r)[0] == 16 * (2 * r.top + (if r.extension.Some? then 1 else 0)) + cc;
  }

  lemma FixedBytesParse(b: seq<byte>, r: Rtp)
    requires ValidRtp(r) && FixedBytes(r) <= b
    ensures (b[1] >= 0x80 <==> r.marker) && (b[0] / 16 % 2 == 1 <==> r.extension.Some?)
    ensures b[0] % 16 * 4 == |r.csrcs|
    ensures Be16(b[2], b[3]) == r.seqNo && Be32(b[4], b[5], b[6], b[7]) == r.ts
  {
    var f, t := FixedBytes(r), Bytes32(r.ts);
    FirstTwoBytes(r);
    assert b[0] == f[0] && b[1] == f[1] && b[2] == f[2] && b[3] == f[3];
    assert b[4] == f[4] == t[0] && b[5] == f[5] == t[1] && b[6] == f[6] == t[2] && b[7] == f[7] == t[3];
  }

  /** Any version, padding, payload type, up to 15 contributing sources and any extension:
      the receiver finds the sequence number, timestamp, marker and payload start. */
  lemma RtpHeaderRoundTrip(r: Rtp, rest: seq<byte>)
    requires ValidRtp(r)
    ensures ParseRtpHeader(RtpBytes(r) + rest) == Some(RtpHeader(r.seqNo, r.ts, r.marker, |RtpBytes(r)|))
  {
    var b := RtpBytes(r) + rest;
    assert FixedBytes(r) <= b;
    FixedBytesParse(b, r);
    var n := 12 + |r.csrcs|;
    match r.extension
    case None =>
      assert |RtpBytes(r)| == n;
    case Some(x) =>
      assert b[n..n + 4] == ExtensionBytes(r.extension)[..4];
      assert b[n + 2] == b[n..n + 4][2] && b[n + 3] == b[n..n + 4][3];
      assert Be16(b[n + 2], b[n + 3]) == |x.body| / 4;
      assert |RtpBytes(r)| == n + 4 + |x.body|;
  }

  // ---------- Line segments ----------

  /** A run of bytes for one line; `field` is the top bit of the line field, which the
      receiver does not look at. */
  datatype Segment = Segment(line: u15, offset: u15, field: bool, data: seq<byte>)

  ghost predicate ValidSegments(segs: seq<Segment>) {
    forall i :: 0 <= i < |segs| ==> |segs[i].data| < 0x1_0000
  }

  function HeaderBytes(s: Segment, more: bool): (b: seq<byte>)
    requires |s.data| < 0x1_0000
    ensures |b| == 6
  {
    var lineField := Flagged(s.line, s.field);
    var offsetCont := Flagged(s.offset, more);
    [Hi(|s.data|), Lo(|s.data|), Hi(lineField), Lo(lineField), Hi(offsetCont), Lo(offsetCont)]
  }

  /** The first `n` headers; all but the last of the packet announce another. */
  ghost function HeaderBlock(segs: seq<Segment>, n: nat): (b: seq<byte>)
    requires ValidSegments(segs) && n <= |segs|
    ensures |b| == 6 * n
  {
    if n == 0 then [] else HeaderBlock(segs, n - 1) + HeaderBytes(segs[n - 1], n < |segs|)
  }

  /** The first `n` payloads. */
  ghost function PayloadBlock(segs: seq<Segment>, n: nat): seq<byte>
    requires n <= |segs|
  {
    if n == 0 then [] else PayloadBlock(segs, n - 1) + segs[n - 1].data
  }

  lemma {:induction false} HeaderInBlock(segs: seq<Segment>, n: nat, i: nat)
    requires ValidSegments(segs) && i < n <= |segs|
    ensures HeaderBlock(segs, n)[6 * i..6 * i + 6] == HeaderBytes(segs[i], i + 1 < |segs|)
  {
    var before := HeaderBlock(segs, n - 1);
    if i + 1 >= n {
    } else {
      HeaderInBlock(segs, n - 1, i);
      assert HeaderBlock(segs, n)[6 * i..6 * i + 6] == before[6 * i..6 * i + 6];
    }
  }

  lemma {:induction false} PayloadInBlock(segs: seq<Segment>, n: nat, i: nat)
    requires i < n <= |segs|
    ensures |PayloadBlock(segs, i)| + |segs[i].data| <= |PayloadBlock(segs, n)|
    ensures PayloadBlock(segs, n)[|PayloadBlock(segs, i)|..|PayloadBlock(segs, i)| + |segs[i].data|] == segs[i].data
  {
    if i + 1 >= n {
    } else {
      PayloadInBlock(segs, n - 1, i);
      var from, to := |PayloadBlock(segs, i)|, |PayloadBlock(segs, i)| + |segs[i].data|;
      assert PayloadBlock(segs, n)[from..to] == PayloadBlock(segs, n - 1)[from..to];
    }
  }

  /** What the receiver makes of the six bytes of a header. */
  ghost function HeaderOf(s: Segment, more: bool): SegmentHeader
    requires |s.data| < 0x1_0000
  {
    SegmentHeader(|s.data|, s.line, s.offset, more)
  }

  /** A 15-bit field with a flag above it. */
  function Flagged(x: u15, top: bool): (y: u16)
    ensures y % 0x8000 == x && (y >= 0x8000 <==> top)
  {
    if top then x + 0x8000 else x
  }

  lemma ParseHeaderBytes(s: Segment, more: bool)
    requires |s.data| < 0x1_0000
    ensures ParseSegmentHeader(HeaderBytes(s, more)) == HeaderOf(s, more)
  {
    HiLo(|s.data|);
    HiLo(Flagged(s.line, s.field));
    HiLo(Flagged(s.offset, more));
  }

  // ---------- Whole datagrams ----------

  /** Section 4.2 of RFC 4175: RTP header, extended sequence number, all segment headers,
      all payloads. `tail` is whatever follows. */
  ghost function Datagram(r: Rtp, extSeq: u16, segs: seq<Segment>, tail: seq<byte>): seq<byte>
    requires ValidRtp(r) && ValidSegments(segs)
  {
    RtpBytes(r) + ([Hi(extSeq), Lo(extSeq)] + (HeaderBlock(segs, |segs|) + (PayloadBlock(segs, |segs|) + tail)))
  }

  /** Where the segment headers of a datagram start. */
  ghost function HeadersStart(r: Rtp): nat
    requires ValidRtp(r)
  {
    |RtpBytes(r)| + 2
  }

  lemma DatagramHeaders(r: Rtp, extSeq: u16, segs: seq<Segment>, tail: seq<byte>, i: nat)
    requires ValidRtp(r) && ValidSegments(segs) && i < |segs|
    ensures var b, p := Datagram(r, extSeq, segs, tail), HeadersStart(r);
            p + 6 * |segs| <= |b| && HeaderAt(b, p, i) == HeaderOf(segs[i], i + 1 < |segs|)
  {
    var b, p := Datagram(r, extSeq, segs, tail), HeadersStart(r);
    var front := RtpBytes(r) + [Hi(extSeq), Lo(extSeq)];
    var hs, rest := HeaderBlock(segs, |segs|), PayloadBlock(segs, |segs|) + tail;
    assert b == front + (hs + rest);
    MiddleSlice(front, hs, rest, 6 * i, 6 * i + 6);
    HeaderInBlock(segs, |segs|, i);
    ParseHeaderBytes(segs[i], i + 1 < |segs|);
  }

  /** The payload of segment `i` is where the headers, read from `p` on, place it. */
  ghost predicate PayloadAt(b: seq<byte>, p: nat, segs: seq<Segment>, i: nat)
    requires i < |segs|
  {
    var q := p + |PayloadBlock(segs, i)|;
    q + |segs[i].data| <= |b| && b[q..q + |segs[i].data|] == segs[i].data
  }

  lemma PayloadAfter(front: seq<byte>, segs: seq<Segment>, tail: seq<byte>, i: nat)
    requires i < |segs|
    ensures PayloadAt(front + (PayloadBlock(segs, |segs|) + tail), |front|, segs, i)
  {
    var from := |PayloadBlock(segs, i)|;
    PayloadInBlock(segs, |segs|, i);
    MiddleSlice(front, PayloadBlock(segs, |segs|), tail, from, from + |segs[i].data|);
  }

  lemma DatagramPayloads(r: Rtp, extSeq: u16, segs: seq<Segment>, tail: seq<byte>)
    requires ValidRtp(r) && ValidSegments(segs)
    ensures var b, p := Datagram(r, extSeq, segs, tail), HeadersStart(r) + 6 * |segs|;
            forall i: nat :: i < |segs| ==> PayloadAt(b, p, segs, i)
  {
    var b, p := Datagram(r, extSeq, segs, tail), HeadersStart(r) + 6 * |segs|;
    var front := RtpBytes(r) + [Hi(extSeq), Lo(extSeq)] + HeaderBlock(segs, |segs|);
    assert |front| == p && b == front + (PayloadBlock(segs, |segs|) + tail);
    forall i: nat | i < |segs|
      ensures PayloadAt(b, p, segs, i)
    {
      PayloadAfter(front, segs, tail, i);
    }
  }

  /** The segments that reach the frame: on an existing line and inside the buffer. */
  ghost function SegmentWrites(g: Geometry, segs: seq<Segment>, n: nat): seq<Write>
    requires ValidSegments(segs) && n <= |segs|
  {
    if n == 0 then
      []
    else
      var s := segs[n - 1];
      var at := Target(g, s.line, s.offset);
      SegmentWrites(g, segs, n - 1) +
      (if s.line < g.height && at + |s.data| <= g.Size() then [Write(at, s.data)] else [])
  }

  /** The headers a datagram of these segments is parsed into. */
  ghost predicate ParsedFrom(hs: seq<SegmentHeader>, segs: seq<Segment>)
    requires ValidSegments(segs)
  {
    |hs| == |segs| && forall i :: 0 <= i < |hs| ==> hs[i] == HeaderOf(segs[i], i + 1 < |segs|)
  }

  lemma DatagramSegments(r: Rtp, extSeq: u16, segs: seq<Segment>, tail: seq<byte>)
    requires ValidRtp(r) && ValidSegments(segs) && 1 <= |segs| <= MAX_SEGMENTS
    ensures ParsedFrom(Segments(Datagram(r, extSeq, segs, tail), HeadersStart(r)), segs)
  {
    var b, p := Datagram(r, extSeq, segs, tail), HeadersStart(r);
    forall i: nat | i < |segs|
      ensures p + 6 * |segs| <= |b| && HeaderAt(b, p, i) == HeaderOf(segs[i], i + 1 < |segs|)
    {
      DatagramHeaders(r, extSeq, segs, tail, i);
    }
    DatagramHeaders(r, extSeq, segs, tail, 0);
    assert IsChain(b, p, |segs|);
    ChainIsUnique(b, p, |segs|);
  }

  lemma {:induction false} PayloadStartsMatch(hs: seq<SegmentHeader>, segs: seq<Segment>, p: nat, n: nat)
    requires ValidSegments(segs) && ParsedFrom(hs, segs) && n <= |segs|
    ensures PayloadStart(hs, p, n) == p + |PayloadBlock(segs, n)|
  {
    if n == 0 {
    } else {
      PayloadStartsMatch(hs, segs, p, n - 1);
    }
  }

  lemma {:induction false} LandedSegments(
    g: Geometry, b: seq<byte>, p: nat, segs: seq<Segment>, hs: seq<SegmentHeader>, n: nat)
    requires ValidSegments(segs) && ParsedFrom(hs, segs) && n <= |segs|
    requires forall i: nat :: i < |segs| ==> PayloadAt(b, p, segs, i)
    ensures Landed(g, b, hs, p, n) == SegmentWrites(g, segs, n)
  {
    if n == 0 {
    } else {
      LandedSegments(g, b, p, segs, hs, n - 1);
      PayloadStartsMatch(hs, segs, p, n - 1);
      assert PayloadAt(b, p, segs, n - 1);
    }
  }

  lemma DecodeByParts(g: Geometry, b: seq<byte>, h: RtpHeader, hs: seq<SegmentHeader>)
    requires ParseRtpHeader(b) == Some(h) && |b| - h.length >= 2 && hs == Segments(b, h.length + 2)
    ensures Decode(g, b) ==
            Some(Packet(h.seqNo, h.ts, h.marker, Landed(g, b, hs, h.length + 2 + 6 * |hs|, |hs|)))
  {
  }

  lemma DatagramHasRtpHeader(r: Rtp, extSeq: u16, segs: seq<Segment>, tail: seq<byte>)
    requires ValidRtp(r) && ValidSegments(segs)
    ensures var b := Datagram(r, extSeq, segs, tail);
            ParseRtpHeader(b) == Some(RtpHeader(r.seqNo, r.ts, r.marker, |RtpBytes(r)|)) && |b| - |RtpBytes(r)| >= 2
  {
    RtpHeaderRoundTrip(r, [Hi(extSeq), Lo(extSeq)] + (HeaderBlock(segs, |segs|) + (PayloadBlock(segs, |segs|) + tail)));
  }

  /** One to eight segments, each with its own payload, come back exactly; which of them
      land depends only on their own line and place. */
  lemma DatagramRoundTrip(g: Geometry, r: Rtp, extSeq: u16, segs: seq<Segment>, tail: seq<byte>)
    requires ValidRtp(r) && ValidSegments(segs) && 1 <= |segs| <= 8
    ensures Decode(g, Datagram(r, extSeq, segs, tail)) ==
            Some(Packet(r.seqNo, r.ts, r.marker, SegmentWrites(g, segs, |segs|)))
  {
    hide Datagram, ParseRtpHeader, RtpBytes, Landed, SegmentWrites, PayloadAt;
    var b := Datagram(r, extSeq, segs, tail);
    var hs := Segments(b, HeadersStart(r));
    DatagramHasRtpHeader(r, extSeq, segs, tail);
    DatagramSegments(r, extSeq, segs, tail);
    DatagramPayloads(r, extSeq, segs, tail);
    LandedSegments(g, b, HeadersStart(r) + 6 * |segs|, segs, hs, |segs|);
    DecodeByParts(g, b, RtpHeader(r.seqNo, r.ts, r.marker, |RtpBytes(r)|), hs);
  }

  lemma OneSegmentWrite(g: Geometry, s: Segment)
    requires |s.data| < 0x1_0000 && s.line < g.height && Target(g, s.line, s.offset) + |s.data| <= g.Size()
    ensures SegmentWrites(g, [s], 1) == [Write(Target(g, s.line, s.offset), s.data)]
  {
    assert SegmentWrites(g, [s], 0) == [];
  }

  lemma OneSegmentDatagram(g: Geometry, r: Rtp, extSeq: u16, s: Segment)
    requires ValidRtp(r) && |s.data| < 0x1_0000
    requires s.line < g.height && Target(g, s.line, s.offset) + |s.data| <= g.Size()
    ensures Decode(g, Datagram(r, extSeq, [s], [])) ==
            Some(Packet(r.seqNo, r.ts, r.marker, [Write(Target(g, s.line, s.offset), s.data)]))
  {
    DatagramRoundTrip(g, r, extSeq, [s], []);
    OneSegmentWrite(g, s);
  }

  /** A list that asks for a ninth segment loses all of them, but the packet still counts
      with its sequence number, timestamp and marker. */
  lemma NineSegmentsLandNothing(g: Geometry, r: Rtp, extSeq: u16, segs: seq<Segment>, tail: seq<byte>)
    requires ValidRtp(r) && ValidSegments(segs) && |segs| >= 9
    ensures Decode(g, Datagram(r, extSeq, segs, tail)) == Some(Packet(r.seqNo, r.ts, r.marker, []))
  {
    var b, p := Datagram(r, extSeq, segs, tail), HeadersStart(r);
    DatagramHasRtpHeader(r, extSeq, segs, tail);
    forall i: nat | i < MAX_SEGMENTS
      ensures p + 6 * i + 6 <= |b| && HeaderAt(b, p, i).more
    {
      DatagramHeaders(r, extSeq, segs, tail, i);
    }
    NoChain(b, p, MAX_SEGMENTS);
    DecodeByParts(g, b, RtpHeader(r.seqNo, r.ts, r.marker, |RtpBytes(r)|), []);
  }
}
