/** RTP and RFC 4175 on the wire: what one datagram says, stated without loops. */
module Wire {
  import opened Bytes
  import opened Overlay

  datatype PixelFormat = Ycbcr422_10bit | Uyvy | P010 | V210

  /** Frame dimensions and bytes per two-pixel group. */
  datatype Geometry = Geometry(width: nat, height: nat, pgroup: nat) {
    function Stride(): nat {
      Times(width / 2, pgroup)
    }

    function Size(): nat {
      Times(height, Stride())
    }

    /** What initialisation lets through. */
    predicate Accepted() {
      0 < width <= 8192 && width % 2 == 0 && 0 < height <= 4320 && pgroup in {4, 5}
    }
  }

  // ---------- RTP header ----------

  /** `length` is where the RTP payload starts. */
  datatype RtpHeader = RtpHeader(seqNo: u16, ts: u32, marker: bool, length: nat)

  function ParseRtpHeader(pkt: seq<byte>): Option<RtpHeader> {
    if |pkt| < 12 then
      None
    else
      var marker := pkt[1] >= 0x80;
      var seqNo := Be16(pkt[2], pkt[3]);
      var ts := Be32(pkt[4], pkt[5], pkt[6], pkt[7]);
      var fixedLen := 12 + pkt[0] % 16 * 4;
      if pkt[0] / 16 % 2 == 1 then
        if |pkt| < fixedLen + 4 then
          None
        else
          var headerLen := fixedLen + 4 + 4 * Be16(pkt[fixedLen + 2], pkt[fixedLen + 3]);
          if |pkt| < headerLen then None else Some(RtpHeader(seqNo, ts, marker, headerLen))
      else if |pkt| < fixedLen then
        None
      else
        Some(RtpHeader(seqNo, ts, marker, fixedLen))
  }

  /** Section 5.1 of RFC 3550, byte by byte: where the parser finds its fields. */
  lemma RtpFieldsOnTheWire(pkt: seq<byte>, h: RtpHeader)
    requires ParseRtpHeader(pkt) == Some(h)
    ensures |pkt| >= 12 && h.length <= |pkt| && (h.marker <==> pkt[1] >= 128)
    ensures h.seqNo == 256 * (pkt[2] as int) + pkt[3]
    ensures h.ts == 0x100_0000 * (pkt[4] as int) + 0x1_0000 * (pkt[5] as int) + 0x100 * (pkt[6] as int) + pkt[7]
    ensures var fixedLen := 12 + 4 * (pkt[0] % 16 as int);
            if pkt[0] / 16 % 2 == 0 then
              h.length == fixedLen
            else
              fixedLen + 4 <= |pkt| &&
              h.length == fixedLen + 4 + 4 * (256 * (pkt[fixedLen + 2] as int) + pkt[fixedLen + 3])
  {
  }

  // ---------- Segment headers ----------

  /** One six-byte header; `more` is the continuation bit. */
  datatype SegmentHeader = SegmentHeader(length: u16, line: u15, offset: u15, more: bool)

  const MAX_SEGMENTS: nat := 8

  function ParseSegmentHeader(c: seq<byte>): SegmentHeader
    requires |c| == 6
  {
    var offsetCont := Be16(c[4], c[5]);
    SegmentHeader(Be16(c[0], c[1]), Be16(c[2], c[3]) % 0x8000, offsetCont % 0x8000, offsetCont >= 0x8000)
  }

  /** Section 4.2 of RFC 4175, byte by byte: length, line and offset, each with its top bit apart. */
  lemma SegmentFieldsOnTheWire(c: seq<byte>)
    requires |c| == 6
    ensures var h := ParseSegmentHeader(c);
            h.length == 256 * (c[0] as int) + c[1] &&
            h.line == 256 * (c[2] % 128 as int) + c[3] &&
            h.offset == 256 * (c[4] % 128 as int) + c[5] && (h.more <==> c[4] >= 128)
  {
    TopBitApart(c[2], c[3]);
    TopBitApart(c[4], c[5]);
  }

  lemma TopBitApart(hi: byte, lo: byte)
    ensures Be16(hi, lo) % 0x8000 == 256 * (hi % 128 as int) + lo && (Be16(hi, lo) >= 0x8000 <==> hi >= 128)
  {
    assert hi % 128 == if hi >= 128 then hi - 128 else hi;
  }

  /** The `i`-th of the headers that start at `p`. */
  function HeaderAt(b: seq<byte>, p: nat, i: nat): SegmentHeader
    requires p + 6 * i + 6 <= |b|
  {
    ParseSegmentHeader(b[p + 6 * i..p + 6 * i + 6])
  }

  /** `n` whole headers start at `p`, at most eight, and exactly the last one lacks the continuation bit. */
  ghost predicate IsChain(b: seq<byte>, p: nat, n: nat) {
    1 <= n <= MAX_SEGMENTS && p + 6 * n <= |b| &&
    forall i: nat :: i < n ==> (HeaderAt(b, p, i).more <==> i < n - 1)
  }

  /** The number of segments of a packet; zero when its header list is malformed. */
  ghost function SegmentCount(b: seq<byte>, p: nat): (n: nat)
    ensures n == 0 || IsChain(b, p, n)
    ensures forall k: nat :: IsChain(b, p, k) ==> n != 0
  {
    if exists n: nat :: IsChain(b, p, n) then var n: nat :| IsChain(b, p, n); n else 0
  }

  lemma ChainIsUnique(b: seq<byte>, p: nat, n: nat)
    requires IsChain(b, p, n)
    ensures SegmentCount(b, p) == n
  {
    var m := SegmentCount(b, p);
    assert !HeaderAt(b, p, n - 1).more && !HeaderAt(b, p, m - 1).more;
  }

  lemma ChainStops(b: seq<byte>, p: nat, n: nat)
    requires IsChain(b, p, n)
    ensures exists i: nat :: i < n && !HeaderAt(b, p, i).more
  {
    assert !HeaderAt(b, p, n - 1).more;
  }

  /** A list that keeps continuing past the datagram or past eight headers is no chain. */
  lemma NoChain(b: seq<byte>, p: nat, n: nat)
    requires n <= MAX_SEGMENTS && (n > 0 ==> p + 6 * n <= |b|)
    requires forall i: nat :: i < n ==> HeaderAt(b, p, i).more
    requires p + 6 * n + 6 > |b| || n >= MAX_SEGMENTS
    ensures SegmentCount(b, p) == 0
  {
    var m := SegmentCount(b, p);
    if m != 0 {
      ChainStops(b, p, m);
    }
  }

  ghost function Segments(b: seq<byte>, p: nat): (hs: seq<SegmentHeader>)
    ensures |hs| == SegmentCount(b, p)
  {
    seq(SegmentCount(b, p), i requires 0 <= i < SegmentCount(b, p) => HeaderAt(b, p, i))
  }

  // ---------- Payloads ----------

  /** Payloads follow all the headers, in header order: where the `i`-th starts. */
  ghost function PayloadStart(hs: seq<SegmentHeader>, p: nat, i: nat): nat
    requires i <= |hs|
  {
    if i == 0 then p else PayloadStart(hs, p, i - 1) + hs[i - 1].length
  }

  /** Byte offset of a segment in the frame. */
  function Target(g: Geometry, line: nat, offset: nat): nat {
    Times(line, g.Stride()) + Times(offset / 2, g.pgroup)
  }

  /** Line times stride plus whole groups of two pixels. */
  lemma TargetIsProduct(g: Geometry, line: nat, offset: nat)
    ensures Target(g, line, offset) == line * (g.width / 2 * g.pgroup) + offset / 2 * g.pgroup
    ensures g.Size() == g.height * (g.width / 2 * g.pgroup)
  {
    TimesIsProduct(g.width / 2, g.pgroup);
    TimesIsProduct(line, g.Stride());
    TimesIsProduct(g.height, g.Stride());
    TimesIsProduct(offset / 2, g.pgroup);
  }

  /** The segment reaches the frame: its line exists, its payload is inside the
      datagram and its target inside the buffer. */
  ghost predicate Lands(g: Geometry, b: seq<byte>, hs: seq<SegmentHeader>, p: nat, i: nat)
    requires i < |hs|
  {
    hs[i].line < g.height &&
    PayloadStart(hs, p, i + 1) <= |b| &&
    Target(g, hs[i].line, hs[i].offset) + hs[i].length <= g.Size()
  }

  /** The copies made for the first `n` segments. */
  ghost function Landed(g: Geometry, b: seq<byte>, hs: seq<SegmentHeader>, p: nat, n: nat): (ws: seq<Write>)
    requires n <= |hs|
    ensures forall w :: w in ws ==> Fits(w, g.Size())
  {
    if n == 0 then
      []
    else
      var before := Landed(g, b, hs, p, n - 1);
      if Lands(g, b, hs, p, n - 1) then
        var q := PayloadStart(hs, p, n - 1);
        before + [Write(Target(g, hs[n - 1].line, hs[n - 1].offset), b[q..q + hs[n - 1].length])]
      else
        before
  }

  /** What the receiver takes from one datagram. */
  datatype Packet = Packet(seqNo: u16, ts: u32, marker: bool, writes: seq<Write>)

  /** The whole datagram; `None` when it is ignored altogether. */
  ghost function Decode(g: Geometry, pkt: seq<byte>): (r: Option<Packet>)
    ensures r.Some? ==> forall w :: w in r.value.writes ==> Fits(w, g.Size())
  {
    match ParseRtpHeader(pkt)
    case None => None
    case Some(h) =>
      if |pkt| - h.length < 2 then
        None
      else
        var p := h.length + 2;
        var hs := Segments(pkt, p);
        Some(Packet(h.seqNo, h.ts, h.marker, Landed(g, pkt, hs, p + 6 * |hs|, |hs|)))
  }
}
