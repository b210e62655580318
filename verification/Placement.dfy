/** Where the bytes of an arbitrary datagram can end up in the frame. */
module Placement {
  import opened Bytes
  import opened Overlay
  import opened Wire
  import opened RoundTrip

  /** No placement computation leaves 32 bits, whatever a header says. */
  lemma ArithmeticFits(g: Geometry, h: SegmentHeader)
    requires g.Accepted() && h.line < g.height
    ensures g.Stride() <= 20480 && g.Size() <= 88_473_600
    ensures Target(g, h.line, h.offset) + h.length < 0x1_0000_0000
  {
    StrideBound(g);
    TimesAtMost(g.height, 4320, g.Stride(), 20480);
    TimesAtMost(h.line, 4320, g.Stride(), 20480);
    TimesAtMost(h.offset / 2, 0x4000, g.pgroup, 5);
    TimesIsProduct(4320, 20480);
    TimesIsProduct(0x4000, 5);
  }

  lemma StrideBound(g: Geometry)
    requires g.Accepted()
    ensures g.Stride() <= 20480
  {
    TimesAtMost(g.width / 2, 4096, g.pgroup, 5);
    TimesIsProduct(4096, 5);
  }

  lemma {:induction false} TimesAtMost(m: nat, n: nat, k: nat, l: nat)
    requires m <= n && k <= l
    ensures Times(m, k) <= Times(n, l)
  {
    if m == 0 {
    } else {
      TimesAtMost(m - 1, n - 1, k, l);
    }
  }

  /** Byte `j` of the frame belongs to line `line`. */
  ghost predicate InLine(g: Geometry, line: nat, j: int) {
    Times(line, g.Stride()) <= j < Times(line + 1, g.Stride())
  }

  /** The segment ends within its line. */
  ghost predicate EndsInLine(g: Geometry, offset: nat, length: nat) {
    Times(offset / 2, g.pgroup) + length <= g.Stride()
  }

  /** A segment touches bytes of its own line only, if and only if it ends within the stride;
      the receiver checks the end of the buffer instead. */
  lemma SegmentStaysInLine(g: Geometry, line: nat, offset: nat, data: seq<byte>)
    requires data != []
    ensures (forall j :: Covers(Write(Target(g, line, offset), data), j) ==> InLine(g, line, j)) <==>
            EndsInLine(g, offset, |data|)
  {
    var w := Write(Target(g, line, offset), data);
    assert Covers(w, w.at + |data| - 1);
  }

  lemma LinesAreApart(g: Geometry, a: nat, b: nat, j: int)
    requires InLine(g, a, j) && InLine(g, b, j)
    ensures a == b
  {
    if a < b {
      TimesMonotone(a + 1, b, g.Stride());
    } else if b < a {
      TimesMonotone(b + 1, a, g.Stride());
    }
  }

  /** None of the segment headers names this line. */
  ghost predicate Unnamed(hs: seq<SegmentHeader>, line: nat) {
    forall i :: 0 <= i < |hs| ==> hs[i].line != line
  }

  ghost predicate AllEndInLine(g: Geometry, hs: seq<SegmentHeader>) {
    forall i :: 0 <= i < |hs| ==> EndsInLine(g, hs[i].offset, hs[i].length)
  }

  lemma CopyLeavesLine(g: Geometry, line: nat, offset: nat, data: seq<byte>, buf: seq<byte>, other: nat, j: int)
    requires line != other && EndsInLine(g, offset, |data|) && InLine(g, other, j) && 0 <= j < |buf|
    ensures Put(buf, Write(Target(g, line, offset), data))[j] == buf[j]
  {
    hide Times;
    var w := Write(Target(g, line, offset), data);
    if Covers(w, j) {
      SegmentStaysInLine(g, line, offset, data);
      LinesAreApart(g, line, other, j);
      assert false;
    }
  }

  lemma {:induction false} LandedLeavesLine(
    g: Geometry, b: seq<byte>, hs: seq<SegmentHeader>, p: nat, n: nat, buf: seq<byte>, line: nat, j: int)
    requires n <= |hs| && Unnamed(hs, line) && AllEndInLine(g, hs)
    requires |buf| == g.Size() && 0 <= j < |buf| && InLine(g, line, j)
    ensures Apply(buf, Landed(g, b, hs, p, n))[j] == buf[j]
  {
    hide Times, Put, InLine, EndsInLine;
    if n == 0 {
    } else {
      LandedLeavesLine(g, b, hs, p, n - 1, buf, line, j);
      if Lands(g, b, hs, p, n - 1) {
        var h, q := hs[n - 1], PayloadStart(hs, p, n - 1);
        var before, w := Landed(g, b, hs, p, n - 1), Write(Target(g, h.line, h.offset), b[q..q + h.length]);
        ApplySnoc(buf, before, w);
        CopyLeavesLine(g, h.line, h.offset, w.data, Apply(buf, before), line, j);
      }
    }
  }

  /** For arbitrary bytes: if every segment the receiver reads from the datagram ends in its
      line, then lines that no header names keep every byte. */
  lemma OtherLinesSurvive(g: Geometry, pkt: seq<byte>, h: RtpHeader, buf: seq<byte>, line: nat)
    requires ParseRtpHeader(pkt) == Some(h) && |pkt| - h.length >= 2 && |buf| == g.Size()
    requires var hs := Segments(pkt, h.length + 2); Unnamed(hs, line) && AllEndInLine(g, hs)
    ensures Decode(g, pkt).Some? && forall j :: 0 <= j < |buf| && InLine(g, line, j) ==>
              Apply(buf, Decode(g, pkt).value.writes)[j] == buf[j]
  {
    hide Decode, Segments, Landed, Unnamed, AllEndInLine, InLine, ParseRtpHeader, Apply;
    var hs := Segments(pkt, h.length + 2);
    DecodeByParts(g, pkt, h, hs);
    forall j | 0 <= j < |buf| && InLine(g, line, j)
      ensures Apply(buf, Decode(g, pkt).value.writes)[j] == buf[j]
    {
      LandedLeavesLine(g, pkt, hs, h.length + 2 + 6 * |hs|, |hs|, buf, line, j);
    }
  }

  lemma EndOfFirstLine(g: Geometry)
    requires g.Accepted() && g.height >= 2
    ensures Target(g, 0, g.width - 2) == g.Stride() - g.pgroup && InLine(g, 1, g.Stride())
    ensures g.Stride() + 1 <= g.Size()
  {
    assert (g.width - 2) / 2 == g.width / 2 - 1;
    assert Times(g.width / 2, g.pgroup) == Times(g.width / 2 - 1, g.pgroup) + g.pgroup;
    TimesMonotone(2, g.height, g.Stride());
    assert Times(2, g.Stride()) == Times(1, g.Stride()) + g.Stride();
  }

  /** Without that, lines do spill: in every accepted frame of two lines or more, a segment for
      the last group of line 0 that is one byte too long, a few bytes that fit any packet,
      overwrites the first byte of line 1. */
  lemma SegmentCanSpill(g: Geometry, r: Rtp, extSeq: u16, data: seq<byte>)
    requires g.Accepted() && g.height >= 2 && ValidRtp(r) && |data| == g.pgroup + 1
    ensures g.width < 0x8000 && g.Stride() >= g.pgroup
    ensures var d := Decode(g, Datagram(r, extSeq, [Segment(0, g.width - 2, false, data)], []));
            var w := Write(g.Stride() - g.pgroup, data);
            d.Some? && d.value.writes == [w] && Covers(w, g.Stride()) && InLine(g, 1, g.Stride())
  {
    hide Decode, Datagram, ValidRtp, Times;
    EndOfFirstLine(g);
    OneSegmentDatagram(g, r, extSeq, Segment(0, g.width - 2, false, data));
  }
}
