/** What a receiver's user sees of a sequence of datagrams. */
module Reception {
  import opened Bytes
  import opened Wire
  import opened Stream
  import opened Assembler
  import opened Convert

  /** Each datagram decoded. */
  ghost function DecodeAll(g: Geometry, ds: seq<seq<byte>>): (os: seq<Option<Packet>>)
    ensures |os| == |ds|
  {
    if ds == [] then [] else DecodeAll(g, Front(ds)) + [Decode(g, Last(ds))]
  }

  lemma {:induction false} DecodeAllAt(g: Geometry, ds: seq<seq<byte>>, i: nat)
    requires i < |ds|
    ensures DecodeAll(g, ds)[i] == Decode(g, ds[i])
  {
    if i >= |ds| - 1 {
    } else {
      DecodeAllAt(g, Front(ds), i);
    }
  }

  /** The packets among the decoded datagrams. */
  ghost function Gather(os: seq<Option<Packet>>): Log {
    if os == [] then [] else Gather(Front(os)) + (if Last(os).Some? then [Last(os).value] else [])
  }

  /** The packets accepted among the datagrams. */
  ghost function Accepted(g: Geometry, ds: seq<seq<byte>>): Log {
    Gather(DecodeAll(g, ds))
  }

  lemma GatherSnoc(os: seq<Option<Packet>>, o: Option<Packet>)
    ensures Gather(os + [o]) == Gather(os) + (if o.Some? then [o.value] else [])
  {
    assert Front(os + [o]) == os;
  }

  lemma AcceptedSnoc(g: Geometry, ds: seq<seq<byte>>, d: seq<byte>)
    ensures Accepted(g, ds + [d]) == Accepted(g, ds) + (if Decode(g, d).Some? then [Decode(g, d).value] else [])
  {
    assert Front(ds + [d]) == ds;
    GatherSnoc(DecodeAll(g, ds), Decode(g, d));
  }

  ghost predicate AllPackets(os: seq<Option<Packet>>, ps: seq<Packet>) {
    |os| == |ps| && forall i :: 0 <= i < |os| ==> os[i] == Some(ps[i])
  }

  lemma {:induction false} GatherConcat(a: seq<Option<Packet>>, b: seq<Option<Packet>>, ps: seq<Packet>)
    requires AllPackets(b, ps)
    ensures Gather(a + b) == Gather(a) + ps
    decreases |b|
  {
    if b == [] {
      assert a + b == a;
    } else {
      GatherConcat(a, Front(b), Front(ps));
      GatherSnoc(a + Front(b), Last(b));
      FrontThenLast(b);
      FrontThenLast(ps);
      assert a + b == a + Front(b) + [Last(b)];
    }
  }

  lemma {:induction false} DecodeAllConcat(g: Geometry, a: seq<seq<byte>>, b: seq<seq<byte>>)
    ensures DecodeAll(g, a + b) == DecodeAll(g, a) + DecodeAll(g, b)
    decreases |b|
  {
    if b == [] {
      assert a + b == a;
    } else {
      DecodeAllConcat(g, a, Front(b));
      ConcatEnd(a, b);
    }
  }

  /** Datagrams that are all taken for packets extend the log by exactly these. */
  lemma AcceptedConcat(g: Geometry, before: seq<seq<byte>>, ds: seq<seq<byte>>, ps: seq<Packet>)
    requires AllPackets(DecodeAll(g, ds), ps)
    ensures Accepted(g, before + ds) == Accepted(g, before) + ps
  {
    DecodeAllConcat(g, before, ds);
    GatherConcat(DecodeAll(g, before), DecodeAll(g, ds), ps);
  }

  /** Rows of `width` pixels in packed UYVY. */
  function UyvyStride(width: nat): nat {
    width * 2
  }

  /** What the receiver's own callback passes on: eight-bit frames as they are, ten-bit
      frames converted when UYVY is wanted, nothing for other wire formats. */
  ghost function UserFrame(wanted: PixelFormat, f: Frame): (u: Option<Frame>)
    requires f.format == Ycbcr422_10bit ==> |f.data| == 5 * Times(f.height, f.width / 2)
  {
    if wanted != Uyvy || f.format == Uyvy then
      Some(f)
    else if f.format == Ycbcr422_10bit then
      Some(f.(data := UyvyOf(f.data, Times(f.height, f.width / 2)), linesize := UyvyStride(f.width), format := Uyvy))
    else
      None
  }

  /** The wire format determines the bytes per group, as after a successful initialisation. */
  ghost predicate FormatFits(g: Geometry, fmt: PixelFormat) {
    g.Accepted() && GroupBytes(fmt) == Some(g.pgroup)
  }

  lemma PackedFrameSize(g: Geometry)
    requires g.pgroup == 5
    ensures g.Stride() == 5 * (g.width / 2) && g.Size() == 5 * Times(g.height, g.width / 2)
  {
    TimesIsProduct(g.width / 2, 5);
    TimesScales(g.height, 5, g.width / 2);
  }

  ghost function UserFrameOf(g: Geometry, fmt: PixelFormat, wanted: PixelFormat, d: Delivery, k: nat): (u: Frame)
    requires FormatFits(g, fmt)
  {
    if g.pgroup == 5 then
      PackedFrameSize(g);
      UserFrame(wanted, FrameOf(g, fmt, d, k)).value
    else
      UserFrame(wanted, FrameOf(g, fmt, d, k)).value
  }

  /** The user's frames for deliveries numbered from zero. */
  ghost function UserFrames(g: Geometry, fmt: PixelFormat, wanted: PixelFormat, ds: seq<Delivery>): (us: seq<Frame>)
    requires FormatFits(g, fmt)
    ensures |us| == |ds|
  {
    if ds == [] then
      []
    else
      UserFrames(g, fmt, wanted, Front(ds)) + [UserFrameOf(g, fmt, wanted, Last(ds), |ds| - 1)]
  }

  /** Everything the user has been handed after these datagrams. */
  ghost function Seen(g: Geometry, fmt: PixelFormat, wanted: PixelFormat, datagrams: seq<seq<byte>>): seq<Frame>
    requires FormatFits(g, fmt)
  {
    UserFrames(g, fmt, wanted, Deliveries(Accepted(g, datagrams)))
  }

  lemma ConvertedSize(g: Geometry)
    requires g.Accepted()
    ensures 4 * Times(g.height, g.width / 2) == g.height * UyvyStride(g.width)
  {
    TimesIsProduct(g.height, g.width / 2);
    assert 4 * (g.width / 2) == UyvyStride(g.width);
  }

  /** Format, line size and amount of what the user is handed: converted frames are packed UYVY,
      all others are the delivered bytes in their own format. */
  lemma UserFrameShape(g: Geometry, fmt: PixelFormat, wanted: PixelFormat, d: Delivery, k: nat)
    requires FormatFits(g, fmt)
    ensures var u := UserFrameOf(g, fmt, wanted, d, k);
            u.width == g.width && u.height == g.height && |u.data| == u.height * u.linesize &&
            (fmt == Uyvy ==> u.format == Uyvy && u.linesize == 2 * g.width && u.data == Image(g.Size(), d.packets)) &&
            (fmt == Ycbcr422_10bit && wanted == Uyvy ==> u.format == Uyvy && u.linesize == 2 * g.width) &&
            (fmt == Ycbcr422_10bit && wanted != Uyvy ==>
               u.format == fmt && u.linesize == g.width / 2 * 5 && u.data == Image(g.Size(), d.packets))
  {
    hide Times, Image, UyvyOf;
    StridesFit(g, fmt);
    if g.pgroup == 5 {
      PackedFrameSize(g);
    }
    ConvertedSize(g);
  }

  lemma UserFramesSnoc(g: Geometry, fmt: PixelFormat, wanted: PixelFormat, ds: seq<Delivery>, d: Delivery)
    requires FormatFits(g, fmt)
    ensures UserFrames(g, fmt, wanted, ds + [d]) ==
            UserFrames(g, fmt, wanted, ds) + [UserFrameOf(g, fmt, wanted, d, |ds|)]
  {
    assert Front(ds + [d]) == ds;
  }

  /** The `k`-th frame shown is the `k`-th delivery, numbered `k` modulo 2^32. */
  lemma {:induction false} FramesAreNumbered(
    g: Geometry, fmt: PixelFormat, wanted: PixelFormat, ds: seq<Delivery>, k: nat)
    requires FormatFits(g, fmt) && k < |ds|
    ensures var u := UserFrames(g, fmt, wanted, ds)[k];
            u == UserFrameOf(g, fmt, wanted, ds[k], k) &&
            u.number == k % 0x1_0000_0000 && u.incomplete == ds[k].incomplete &&
            0 <= ds[k].ts * 1_000_000_000 - 90_000 * u.timestampNs < 90_000
  {
    if k < |ds| - 1 {
      FramesAreNumbered(g, fmt, wanted, Front(ds), k);
    } else {
      Count32IsModulo(k);
      NsOfTicks(ds[k].ts);
    }
  }

  /** Two frames a second apart on the sender's clock are shown exactly a second apart. */
  lemma SecondsAreSeconds(
    g: Geometry, fmt: PixelFormat, wanted: PixelFormat, ds: seq<Delivery>, j: nat, k: nat)
    requires FormatFits(g, fmt) && j < |ds| && k < |ds| && ds[k].ts == ds[j].ts + 90_000
    ensures var us := UserFrames(g, fmt, wanted, ds);
            us[k].timestampNs == us[j].timestampNs + 1_000_000_000
  {
    FramesAreNumbered(g, fmt, wanted, ds, j);
    FramesAreNumbered(g, fmt, wanted, ds, k);
  }

  lemma {:induction false} AcceptedAtMost(g: Geometry, ds: seq<seq<byte>>)
    ensures |Accepted(g, ds)| <= |ds|
  {
    if ds == [] {
    } else {
      AcceptedAtMost(g, Front(ds));
      FrontThenLast(ds);
      AcceptedSnoc(g, Front(ds), Last(ds));
    }
  }
}
