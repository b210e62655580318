/** The receiver of rx_core.c: it feeds datagrams to the assembler, keeps the
    statistics and hands frames to the user. */
module Receiver {
  import opened Bytes
  import opened Wire
  import opened Stream
  import opened Assembler
  import opened Convert
  import opened Reception
  import opened Stats

  /** The timestamp field alone, zero for a datagram too short to have one. */
  function ExtractRtpTimestamp(pkt: seq<byte>): u32 {
    if |pkt| < 8 then 0 else Be32(pkt[4], pkt[5], pkt[6], pkt[7])
  }

  /** It is the timestamp that the assembler reads, whenever it reads one. */
  lemma SameTimestamp(pkt: seq<byte>)
    ensures ParseRtpHeader(pkt).Some? ==> ExtractRtpTimestamp(pkt) == ParseRtpHeader(pkt).value.ts
    ensures |pkt| < 8 ==> ExtractRtpTimestamp(pkt) == 0
  {
  }

  ghost function CountIncomplete(ds: seq<Delivery>): nat {
    if ds == [] then 0 else CountIncomplete(Front(ds)) + (if Last(ds).incomplete then 1 else 0)
  }

  /** Everything a receiver has counted and handed over. */
  datatype Account = Account(packets: nat, lost: nat, frames: nat, dropped: nat, handed: seq<Frame>)

  /** The account of a log of accepted packets, `packets` datagrams in all. */
  ghost function AccountOf(g: Geometry, fmt: PixelFormat, wanted: PixelFormat, packets: nat, log: Log): Account
    requires FormatFits(g, fmt)
  {
    var ds := Deliveries(log);
    Account(packets, TotalLost(log), |ds|, CountIncomplete(ds), UserFrames(g, fmt, wanted, ds))
  }

  /** The account after a gap of `lost` packets and, if any, one more frame for the user. */
  ghost function Booked(a: Account, lost: nat, us: seq<Frame>): Account
    requires |us| <= 1
  {
    Account(a.packets, a.lost + lost, a.frames + |us|,
            a.dropped + (if us != [] && us[0].incomplete then 1 else 0), a.handed + us)
  }

  /** What the user is handed for the frames the assembler delivers. */
  ghost function HandedFor(wanted: PixelFormat, frames: seq<Frame>): seq<Frame>
    requires |frames| <= 1
    requires forall f :: f in frames && f.format == Ycbcr422_10bit ==> |f.data| == 5 * Times(f.height, f.width / 2)
  {
    if frames == [] || UserFrame(wanted, frames[0]).None? then [] else [UserFrame(wanted, frames[0]).value]
  }

  lemma OneFrameSnoc(g: Geometry, fmt: PixelFormat, wanted: PixelFormat, ds: seq<Delivery>, d: Delivery)
    requires FormatFits(g, fmt)
    ensures UserFrames(g, fmt, wanted, ds + [d]) ==
            UserFrames(g, fmt, wanted, ds) + [UserFrameOf(g, fmt, wanted, d, |ds|)]
    ensures CountIncomplete(ds + [d]) == CountIncomplete(ds) + (if d.incomplete then 1 else 0)
    ensures UserFrameOf(g, fmt, wanted, d, |ds|).incomplete == d.incomplete
  {
    assert Front(ds + [d]) == ds;
  }

  /** A frame the assembler can deliver is never skipped. */
  lemma NoFrameIsSkipped(g: Geometry, fmt: PixelFormat, wanted: PixelFormat, d: Delivery, k: nat)
    requires FormatFits(g, fmt)
    ensures var f := FrameOf(g, fmt, d, k);
            (f.format == Ycbcr422_10bit ==> |f.data| == 5 * Times(f.height, f.width / 2)) &&
            UserFrame(wanted, f) == Some(UserFrameOf(g, fmt, wanted, d, k))
  {
    if g.pgroup == 5 {
      PackedFrameSize(g);
    }
  }

  lemma AccountWithoutFrame(g: Geometry, fmt: PixelFormat, wanted: PixelFormat, n: nat, log: Log, p: Packet)
    requires FormatFits(g, fmt) && DeliveredBy(log + [p]) == []
    ensures AccountOf(g, fmt, wanted, n, log + [p]) ==
            Booked(AccountOf(g, fmt, wanted, n, log), LostBefore(log + [p]), [])
  {
    assert Front(log + [p]) == log;
    DeliveriesSnoc(log, p);
    assert Deliveries(log) + [] == Deliveries(log);
  }

  lemma AccountWithFrame(g: Geometry, fmt: PixelFormat, wanted: PixelFormat, n: nat, log: Log, p: Packet, d: Delivery)
    requires FormatFits(g, fmt) && DeliveredBy(log + [p]) == [d]
    ensures AccountOf(g, fmt, wanted, n, log + [p]) ==
            Booked(AccountOf(g, fmt, wanted, n, log), LostBefore(log + [p]),
                   [UserFrameOf(g, fmt, wanted, d, |Deliveries(log)|)])
  {
    hide UserFrameOf, DeliveredBy, LostBefore, UserFrames, CountIncomplete, Deliveries;
    assert Front(log + [p]) == log;
    DeliveriesSnoc(log, p);
    OneFrameSnoc(g, fmt, wanted, Deliveries(log), d);
  }

  /** One accepted packet in the account: its gap, its frame if it delivers one, and nothing else. */
  lemma AccountSnoc(g: Geometry, fmt: PixelFormat, wanted: PixelFormat, n: nat, log: Log, p: Packet)
    requires FormatFits(g, fmt)
    ensures var frames := FramesOf(g, fmt, DeliveredBy(log + [p]), |Deliveries(log)|);
            (forall f :: f in frames && f.format == Ycbcr422_10bit ==>
               |f.data| == 5 * Times(f.height, f.width / 2)) &&
            AccountOf(g, fmt, wanted, n, log + [p]) ==
            Booked(AccountOf(g, fmt, wanted, n, log), LostBefore(log + [p]), HandedFor(wanted, frames))
  {
    hide AccountOf, Deliveries, FrameOf, Booked;
    var k, got := |Deliveries(log)|, DeliveredBy(log + [p]);
    if got == [] {
      AccountWithoutFrame(g, fmt, wanted, n, log, p);
    } else {
      var d := got[0];
      assert got == [d];
      FramesOfOne(g, fmt, d, k);
      NoFrameIsSkipped(g, fmt, wanted, d, k);
      AccountWithFrame(g, fmt, wanted, n, log, p, d);
    }
  }

  lemma NothingBooked(a: Account)
    ensures a == Booked(a, 0, [])
  {
    assert a.handed + [] == a.handed;
  }

  lemma FrameShape(g: Geometry, fmt: PixelFormat, ds: seq<Delivery>, k: nat)
    requires |ds| <= 1
    ensures forall f :: f in FramesOf(g, fmt, ds, k) ==>
              f.format == fmt && f.width == g.width && f.height == g.height && f.linesize == g.Stride()
  {
    if ds != [] {
      assert ds == [ds[0]];
      FramesOfOne(g, fmt, ds[0], k);
    }
  }

  class Receiver {
    const geom: Geometry
    const inputFmt: PixelFormat
    const wanted: PixelFormat
    const assembler: Assembler
    const stats: StatsState
    const convertBuf: array<byte>
    ghost var datagrams: seq<seq<byte>>
    ghost var handed: seq<Frame>

    ghost predicate Valid()
      reads this, assembler, assembler.fillBuf, assembler.deliverBuf, stats, convertBuf
    {
      Wired() && assembler.Valid() && stats.Valid() &&
      assembler.log == Accepted(geom, datagrams) &&
      Books() == AccountOf(geom, inputFmt, wanted, |datagrams|, assembler.log) &&
      (handed != [] ==> Last(handed).data == Lent())
    }

    /** The memory the user was last shown: the assembler's delivered buffer itself, or the
        conversion of it. */
    ghost function Lent(): seq<byte>
      reads this, assembler, assembler.deliverBuf, convertBuf
    {
      if wanted == Uyvy && inputFmt == Ycbcr422_10bit then convertBuf[..] else assembler.deliverBuf[..]
    }

    /** The parts fit together and the buffers are three. */
    ghost predicate Wired()
      reads this
    {
      FormatFits(geom, inputFmt) && assembler.geom == geom &&
      convertBuf !in assembler.bufs &&
      convertBuf.Length == 4 * Times(geom.height, geom.width / 2)
    }

    ghost function Books(): Account
      reads this, stats
    {
      Account(|stats.seen|, stats.lost, stats.frames, stats.drops, handed)
    }

    constructor (a: Assembler, fmt: PixelFormat, wantedFmt: PixelFormat)
      requires a.Valid() && a.log == [] && FormatFits(a.geom, fmt)
      ensures Valid() && assembler == a && geom == a.geom && inputFmt == fmt && wanted == wantedFmt && datagrams == []
      ensures fresh(stats) && fresh(convertBuf) && convertBuf !in a.bufs
    {
      geom, inputFmt, wanted, assembler := a.geom, fmt, wantedFmt, a;
      stats := new StatsState();
      convertBuf := new byte[4 * Times(a.geom.height, a.geom.width / 2)](_ => 0);
      datagrams, handed := [], [];
    }

    /** The internal frame callback: `data` is the delivered buffer, the result what the user
        is handed. */
    method HandOver(f: Frame, data: array<byte>) returns (u: Option<Frame>)
      requires geom.Accepted() && data != convertBuf && data[..] == f.data
      requires f.width == geom.width && f.height == geom.height
      requires convertBuf.Length == 4 * Times(geom.height, geom.width / 2)
      requires f.format == Ycbcr422_10bit ==>
                 f.linesize == 5 * (geom.width / 2) && data.Length == 5 * Times(geom.height, geom.width / 2)
      modifies convertBuf
      ensures u == UserFrame(wanted, f)
      ensures u.Some? && wanted == Uyvy && f.format == Ycbcr422_10bit ==> u.value.data == convertBuf[..]
    {
      if wanted == Uyvy {
        if f.format == Uyvy {
          return Some(f);
        } else if f.format == Ycbcr422_10bit {
          ConvertWhole(data);
          return Some(f.(data := convertBuf[..], linesize := UyvyStride(f.width), format := Uyvy));
        } else {
          return None;
        }
      } else {
        return Some(f);
      }
    }

    method ConvertWhole(data: array<byte>)
      requires geom.Accepted() && data != convertBuf
      requires convertBuf.Length == 4 * Times(geom.height, geom.width / 2)
      requires data.Length == 5 * Times(geom.height, geom.width / 2)
      modifies convertBuf
      ensures convertBuf[..] == UyvyOf(data[..], Times(geom.height, geom.width / 2))
    {
      ghost var groups, was := geom.width / 2, convertBuf[..];
      BackToBackRowsFit(groups, geom.height);
      ConvertBe10ToUyvy(data, geom.width / 2 * 5, convertBuf, geom.width * 2, geom.width, geom.height);
      BackToBackIsWhole(was, data[..], groups, geom.height);
    }

    /** The callback for the frames of one packet, at most one. */
    method Show(frames: seq<Frame>)
      requires Wired() && assembler.Shaped() && |frames| <= 1
      requires forall f :: f in frames ==> f.format == inputFmt && f.width == geom.width && f.height == geom.height &&
                                           f.linesize == geom.Stride() && f.data == assembler.deliverBuf[..]
      modifies this`handed, convertBuf
      ensures forall f :: f in frames && f.format == Ycbcr422_10bit ==> |f.data| == 5 * Times(f.height, f.width / 2)
      ensures handed == old(handed) + HandedFor(wanted, frames) && |HandedFor(wanted, frames)| == |frames|
      ensures frames != [] ==> HandedFor(wanted, frames)[0].incomplete == frames[0].incomplete
      ensures frames == [] ==> convertBuf[..] == old(convertBuf[..])
      ensures frames != [] ==> Last(handed).data == Lent()
    {
      if frames != [] {
        if inputFmt == Ycbcr422_10bit {
          PackedFrameSize(geom);
        }
        var u := HandOver(frames[0], assembler.deliverBuf);
        handed := handed + [u.value];
      }
    }

    /** The counters for one packet. */
    method Count(completed: nat, lost: nat)
      requires stats.Valid() && completed <= 1
      modifies stats
      ensures stats.Valid() && stats.seen == old(stats.seen) && stats.lost == old(stats.lost) + lost
      ensures stats.frames == old(stats.frames) + completed
      ensures stats.drops == old(stats.drops) + (if completed > 0 && assembler.deliveredIncomplete then 1 else 0)
    {
      if lost != 0 {
        stats.RecordLost(lost);
      }
      if completed > 0 {
        stats.RecordFrame(assembler.deliveredIncomplete);
      }
    }

    /** The assembler's part of one datagram: what it delivers, and what that adds to the account
        of `n` datagrams. */
    method Assemble(pkt: seq<byte>, ghost n: nat) returns (completed: nat, frames: seq<Frame>, lost: nat)
      requires Wired() && assembler.Valid() && assembler.log == Accepted(geom, datagrams)
      modifies assembler, assembler.bufs
      ensures Wired() && assembler.Valid() && assembler.log == Accepted(geom, datagrams + [pkt])
      ensures completed == |frames| <= 1
      ensures forall f :: f in frames ==> f.format == inputFmt && f.width == geom.width && f.height == geom.height &&
                                          f.linesize == geom.Stride() && f.data == assembler.deliverBuf[..]
      ensures forall f :: f in frames && f.format == Ycbcr422_10bit ==> |f.data| == 5 * Times(f.height, f.width / 2)
      ensures AccountOf(geom, inputFmt, wanted, n, assembler.log) ==
              Booked(AccountOf(geom, inputFmt, wanted, n, old(assembler.log)), lost, HandedFor(wanted, frames))
      ensures frames == [] ==> assembler.deliverBuf[..] == old(assembler.deliverBuf[..])
      ensures frames != [] ==> assembler.deliveredIncomplete == frames[0].incomplete
    {
      hide StateOf, DeliveredBy, Accepted, UserFrame, Decode, Deliveries, AccountOf;
      ghost var log := assembler.log;
      AcceptedSnoc(geom, datagrams, pkt);
      completed, frames, lost := assembler.ProcessPacket(pkt, inputFmt);
      if Decode(geom, pkt).Some? {
        AccountSnoc(geom, inputFmt, wanted, n, log, Decode(geom, pkt).value);
        FrameShape(geom, inputFmt, DeliveredBy(assembler.log), |Deliveries(log)|);
      } else {
        NothingBooked(AccountOf(geom, inputFmt, wanted, n, log));
      }
    }

    /** One datagram, arriving at `now`. Whatever it holds, the frame the user was shown last
        stays intact in memory until the next one is shown. */
    method ProcessPacket(pkt: seq<byte>, now: u64)
      requires Valid()
      modifies this`datagrams, this`handed, assembler, assembler.bufs, stats, convertBuf
      ensures Valid() && datagrams == old(datagrams) + [pkt]
      ensures stats.seen == old(stats.seen) + [Arrival(now, ExtractRtpTimestamp(pkt))]
      ensures |handed| <= |old(handed)| + 1 && (handed == old(handed) ==> Lent() == old(Lent()))
    {
      hide StateOf, Average, Accepted, UserFrame, Deliveries, UserFrames, TotalLost, CountIncomplete, HandedFor;
      hide JitterSamples, GapSamples, Wrap64, Times, GroupBytes;
      stats.RecordPacket(now, ExtractRtpTimestamp(pkt));
      var completed, frames, lost := Assemble(pkt, |datagrams| + 1);
      Show(frames);
      Count(completed, lost);
      datagrams := datagrams + [pkt];
    }

    /** The receive loop over a finite sequence of datagrams. */
    method ProcessAll(pkts: seq<seq<byte>>, times: seq<u64>)
      requires Valid() && |times| == |pkts|
      modifies this`datagrams, this`handed, assembler, assembler.bufs, stats, convertBuf
      ensures Valid() && Continues(datagrams, old(datagrams), pkts, |pkts|)
    {
      hide AccountOf, Accepted, StateOf, Average;
      for i := 0 to |pkts|
        invariant Valid() && Continues(datagrams, old(datagrams), pkts, i)
      {
        ProcessPacket(pkts[i], times[i]);
      }
    }
  }

  /** `all` is `before` and then the first `n` of `ds`. */
  ghost predicate Continues(all: seq<seq<byte>>, before: seq<seq<byte>>, ds: seq<seq<byte>>, n: nat) {
    n <= |ds| && |all| == |before| + n &&
    (forall k :: 0 <= k < |before| ==> all[k] == before[k]) &&
    forall k :: |before| <= k < |all| ==> all[k] == ds[k - |before|]
  }

  // ---------- Conservation ----------

  /** Frames the user was told are incomplete. */
  ghost function Flagged(us: seq<Frame>): nat {
    if us == [] then 0 else Flagged(Front(us)) + (if Last(us).incomplete then 1 else 0)
  }

  lemma {:induction false} FlaggedAreCounted(g: Geometry, fmt: PixelFormat, wanted: PixelFormat, ds: seq<Delivery>)
    requires FormatFits(g, fmt)
    ensures Flagged(UserFrames(g, fmt, wanted, ds)) == CountIncomplete(ds)
  {
    if ds == [] {
    } else {
      var us := UserFrames(g, fmt, wanted, ds);
      FlaggedAreCounted(g, fmt, wanted, Front(ds));
      FramesAreNumbered(g, fmt, wanted, ds, |ds| - 1);
      assert Front(us) == UserFrames(g, fmt, wanted, Front(ds));
    }
  }

  lemma {:induction false} DeliveriesAtMost(log: Log)
    ensures |Deliveries(log)| <= |log|
  {
    if log == [] {
    } else {
      DeliveriesAtMost(Front(log));
    }
  }

  /** In every state of every receiver the counters agree with what the user saw and with the
      datagrams that came, up to their own wrap at 2^64: a callback for each frame received, a
      flagged one for each frame dropped, frame numbers counting callbacks modulo 2^32, the gaps
      summed, and never more frames than accepted datagrams. */
  lemma BooksBalance(r: Receiver)
    requires r.Valid()
    ensures var log := Accepted(r.geom, r.datagrams);
            |r.handed| == |Deliveries(log)| <= |log| <= |r.datagrams| && Flagged(r.handed) <= |r.handed| &&
            r.stats.framesReceived == Wrap64(|r.handed|) && r.stats.framesDropped == Wrap64(Flagged(r.handed)) &&
            r.stats.packetsReceived == Wrap64(|r.datagrams|) && r.stats.packetsLost == Wrap64(TotalLost(log)) &&
            forall k: nat :: k < |r.handed| ==> r.handed[k].number == k % 0x1_0000_0000
    ensures |r.datagrams| < 0x1_0000_0000_0000_0000 ==>
              r.stats.framesReceived == |r.handed| && r.stats.framesDropped == Flagged(r.handed) &&
              r.stats.packetsReceived == |r.datagrams|
    ensures var lost := TotalLost(Accepted(r.geom, r.datagrams));
            lost < 0x1_0000_0000_0000_0000 ==> r.stats.packetsLost == lost
  {
    hide Accepted, Deliveries, StateOf, TotalLost, CountIncomplete, Flagged, UserFrameOf, Average, Wrap64, Times;
    var lost := TotalLost(Accepted(r.geom, r.datagrams));
    var ds := Deliveries(Accepted(r.geom, r.datagrams));
    FlaggedAreCounted(r.geom, r.inputFmt, r.wanted, ds);
    DeliveriesAtMost(Accepted(r.geom, r.datagrams));
    AcceptedAtMost(r.geom, r.datagrams);
    forall k: nat | k < |r.handed|
      ensures r.handed[k].number == k % 0x1_0000_0000
    {
      FramesAreNumbered(r.geom, r.inputFmt, r.wanted, ds, k);
    }
    if |r.datagrams| < 0x1_0000_0000_0000_0000 {
      BelowWrap(|r.datagrams|);
      BelowWrap(|r.handed|);
      BelowWrap(Flagged(r.handed));
    }
    if lost < 0x1_0000_0000_0000_0000 {
      BelowWrap(lost);
    }
  }

  // ---------- Creation ----------

  /** Which of the four allocations succeed: the receiver itself, its packet buffer, its
      conversion buffer, and the assembler's two frames. */
  datatype Memory = Memory(receiver: bool, packet: bool, convert: bool, frames: bool)

  predicate Creatable(hasConfig: bool, width: u32, height: u32, fmt: PixelFormat, memory: Memory) {
    hasConfig && 0 < width <= 8192 && width % 2 == 0 && 0 < height <= 4320 &&
    fmt in {Ycbcr422_10bit, Uyvy} && memory == Memory(true, true, true, true)
  }

  /** `hasConfig` stands for a configuration with an address and a callback. */
  method Create(hasConfig: bool, width: u32, height: u32, fmt: PixelFormat, wanted: PixelFormat, memory: Memory)
    returns (r: Receiver?)
    ensures r != null <==> Creatable(hasConfig, width, height, fmt, memory)
    ensures r != null ==>
            fresh(r) && r.Valid() && r.datagrams == [] && r.inputFmt == fmt && r.wanted == wanted &&
            r.geom.width == width && r.geom.height == height && r.geom.pgroup == if fmt == Uyvy then 4 else 5
    ensures r != null ==>
            fresh(r.assembler) && fresh(r.assembler.bufs) && fresh(r.stats) && fresh(r.convertBuf)
  {
    if !hasConfig || width == 0 || height == 0 || width % 2 != 0 {
      return null;
    }
    if !memory.receiver || !memory.packet || !memory.convert {
      return null;
    }
    var a := InitAssembler(width, height, fmt, memory.frames);
    if a == null {
      return null;
    }
    r := new Receiver(a, fmt, wanted);
  }

  /** A receiver from its creation through any datagrams, with its books at the end. */
  method Serve(hasConfig: bool, width: u32, height: u32, fmt: PixelFormat, wanted: PixelFormat, memory: Memory,
               pkts: seq<seq<byte>>, times: seq<u64>)
    returns (r: Receiver?)
    requires |times| == |pkts|
    ensures r != null <==> Creatable(hasConfig, width, height, fmt, memory)
    ensures r != null ==>
            fresh(r) && r.Valid() && r.datagrams == pkts && r.inputFmt == fmt && r.wanted == wanted &&
            r.handed == Seen(r.geom, fmt, wanted, pkts)
    ensures r != null ==>
            r.stats.framesReceived == Wrap64(|r.handed|) && r.stats.framesDropped == Wrap64(Flagged(r.handed)) &&
            r.stats.packetsReceived == Wrap64(|pkts|) &&
            r.stats.packetsLost == Wrap64(TotalLost(Accepted(r.geom, pkts)))
  {
    hide Accepted, Deliveries, TotalLost, Flagged, StateOf, Average;
    r := Create(hasConfig, width, height, fmt, wanted, memory);
    if r != null {
      r.ProcessAll(pkts, times);
      assert r.datagrams == pkts;
      BooksBalance(r);
    }
  }
}
