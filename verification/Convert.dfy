/** Ten-bit 4:2:2 groups: the sender's packer, the receiver's conversion to 8-bit
    UYVY, and what the two make of an image together. */
module Convert {
  import opened Bytes
  import opened Overlay

  /** Two pixels. */
  datatype Group = Group(cb: u10, y0: u10, cr: u10, y1: u10)

  /** Five bytes, most significant bits first. */
  function PackSamples(cb: u10, y0: u10, cr: u10, y1: u10): (b: seq<byte>)
    ensures |b| == 5
  {
    [cb / 4, cb % 4 * 64 + y0 / 16, y0 % 16 * 16 + cr / 64, cr % 64 * 4 + y1 / 256, y1 % 256]
  }

  function Pack(g: Group): (b: seq<byte>)
    ensures |b| == 5
  {
    PackSamples(g.cb, g.y0, g.cr, g.y1)
  }

  function Unpack(b: seq<byte>): Group
    requires |b| == 5
  {
    UnpackBytes(b[0], b[1], b[2], b[3], b[4])
  }

  function UnpackBytes(b0: int, b1: int, b2: int, b3: int, b4: int): Group
    requires 0 <= b0 < 256 && 0 <= b1 < 256 && 0 <= b2 < 256 && 0 <= b3 < 256 && 0 <= b4 < 256
  {
    Group(b0 * 4 + b1 / 64, b1 % 64 * 16 + b2 / 16, b2 % 16 * 64 + b3 / 4, b3 % 4 * 256 + b4)
  }

  /** The upper eight bits of each sample. */
  function Uyvy(g: Group): (b: seq<byte>)
    ensures |b| == 4
  {
    [g.cb / 4, g.y0 / 4, g.cr / 4, g.y1 / 4]
  }

  lemma SplitByte(hi: nat, lo: nat, k: nat)
    requires k in {4, 16, 64, 256} && lo < k
    ensures (hi * k + lo) / k == hi && (hi * k + lo) % k == lo
  {
  }

  lemma UnpackInvertsPack(g: Group)
    ensures Unpack(Pack(g)) == g
  {
    SplitByte(g.cb % 4, g.y0 / 16, 64);
    SplitByte(g.y0 % 16, g.cr / 64, 16);
    SplitByte(g.cr % 64, g.y1 / 256, 4);
  }

  lemma PackInvertsUnpack(b: seq<byte>)
    requires |b| == 5
    ensures Pack(Unpack(b)) == b
  {
    SplitByte(b[0], b[1] / 64, 4);
    SplitByte(b[1] % 64, b[2] / 16, 16);
    SplitByte(b[2] % 16, b[3] / 4, 64);
    SplitByte(b[3] % 4, b[4], 256);
  }

  /** Ten-bit samples and five-byte groups correspond one to one. */
  lemma GroupCodec(g: Group, b: seq<byte>)
    requires |b| == 5
    ensures Pack(g) == b <==> g == Unpack(b)
  {
    hide Pack, Unpack;
    UnpackInvertsPack(g);
    PackInvertsUnpack(b);
  }

  /** Five bytes as one number, most significant first. */
  function FortyBits(b0: int, b1: int, b2: int, b3: int, b4: int): int {
    0x1_0000_0000 * b0 + 0x100_0000 * b1 + 0x1_0000 * b2 + 0x100 * b3 + b4
  }

  /** A group on the wire is its four samples as one 40-bit number in network byte order, ten
      bits each, in the order Cb, first Y, Cr, second Y. */
  lemma PackIsFortyBits(g: Group)
    ensures var b := Pack(g);
            FortyBits(b[0], b[1], b[2], b[3], b[4]) ==
            0x4000_0000 * (g.cb as int) + 0x10_0000 * (g.y0 as int) + 0x400 * (g.cr as int) + g.y1
  {
    assert g.cb == 4 * (g.cb / 4) + g.cb % 4 && g.y0 == 16 * (g.y0 / 16) + g.y0 % 16;
    assert g.cr == 64 * (g.cr / 64) + g.cr % 64 && g.y1 == 256 * (g.y1 / 256) + g.y1 % 256;
  }

  // ---------- Rows and frames ----------

  /** Group `n` of the image is packed at its place in the frame. */
  ghost predicate PackedAt(frame: seq<byte>, img: seq<Group>, n: nat)
    requires |frame| == 5 * |img| && n < |img|
  {
    frame[5 * n..5 * n + 5] == Pack(img[n])
  }

  /** The frame is the image in ten-bit groups, row after row. */
  ghost predicate IsPacked(frame: seq<byte>, img: seq<Group>) {
    |frame| == 5 * |img| && forall n: nat :: n < |img| ==> PackedAt(frame, img, n)
  }

  /** Four bytes of group `n`: Cb, first Y, Cr, second Y, each shifted right by two. */
  ghost predicate UyvyAt(out: seq<byte>, img: seq<Group>, n: nat)
    requires |out| == 4 * |img| && n < |img|
  {
    out[4 * n] == img[n].cb / 4 && out[4 * n + 1] == img[n].y0 / 4 &&
    out[4 * n + 2] == img[n].cr / 4 && out[4 * n + 3] == img[n].y1 / 4
  }

  /** The buffer is the image in eight-bit UYVY, every sample shifted right by two. */
  ghost predicate IsUyvy(out: seq<byte>, img: seq<Group>) {
    |out| == 4 * |img| && forall n: nat :: n < |img| ==> UyvyAt(out, img, n)
  }

  /** The first `n` groups of a buffer, converted. */
  ghost function UyvyOf(src: seq<byte>, n: nat): (out: seq<byte>)
    requires 5 * n <= |src|
    ensures |out| == 4 * n
  {
    if n == 0 then [] else UyvyOf(src, n - 1) + Uyvy(Unpack(src[5 * n - 5..5 * n]))
  }

  lemma {:induction false} UyvyOfConcat(src: seq<byte>, m: nat, n: nat)
    requires 5 * (m + n) <= |src|
    ensures UyvyOf(src, m + n) == UyvyOf(src, m) + UyvyOf(src[5 * m..5 * m + 5 * n], n)
  {
    hide Unpack, Uyvy;
    if n == 0 {
    } else {
      var part, k := src[5 * m..5 * m + 5 * n], n - 1;
      UyvyOfConcat(src, m, k);
      UyvyOfPrefix(src[5 * m..5 * m + 5 * k], part, k);
      var last := src[5 * (m + n) - 5..5 * (m + n)];
      assert part[5 * n - 5..5 * n] == last && m + n - 1 == m + k;
      assert src[5 * m..5 * m + 5 * k] <= part;
      assert UyvyOf(src, m + n) == (UyvyOf(src, m) + UyvyOf(part, k)) + Uyvy(Unpack(last));
    }
  }

  lemma {:induction false} UyvyOfPrefix(a: seq<byte>, b: seq<byte>, n: nat)
    requires a <= b && 5 * n <= |a|
    ensures UyvyOf(a, n) == UyvyOf(b, n)
  {
    hide Unpack, Uyvy;
    if n == 0 {
    } else {
      UyvyOfPrefix(a, b, n - 1);
      assert a[5 * n - 5..5 * n] == b[5 * n - 5..5 * n];
    }
  }

  lemma {:induction false} UyvyOfAt(src: seq<byte>, n: nat, g: nat)
    requires g < n && 5 * n <= |src|
    ensures UyvyOf(src, n)[4 * g..4 * g + 4] == Uyvy(Unpack(src[5 * g..5 * g + 5]))
  {
    if g >= n - 1 {
    } else {
      UyvyOfAt(src, n - 1, g);
      assert UyvyOf(src, n)[4 * g..4 * g + 4] == UyvyOf(src, n - 1)[4 * g..4 * g + 4];
    }
  }

  lemma Quotient(k: nat, q: int, r: nat)
    requires k in {4, 0x1000, 0x40_0000, 0x1_0000_0000} && r < k
    ensures (k * q + r) / k == q
  {
  }

  lemma LowByte(q: int, r: nat)
    requires r < 256
    ensures (256 * q + r) % 256 == r
  {
  }

  /** The upper eight bits of four ten-bit fields, read off the 40-bit number. */
  lemma TopBits(cb: nat, y0: nat, cr: nat, y1: nat, n: int)
    requires cb < 1024 && y0 < 1024 && cr < 1024 && y1 < 1024
    requires n == 0x4000_0000 * cb + 0x10_0000 * y0 + 0x400 * cr + y1
    ensures n / 0x1_0000_0000 == cb / 4 && n / 0x40_0000 % 256 == y0 / 4
    ensures n / 0x1000 % 256 == cr / 4 && n / 4 % 256 == y1 / 4
  {
    var c, u, d, v := cb / 4, y0 / 4, cr / 4, y1 / 4;
    Quotient(0x1_0000_0000, c, 0x4000_0000 * (cb - 4 * c) + 0x10_0000 * y0 + 0x400 * cr + y1);
    Quotient(0x40_0000, 256 * cb + u, 0x10_0000 * (y0 - 4 * u) + 0x400 * cr + y1);
    LowByte(cb, u);
    Quotient(0x1000, 0x4_0000 * cb + 256 * y0 + d, 0x400 * (cr - 4 * d) + y1);
    LowByte(1024 * cb + y0, d);
    Quotient(4, 0x1000_0000 * cb + 0x4_0000 * y0 + 256 * cr + v, y1 - 4 * v);
    LowByte(0x10_0000 * cb + 1024 * y0 + cr, v);
  }

  /** The conversion of arbitrary bytes, group by group: with `n` the 40-bit number of five source
      bytes, the four bytes are its bits 39 to 32, 29 to 22, 19 to 12 and 9 to 2. */
  lemma ConversionIsTopBits(src: seq<byte>, groups: nat, g: nat, n: int)
    requires g < groups && 5 * groups <= |src|
    requires n == 0x1_0000_0000 * (src[5 * g] as int) + 0x100_0000 * (src[5 * g + 1] as int) +
                  0x1_0000 * (src[5 * g + 2] as int) + 0x100 * (src[5 * g + 3] as int) + src[5 * g + 4]
    ensures var out := UyvyOf(src, groups);
            out[4 * g] == n / 0x1_0000_0000 && out[4 * g + 1] == n / 0x40_0000 % 256 &&
            out[4 * g + 2] == n / 0x1000 % 256 && out[4 * g + 3] == n / 4 % 256
  {
    hide Pack, Unpack;
    var b, out := src[5 * g..5 * g + 5], UyvyOf(src, groups);
    var u := Unpack(b);
    PackInvertsUnpack(b);
    PackIsFortyBits(u);
    TopBits(u.cb, u.y0, u.cr, u.y1, n);
    UyvyOfAt(src, groups, g);
    FourBytesAt(out, 4 * g, Uyvy(u));
  }

  lemma FourBytesAt(out: seq<byte>, at: nat, four: seq<byte>)
    requires at + 4 <= |out| && |four| == 4 && out[at..at + 4] == four
    ensures out[at] == four[0] && out[at + 1] == four[1] && out[at + 2] == four[2] && out[at + 3] == four[3]
  {
    var part := out[at..at + 4];
    assert part[0] == out[at] && part[1] == out[at + 1] && part[2] == out[at + 2] && part[3] == out[at + 3];
  }

  /** Converting a packed image gives its samples, eight bits each. */
  lemma PackedImageConverts(frame: seq<byte>, img: seq<Group>)
    requires IsPacked(frame, img)
    ensures IsUyvy(UyvyOf(frame, |img|), img)
  {
    forall n: nat | n < |img|
      ensures UyvyAt(UyvyOf(frame, |img|), img, n)
    {
      assert PackedAt(frame, img, n);
      UyvyOfAt(frame, |img|, n);
      UnpackInvertsPack(img[n]);
      FourBytesAt(UyvyOf(frame, |img|), 4 * n, Uyvy(img[n]));
    }
  }

  // ---------- The code ----------

  /** The sender's packer. */
  method PackGroup(dst: array<byte>, at: nat, cb: u10, y0: u10, cr: u10, y1: u10)
    requires at + 5 <= dst.Length
    modifies dst
    ensures dst[..] == Put(old(dst[..]), Write(at, Pack(Group(cb, y0, cr, y1))))
  {
    dst[at] := cb / 4;
    dst[at + 1] := cb % 4 * 64 + y0 / 16;
    dst[at + 2] := y0 % 16 * 16 + cr / 64;
    dst[at + 3] := cr % 64 * 4 + y1 / 256;
    dst[at + 4] := y1 % 256;
  }

  /** One group: the ten-bit samples are taken apart and their low bits dropped. */
  method ConvertGroup(src: array<byte>, sp: nat, dst: array<byte>, dp: nat)
    requires src != dst && sp + 5 <= src.Length && dp + 4 <= dst.Length
    modifies dst
    ensures dst[..] == Put(old(dst[..]), Write(dp, Uyvy(Unpack(src[sp..sp + 5]))))
  {
    var b0: int, b1: int, b2: int, b3: int, b4: int := src[sp], src[sp + 1], src[sp + 2], src[sp + 3], src[sp + 4];
    var cb: u10 := b0 * 4 + b1 / 64;
    var y0: u10 := b1 % 64 * 16 + b2 / 16;
    var cr: u10 := b2 % 16 * 64 + b3 / 4;
    var y1: u10 := b3 % 4 * 256 + b4;
    dst[dp] := cb / 4;
    dst[dp + 1] := y0 / 4;
    dst[dp + 2] := cr / 4;
    dst[dp + 3] := y1 / 4;
    assert src[sp..sp + 5] == [src[sp], src[sp + 1], src[sp + 2], src[sp + 3], src[sp + 4]];
  }

  /** The first `n` groups of a row, converted and placed. */
  ghost function RowStart(row: seq<byte>, at: nat, n: nat): Write
    requires 5 * n <= |row|
  {
    Write(at, UyvyOf(row, n))
  }

  lemma OneMoreGroup(was: seq<byte>, row: seq<byte>, at: nat, n: nat, group: seq<byte>)
    requires 5 * n + 5 <= |row| && group == row[5 * n..5 * n + 5] && at + 4 * n + 4 <= |was|
    ensures Put(Put(was, RowStart(row, at, n)), Write(at + 4 * n, Uyvy(Unpack(group)))) ==
            Put(was, RowStart(row, at, n + 1))
  {
    hide Put, Unpack, Uyvy;
    PutSnoc(was, at, UyvyOf(row, n), Uyvy(Unpack(group)));
    assert row[5 * (n + 1) - 5..5 * (n + 1)] == group;
  }

  lemma NoGroupsYet(was: seq<byte>, row: seq<byte>, at: nat)
    requires at <= |was|
    ensures Put(was, RowStart(row, at, 0)) == was
  {
  }

  /** The inner loop: the groups of one row. */
  method ConvertRow(src: array<byte>, from: nat, dst: array<byte>, at: nat, groups: nat)
    requires src != dst && from + 5 * groups <= src.Length && at + 4 * groups <= dst.Length
    modifies dst
    ensures dst[..] == Put(old(dst[..]), RowStart(src[from..from + 5 * groups], at, groups))
  {
    hide Put, Unpack, Uyvy, RowStart;
    var sp, dp := from, at;
    ghost var was, row := dst[..], src[from..from + 5 * groups];
    NoGroupsYet(was, row, at);
    for g := 0 to groups
      invariant sp == from + 5 * g && dp == at + 4 * g
      invariant dst[..] == Put(was, RowStart(row, at, g))
    {
      OneMoreGroup(was, row, at, g, src[sp..sp + 5]);
      ConvertGroup(src, sp, dst, dp);
      sp, dp := sp + 5, dp + 4;
    }
  }

  /** Row `y` can be read from `src` and written to `dst`. */
  ghost predicate RowFits(srcLen: nat, srcStride: nat, dstLen: nat, dstStride: nat, groups: nat, y: nat) {
    Times(y, srcStride) + 5 * groups <= srcLen && Times(y, dstStride) + 4 * groups <= dstLen
  }

  /** Every row can. */
  ghost predicate AllRowsFit(srcLen: nat, srcStride: nat, dstLen: nat, dstStride: nat, groups: nat, rows: nat) {
    forall y: nat :: y < rows ==> RowFits(srcLen, srcStride, dstLen, dstStride, groups, y)
  }

  /** Row `y`, converted and placed. */
  ghost function RowWrite(src: seq<byte>, srcStride: nat, dstStride: nat, groups: nat, y: nat): (w: Write)
    requires Times(y, srcStride) + 5 * groups <= |src|
    ensures |w.data| == 4 * groups
  {
    var from := Times(y, srcStride);
    Write(Times(y, dstStride), UyvyOf(src[from..from + 5 * groups], groups))
  }

  /** The first rows, converted, as copies into the destination. */
  ghost function RowWrites(
    src: seq<byte>, srcStride: nat, dstLen: nat, dstStride: nat, groups: nat, rows: nat): (ws: seq<Write>)
    requires AllRowsFit(|src|, srcStride, dstLen, dstStride, groups, rows)
    ensures |ws| == rows
  {
    if rows == 0 then
      []
    else
      assert RowFits(|src|, srcStride, dstLen, dstStride, groups, rows - 1);
      RowWrites(src, srcStride, dstLen, dstStride, groups, rows - 1) +
      [RowWrite(src, srcStride, dstStride, groups, rows - 1)]
  }

  /** The receiver's conversion, for any strides: the destination becomes the overlay of the
      converted rows, from the top, and no other byte changes. */
  method ConvertBe10ToUyvy(src: array<byte>, srcStride: nat, dst: array<byte>, dstStride: nat, width: nat, height: nat)
    requires src != dst && AllRowsFit(src.Length, srcStride, dst.Length, dstStride, width / 2, height)
    modifies dst
    ensures dst[..] == Apply(old(dst[..]), RowWrites(src[..], srcStride, dst.Length, dstStride, width / 2, height))
  {
    hide UyvyOf, Put, Times;
    var groups := width / 2;
    ghost var was, image := dst[..], src[..];
    for y := 0 to height
      invariant dst[..] == Apply(was, RowWrites(image, srcStride, dst.Length, dstStride, groups, y))
    {
      assert RowFits(src.Length, srcStride, dst.Length, dstStride, groups, y);
      ConvertRow(src, Times(y, srcStride), dst, Times(y, dstStride), groups);
      ApplySnoc(was, RowWrites(image, srcStride, dst.Length, dstStride, groups, y),
                RowWrite(image, srcStride, dstStride, groups, y));
    }
  }

  // ---------- Rows that do not overlap ----------

  /** Row `y` of `out` holds the samples of row `y` of `src`. */
  ghost predicate FrameRow(out: seq<byte>, dstStride: nat, src: seq<byte>, srcStride: nat, groups: nat, y: nat) {
    var from, at := Times(y, srcStride), Times(y, dstStride);
    from + 5 * groups <= |src| && at + 4 * groups <= |out| &&
    out[at..at + 4 * groups] == UyvyOf(src[from..from + 5 * groups], groups)
  }

  ghost predicate InRow(j: int, dstStride: nat, groups: nat, y: nat) {
    Times(y, dstStride) <= j < Times(y, dstStride) + 4 * groups
  }

  ghost predicate OutsideRows(j: int, dstStride: nat, groups: nat, rows: nat) {
    forall y: nat :: y < rows ==> !InRow(j, dstStride, groups, y)
  }

  /** A byte outside the rows is never written, whatever the strides. */
  lemma {:induction false} OutsideRowsStays(
    buf: seq<byte>, src: seq<byte>, srcStride: nat, dstStride: nat, groups: nat, rows: nat, j: int)
    requires AllRowsFit(|src|, srcStride, |buf|, dstStride, groups, rows)
    requires 0 <= j < |buf| && OutsideRows(j, dstStride, groups, rows)
    ensures Apply(buf, RowWrites(src, srcStride, |buf|, dstStride, groups, rows))[j] == buf[j]
  {
    if rows == 0 {
    } else {
      OutsideRowsStays(buf, src, srcStride, dstStride, groups, rows - 1, j);
      assert RowFits(|src|, srcStride, |buf|, dstStride, groups, rows - 1);
      ApplySnoc(buf, RowWrites(src, srcStride, |buf|, dstStride, groups, rows - 1),
                RowWrite(src, srcStride, dstStride, groups, rows - 1));
      assert !InRow(j, dstStride, groups, rows - 1);
    }
  }

  lemma RowStays(out: seq<byte>, w: Write, dstStride: nat, src: seq<byte>, srcStride: nat, groups: nat, y: nat)
    requires FrameRow(out, dstStride, src, srcStride, groups, y) && Fits(w, |out|)
    requires w.at >= Times(y, dstStride) + 4 * groups
    ensures FrameRow(Put(out, w), dstStride, src, srcStride, groups, y)
  {
    var at := Times(y, dstStride);
    assert Put(out, w)[at..at + 4 * groups] == out[at..at + 4 * groups];
  }

  lemma RowArrives(out: seq<byte>, dstStride: nat, src: seq<byte>, srcStride: nat, groups: nat, y: nat)
    requires RowFits(|src|, srcStride, |out|, dstStride, groups, y)
    ensures FrameRow(Put(out, RowWrite(src, srcStride, dstStride, groups, y)), dstStride, src, srcStride, groups, y)
  {
  }

  /** With rows apart, as the receiver has them, every row holds its samples. */
  lemma {:induction false} RowsApartAreConverted(
    buf: seq<byte>, src: seq<byte>, srcStride: nat, dstStride: nat, groups: nat, rows: nat, y: nat)
    requires AllRowsFit(|src|, srcStride, |buf|, dstStride, groups, rows) && 4 * groups <= dstStride && y < rows
    ensures FrameRow(Apply(buf, RowWrites(src, srcStride, |buf|, dstStride, groups, rows)),
                     dstStride, src, srcStride, groups, y)
  {
    hide FrameRow, Put;
    var before := RowWrites(src, srcStride, |buf|, dstStride, groups, rows - 1);
    assert RowFits(|src|, srcStride, |buf|, dstStride, groups, rows - 1);
    var w := RowWrite(src, srcStride, dstStride, groups, rows - 1);
    ApplySnoc(buf, before, w);
    if y == rows - 1 {
      RowArrives(Apply(buf, before), dstStride, src, srcStride, groups, y);
    } else {
      RowsApartAreConverted(buf, src, srcStride, dstStride, groups, rows - 1, y);
      TimesMonotone(y + 1, rows - 1, dstStride);
      RowStays(Apply(buf, before), w, dstStride, src, srcStride, groups, y);
    }
  }

  // ---------- Rows back to back ----------

  lemma BackToBackRowsFit(groups: nat, height: nat)
    ensures var n := Times(height, groups);
            AllRowsFit(5 * n, 5 * groups, 4 * n, 4 * groups, groups, height)
  {
    forall y: nat | y < height
      ensures RowFits(5 * Times(height, groups), 5 * groups, 4 * Times(height, groups), 4 * groups, groups, y)
    {
      TimesScales(y, 5, groups);
      TimesScales(y, 4, groups);
      TimesMonotone(y + 1, height, groups);
    }
  }

  lemma NoGroups(src: seq<byte>)
    ensures UyvyOf(src, 0) == []
  {
  }

  lemma {:induction false} RowsAreOneRow(out: seq<byte>, src: seq<byte>, groups: nat, rows: nat)
    requires forall y: nat :: y < rows ==> FrameRow(out, 4 * groups, src, 5 * groups, groups, y)
    requires 5 * Times(rows, groups) <= |src| && 4 * Times(rows, groups) <= |out|
    ensures out[..4 * Times(rows, groups)] == UyvyOf(src, Times(rows, groups))
  {
    hide UyvyOf;
    if rows == 0 {
      assert out[..0] == UyvyOf(src, 0) by {
        NoGroups(src);
      }
    } else {
      var k := Times(rows - 1, groups);
      assert Times(rows, groups) == k + groups;
      RowsAreOneRow(out, src, groups, rows - 1);
      assert FrameRow(out, 4 * groups, src, 5 * groups, groups, rows - 1);
      TimesScales(rows - 1, 5, groups);
      TimesScales(rows - 1, 4, groups);
      UyvyOfConcat(src, k, groups);
      assert out[..4 * (k + groups)] == out[..4 * k] + out[4 * k..4 * k + 4 * groups];
    }
  }

  /** With rows back to back, as the receiver calls it, the whole of the buffer is the converted
      source, whatever was in it. */
  lemma BackToBackIsWhole(buf: seq<byte>, src: seq<byte>, groups: nat, height: nat)
    requires |src| == 5 * Times(height, groups) && |buf| == 4 * Times(height, groups)
    requires AllRowsFit(|src|, 5 * groups, |buf|, 4 * groups, groups, height)
    ensures Apply(buf, RowWrites(src, 5 * groups, |buf|, 4 * groups, groups, height)) ==
            UyvyOf(src, Times(height, groups))
  {
    var out := Apply(buf, RowWrites(src, 5 * groups, |buf|, 4 * groups, groups, height));
    forall y: nat | y < height
      ensures FrameRow(out, 4 * groups, src, 5 * groups, groups, y)
    {
      RowsApartAreConverted(buf, src, 5 * groups, 4 * groups, groups, height, y);
    }
    RowsAreOneRow(out, src, groups, height);
    assert out[..|out|] == out;
  }
}
