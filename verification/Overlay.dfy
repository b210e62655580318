/** Frame buffers as values: what a list of copies into a buffer leaves behind. */
module Overlay {
  import opened Bytes

  /** One copy into a frame buffer: `data` lands at byte offset `at`. */
  datatype Write = Write(at: nat, data: seq<byte>)

  ghost predicate Covers(w: Write, j: int) {
    w.at <= j < w.at + |w.data|
  }

  ghost predicate Fits(w: Write, size: nat) {
    w.at + |w.data| <= size
  }

  /** The byte at `j` comes from some write of the list. */
  ghost predicate Covered(ws: seq<Write>, j: int) {
    exists w :: w in ws && Covers(w, j)
  }

  /** The copy itself; a copy that would leave the buffer is not made. */
  ghost function Put(buf: seq<byte>, w: Write): (r: seq<byte>)
    ensures |r| == |buf|
  {
    if Fits(w, |buf|) then buf[..w.at] + w.data + buf[w.at + |w.data|..] else buf
  }

  /** All copies of a list, in order: later ones overwrite earlier ones. */
  ghost function Apply(buf: seq<byte>, ws: seq<Write>): (r: seq<byte>)
    ensures |r| == |buf|
  {
    if ws == [] then buf else Put(Apply(buf, Front(ws)), Last(ws))
  }

  /** Two adjacent copies are one. */
  lemma PutSnoc(buf: seq<byte>, at: nat, a: seq<byte>, b: seq<byte>)
    requires at + |a| + |b| <= |buf|
    ensures Put(Put(buf, Write(at, a)), Write(at + |a|, b)) == Put(buf, Write(at, a + b))
  {
  }

  lemma ApplySnoc(buf: seq<byte>, ws: seq<Write>, w: Write)
    ensures Apply(buf, ws + [w]) == Put(Apply(buf, ws), w)
  {
    assert Front(ws + [w]) == ws;
  }

  lemma {:induction false} ApplyConcat(buf: seq<byte>, a: seq<Write>, b: seq<Write>)
    ensures Apply(buf, a + b) == Apply(Apply(buf, a), b)
    decreases |b|
  {
    if b == [] {
      assert a + b == a;
    } else {
      ApplyConcat(buf, a, Front(b));
      assert Front(a + b) == a + Front(b);
      assert Last(a + b) == Last(b);
    }
  }

  /** Bytes under no write stay. */
  lemma {:induction false} UncoveredStays(buf: seq<byte>, ws: seq<Write>, j: int)
    requires 0 <= j < |buf| && !Covered(ws, j)
    ensures Apply(buf, ws)[j] == buf[j]
  {
    if ws == [] {
    } else {
      assert Last(ws) in ws;
      assert !Covered(Front(ws), j) by {
        assert forall w :: w in Front(ws) ==> w in ws;
      }
      UncoveredStays(buf, Front(ws), j);
    }
  }

  /** The write copies exactly the bytes that `image` has at its place. */
  ghost predicate SliceOf(w: Write, image: seq<byte>) {
    Fits(w, |image|) && w.data == image[w.at..w.at + |w.data|]
  }

  ghost predicate AllSlicesOf(ws: seq<Write>, image: seq<byte>) {
    forall w :: w in ws ==> SliceOf(w, image)
  }

  /** Pieces of one image, in any order and with any repetition, leave the image
      where some piece fell and the old buffer everywhere else. */
  lemma {:induction false} SlicesRebuildImage(buf: seq<byte>, ws: seq<Write>, image: seq<byte>)
    requires |buf| == |image| && AllSlicesOf(ws, image)
    ensures forall j :: 0 <= j < |buf| ==>
              Apply(buf, ws)[j] == if Covered(ws, j) then image[j] else buf[j]
  {
    if ws == [] {
    } else {
      SlicesRebuildImage(buf, Front(ws), image);
      var w := Last(ws);
      assert w in ws && SliceOf(w, image);
      forall j | 0 <= j < |buf|
        ensures Apply(buf, ws)[j] == if Covered(ws, j) then image[j] else buf[j]
      {
        assert Covered(ws, j) <==> Covers(w, j) || Covered(Front(ws), j) by {
          if Covered(Front(ws), j) {
            var v :| v in Front(ws) && Covers(v, j);
            assert v in ws;
          }
        }
      }
    }
  }

  /** Wherever two writes of the list overlap, they carry the same byte. Disjoint
      segments are the usual case, repeated packets another. */
  ghost predicate Agree(a: Write, b: Write) {
    forall j {:trigger a.data[j - a.at]} {:trigger b.data[j - b.at]} ::
      Covers(a, j) && Covers(b, j) ==> a.data[j - a.at] == b.data[j - b.at]
  }

  ghost predicate Consistent(ws: seq<Write>) {
    forall a, b :: a in ws && b in ws ==> Agree(a, b)
  }

  /** A write stays a piece of the image when an agreeing write comes on top. */
  lemma AgreeingWriteKeepsSlice(w: Write, before: seq<byte>, top: Write)
    requires Fits(w, |before|) && Fits(top, |before|) && Agree(w, top)
    requires w == top || SliceOf(w, before)
    ensures SliceOf(w, Put(before, top))
  {
    var image := Put(before, top);
    forall k | 0 <= k < |w.data|
      ensures w.data[k] == image[w.at + k]
    {
      var j := w.at + k;
      assert w.data[k] == w.data[j - w.at];
      if Covers(top, j) {
        assert w.data[j - w.at] == top.data[j - top.at];
      } else {
        assert w.data[k] == before[w.at..w.at + |w.data|][k];
      }
    }
  }

  /** Writes that agree are all pieces of one image: the one they leave. */
  lemma {:induction false} ConsistentWritesAreSlices(buf: seq<byte>, ws: seq<Write>)
    requires Consistent(ws) && forall w :: w in ws ==> Fits(w, |buf|)
    ensures AllSlicesOf(ws, Apply(buf, ws))
  {
    if ws == [] {
    } else {
      var before := Apply(buf, Front(ws));
      assert forall w :: w in Front(ws) ==> w in ws;
      ConsistentWritesAreSlices(buf, Front(ws));
      forall w | w in ws
        ensures SliceOf(w, Apply(buf, ws))
      {
        assert w == Last(ws) || w in Front(ws);
        assert Agree(w, Last(ws));
        AgreeingWriteKeepsSlice(w, before, Last(ws));
      }
    }
  }

  /** Order and repetition of agreeing writes do not matter, only the set of them. */
  lemma OnlyTheSetOfWritesMatters(buf: seq<byte>, a: seq<Write>, b: seq<Write>)
    requires Consistent(a) && forall w :: w in a ==> Fits(w, |buf|)
    requires forall w :: w in a <==> w in b
    ensures Apply(buf, a) == Apply(buf, b)
  {
    var image := Apply(buf, a);
    ConsistentWritesAreSlices(buf, a);
    SlicesRebuildImage(buf, a, image);
    SlicesRebuildImage(buf, b, image);
    forall j | 0 <= j < |buf|
      ensures Covered(a, j) <==> Covered(b, j)
    {
    }
  }
}
