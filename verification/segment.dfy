/** The data segment of the merged file, in terms of payload sizes: where
    each payload lands, what fills the gaps, and how long the segment is. */
module Segment {
  import opened Gguf
  import opened Layout
  import opened Emit

  /** The payload lengths, in order. */
  function Lengths(blobs: seq<seq<Byte>>): (sizes: seq<nat>)
    ensures |sizes| == |blobs|
    ensures forall k :: 0 <= k < |blobs| ==> sizes[k] == |blobs[k]|
  {
    seq(|blobs|, k requires 0 <= k < |blobs| => |blobs[k]|)
  }

  /** The bytes written after the header region: the padding that aligns the
      header's end, then each payload followed by the padding that realigns
      it, except after the last one. */
  function DataStream(a: nat, writtenBytes: nat, blobs: seq<seq<Byte>>): seq<Byte>
    requires a > 0
  {
    Interleave(Paddings(Lengths(blobs), a, writtenBytes), blobs)
  }

  /** Payload `k` of the stream starts `Pad(writtenBytes, a)` bytes (the
      leading padding) plus its recorded offset after the header region. */
  lemma {:induction false} StartIsOffset(a: nat, writtenBytes: nat, blobs: seq<seq<Byte>>, k: nat)
    requires a > 0 && k < |blobs|
    ensures Start(Paddings(Lengths(blobs), a, writtenBytes), blobs, k) == Pad(writtenBytes, a) + Offsets(Lengths(blobs), a)[k]
  {
    var sizes := Lengths(blobs);
    var pads := Paddings(sizes, a, writtenBytes);
    var offs := Offsets(sizes, a);
    OffsetsRecurrence(sizes, a);
    if k > 0 {
      StartIsOffset(a, writtenBytes, blobs, k - 1);
      assert sizes[k - 1] == |blobs[k - 1]|;
      assert pads[k] == Pad(offs[k - 1] + sizes[k - 1], a);
      assert offs[k] == offs[k - 1] + sizes[k - 1] + Pad(offs[k - 1] + sizes[k - 1], a);
    }
  }

  /** Payload `k` sits at the leading padding plus its recorded offset. */
  lemma StreamPayload(a: nat, writtenBytes: nat, blobs: seq<seq<Byte>>, k: nat)
    requires a > 0 && k < |blobs|
    ensures var s := DataStream(a, writtenBytes, blobs);
      var st := Pad(writtenBytes, a) + Offsets(Lengths(blobs), a)[k];
      st + |blobs[k]| <= |s| && s[st..st + |blobs[k]|] == blobs[k]
  {
    StartIsOffset(a, writtenBytes, blobs, k);
    InterleavePayload(Paddings(Lengths(blobs), a, writtenBytes), blobs, k);
  }

  /** Every byte outside the payload ranges is zero. */
  lemma StreamPadding(a: nat, writtenBytes: nat, blobs: seq<seq<Byte>>)
    requires a > 0
    ensures var s := DataStream(a, writtenBytes, blobs);
      var lead := Pad(writtenBytes, a);
      forall q :: 0 <= q < |s| &&
        (forall k :: 0 <= k < |blobs| ==> !(lead + Offsets(Lengths(blobs), a)[k] <= q < lead + Offsets(Lengths(blobs), a)[k] + |blobs[k]|))
        ==> s[q] == 0
  {
    var pads := Paddings(Lengths(blobs), a, writtenBytes);
    var s := DataStream(a, writtenBytes, blobs);
    var lead := Pad(writtenBytes, a);
    forall k | 0 <= k < |blobs|
      ensures Start(pads, blobs, k) == lead + Offsets(Lengths(blobs), a)[k]
    {
      StartIsOffset(a, writtenBytes, blobs, k);
    }
    InterleavePadding(pads, blobs);
    forall q | 0 <= q < |s| &&
      (forall k :: 0 <= k < |blobs| ==> !(lead + Offsets(Lengths(blobs), a)[k] <= q < lead + Offsets(Lengths(blobs), a)[k] + |blobs[k]|))
      ensures s[q] == 0
    {
      assert !InPayload(pads, blobs, q);
    }
  }

  /** The stream ends where the last payload ends. */
  lemma StreamLength(a: nat, writtenBytes: nat, blobs: seq<seq<Byte>>)
    requires a > 0 && |blobs| > 0
    ensures var n := |blobs| - 1;
      |DataStream(a, writtenBytes, blobs)| == Pad(writtenBytes, a) + Offsets(Lengths(blobs), a)[n] + |blobs[n]|
  {
    InterleaveLength(Paddings(Lengths(blobs), a, writtenBytes), blobs);
    StartIsOffset(a, writtenBytes, blobs, |blobs| - 1);
  }
}
