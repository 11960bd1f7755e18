/** Placement of tensor payloads in the merged data segment: the padding
    function and the running cursor that assigns each tensor its offset. */
module Layout {
  import opened Wrappers

  /** `x` is a multiple of the alignment `a`. */
  predicate Aligned(x: nat, a: nat)
    requires a > 0
  {
    x % a == 0
  }

  /** The number of zero bytes that brings position `x` to the next multiple
      of `a`: the least `p` with `x + p` aligned. */
  function Pad(x: nat, a: nat): (p: nat)
    requires a > 0
    ensures p < a
    ensures Aligned(x + p, a)
    ensures forall y :: x <= y < x + p ==> !Aligned(y, a)
  {
    PadFacts(x, a);
    (a - x % a) % a
  }

  /** The arithmetic behind `Pad`, split out of its body. */
  lemma PadFacts(x: nat, a: nat)
    requires a > 0
    ensures var p := (a - x % a) % a;
      && p < a && Aligned(x + p, a)
      && forall y :: x <= y < x + p ==> !Aligned(y, a)
  {
    var q, r := x / a, x % a;
    assert x == q * a + r;
    var p := (a - r) % a;
    if r == 0 {
      ModOfOffset(1, a, 0);
      assert p == 0;
      ModOfOffset(q, a, 0);
    } else {
      ModOfOffset(0, a, a - r);
      assert p == a - r;
      assert x + p == (q + 1) * a;
      ModOfOffset(q + 1, a, 0);
      forall y | x <= y < x + p
        ensures !Aligned(y, a)
      {
        assert y == q * a + (r + (y - x));
        ModOfOffset(q, a, r + (y - x));
      }
    }
  }

  /** `(q * a + m) % a == m` for `0 <= m < a`: the remainder is unique. */
  lemma ModOfOffset(q: nat, a: nat, m: nat)
    requires 0 <= m < a
    ensures (q * a + m) % a == m
  {
    var n := q * a + m;
    var q', m' := n / a, n % a;
    assert n == q' * a + m';
    if q' < q {
      MulMonotone(q' + 1, q, a);
    } else if q < q' {
      MulMonotone(q + 1, q', a);
    }
  }

  /** Multiplication by a natural number is monotone. */
  lemma MulMonotone(x: nat, y: nat, a: nat)
    requires x <= y
    ensures x * a <= y * a
  {
    assert y * a == x * a + (y - x) * a;
  }

  /** The cursor after a payload of `size` bytes placed at `cursor`: past the
      payload and past the padding that realigns it. */
  function Advance(cursor: nat, size: nat, a: nat): (c: nat)
    requires a > 0
    ensures cursor + size <= c < cursor + size + a
    ensures Aligned(c, a)
  {
    cursor + size + Pad(cursor + size, a)
  }

  /** The offsets a running cursor, starting at `cursor`, records for payloads
      of the given sizes, one after the other. */
  function OffsetsFrom(cursor: nat, sizes: seq<nat>, a: nat): (offs: seq<nat>)
    requires a > 0
    ensures |offs| == |sizes|
    decreases |sizes|
  {
    if |sizes| == 0 then []
    else [cursor] + OffsetsFrom(Advance(cursor, sizes[0], a), sizes[1..], a)
  }

  /** The recorded offsets of the merged data segment: the cursor starts at 0. */
  function Offsets(sizes: seq<nat>, a: nat): (offs: seq<nat>)
    requires a > 0
    ensures |offs| == |sizes|
  {
    OffsetsFrom(0, sizes, a)
  }

  lemma {:induction false} OffsetsFromRecurrence(cursor: nat, sizes: seq<nat>, a: nat)
    requires a > 0
    ensures |sizes| > 0 ==> OffsetsFrom(cursor, sizes, a)[0] == cursor
    ensures var offs := OffsetsFrom(cursor, sizes, a);
      forall k :: 0 <= k < |sizes| - 1 ==> offs[k + 1] == Advance(offs[k], sizes[k], a)
    decreases |sizes|
  {
    if |sizes| > 0 {
      var next := Advance(cursor, sizes[0], a);
      OffsetsFromRecurrence(next, sizes[1..], a);
    }
  }

  /** The offsets obey the recurrence of the cursor loop: the first is 0, and
      each next one is the previous offset plus its payload plus the padding. */
  lemma OffsetsRecurrence(sizes: seq<nat>, a: nat)
    requires a > 0
    ensures |sizes| > 0 ==> Offsets(sizes, a)[0] == 0
    ensures var offs := Offsets(sizes, a);
      forall k :: 0 <= k < |sizes| - 1 ==>
        offs[k + 1] == offs[k] + sizes[k] + Pad(offs[k] + sizes[k], a)
  {
    OffsetsFromRecurrence(0, sizes, a);
  }

  /** Every recorded offset is a multiple of the alignment. */
  lemma OffsetsAligned(sizes: seq<nat>, a: nat)
    requires a > 0
    ensures forall k :: 0 <= k < |sizes| ==> Aligned(Offsets(sizes, a)[k], a)
  {
    OffsetsRecurrence(sizes, a);
    var offs := Offsets(sizes, a);
    forall k | 0 <= k < |sizes|
      ensures Aligned(offs[k], a)
    {
      if k > 0 {
        assert offs[k] == Advance(offs[k - 1], sizes[k - 1], a);
      }
    }
  }

  /** A payload ends no later than any later payload begins. */
  lemma {:induction false} OffsetsOrdered(sizes: seq<nat>, a: nat, j: nat, k: nat)
    requires a > 0
    requires j < k < |sizes|
    ensures Offsets(sizes, a)[j] + sizes[j] <= Offsets(sizes, a)[k]
    decreases k - j
  {
    OffsetsRecurrence(sizes, a);
    if j + 1 < k {
      OffsetsOrdered(sizes, a, j, k - 1);
    }
  }

  /** The recorded offsets never decrease, and the byte ranges
      `[offset, offset + size)` of any two payloads are disjoint. */
  lemma OffsetsDisjoint(sizes: seq<nat>, a: nat)
    requires a > 0
    ensures var offs := Offsets(sizes, a);
      forall j, k :: 0 <= j < k < |sizes| ==> offs[j] <= offs[k]
    ensures var offs := Offsets(sizes, a);
      forall j, k :: 0 <= j < |sizes| && 0 <= k < |sizes| && j != k ==>
        offs[j] + sizes[j] <= offs[k] || offs[k] + sizes[k] <= offs[j]
  {
    forall j, k | 0 <= j < k < |sizes|
      ensures Offsets(sizes, a)[j] + sizes[j] <= Offsets(sizes, a)[k]
    {
      OffsetsOrdered(sizes, a, j, k);
    }
  }

  /** The padding written before each payload: before the first, the padding
      that aligns the end of the header region; before each later one, the
      padding that realigns the end of its predecessor. */
  function Paddings(sizes: seq<nat>, a: nat, writtenBytes: nat): seq<nat>
    requires a > 0
  {
    var offs := Offsets(sizes, a);
    seq(|sizes|, k requires 0 <= k < |sizes| =>
      if k == 0 then Pad(writtenBytes, a) else Pad(offs[k - 1] + sizes[k - 1], a))
  }

  /** The paddings fill the gaps exactly: the first brings the end of the
      header region to a multiple of the alignment, and each later one
      closes the gap between the end of the previous payload and the next
      recorded offset. Each is less than the alignment. */
  lemma PaddingsFill(sizes: seq<nat>, a: nat, writtenBytes: nat)
    requires a > 0
    ensures var pads := Paddings(sizes, a, writtenBytes);
      && |pads| == |sizes|
      && (forall k :: 0 <= k < |sizes| ==> pads[k] < a)
      && (|sizes| > 0 ==> Aligned(writtenBytes + pads[0], a))
      && forall k :: 1 <= k < |sizes| ==>
        Offsets(sizes, a)[k - 1] + sizes[k - 1] + pads[k] == Offsets(sizes, a)[k]
  {
    var pads, offs := Paddings(sizes, a, writtenBytes), Offsets(sizes, a);
    OffsetsRecurrence(sizes, a);
    if |sizes| > 0 {
      assert pads[0] == Pad(writtenBytes, a);
    }
    forall k | 1 <= k < |sizes|
      ensures pads[k] == Pad(offs[k - 1] + sizes[k - 1], a)
      ensures offs[k - 1] + sizes[k - 1] + pads[k] == offs[k]
    {
    }
  }

  /** What the cursor loop leaves behind: each tensor's recorded offset and
      the padding list that is written in front of each payload. */
  datatype Placement = Placement(offsets: seq<nat>, paddings: seq<nat>)

  /** One turn of the cursor loop: the offsets from `cursor` on are the
      cursor itself, then the offsets from the advanced cursor. */
  lemma OffsetsFromStep(cursor: nat, sizes: seq<nat>, k: nat, a: nat)
    requires a > 0 && k < |sizes|
    ensures OffsetsFrom(cursor, sizes[k..], a) ==
      [cursor] + OffsetsFrom(Advance(cursor, sizes[k], a), sizes[k + 1..], a)
  {
    assert sizes[k..][1..] == sizes[k + 1..];
  }

  /** The cursor loop proper: records the cursor as each payload's offset,
      advances it past the payload and its padding, and collects the
      paddings behind a leading 0. */
  method CursorLoop(sizes: seq<nat>, align: nat) returns (offsets: seq<nat>, paddings: seq<nat>)
    requires align > 0
    ensures offsets == Offsets(sizes, align)
    ensures |paddings| == |sizes| + 1 && paddings[0] == 0
    ensures forall j :: 1 <= j <= |sizes| ==> paddings[j] == Pad(offsets[j - 1] + sizes[j - 1], align)
  {
    var cursor: nat := 0;
    offsets := [];
    paddings := [0];
    var k := 0;
    while k < |sizes|
      invariant 0 <= k <= |sizes|
      invariant |offsets| == k && |paddings| == k + 1 && paddings[0] == 0
      invariant Offsets(sizes, align) == offsets + OffsetsFrom(cursor, sizes[k..], align)
      invariant forall j :: 1 <= j <= k ==> paddings[j] == Pad(offsets[j - 1] + sizes[j - 1], align)
    {
      OffsetsFromStep(cursor, sizes, k, align);
      ghost var start := cursor;
      offsets := offsets + [cursor];
      cursor := cursor + sizes[k];
      var padding := Pad(cursor, align);
      cursor := cursor + padding;
      assert cursor == Advance(start, sizes[k], align);
      paddings := paddings + [padding];
      k := k + 1;
    }
  }

  /** The placement step of the merge: the cursor loop, then the padding
      after the last payload is dropped and the first entry is replaced with
      the padding that aligns the end of the header region. A zero alignment
      fails (the padding computation divides by it, and that replacement
      computes a padding even when no tensor is placed); an empty tensor list
      fails because the first padding is then missing. */
  method AssignOffsets(sizes: seq<nat>, align: nat, writtenBytes: nat) returns (r: Result<Placement>)
    ensures r.Failure? <==> align == 0 || |sizes| == 0
    ensures align == 0 ==> r == Failure("alignment of zero")
    ensures r.Success? ==> r.value.offsets == Offsets(sizes, align)
    ensures r.Success? ==> |r.value.paddings| == |sizes|
    ensures r.Success? ==> r.value.paddings[0] == Pad(writtenBytes, align)
    ensures r.Success? ==> forall k :: 1 <= k < |sizes| ==>
      r.value.paddings[k] == Pad(r.value.offsets[k - 1] + sizes[k - 1], align)
    ensures r.Success? ==> r.value.paddings == Paddings(sizes, align, writtenBytes)
  {
    if align == 0 {
      return Failure("alignment of zero");
    }
    var offsets, paddings := CursorLoop(sizes, align);
    paddings := paddings[..|paddings| - 1];
    if |paddings| == 0 {
      return Failure("index out of bounds: no tensors to place");
    }
    paddings := paddings[0 := Pad(writtenBytes, align)];
    r := Success(Placement(offsets, paddings));
  }
}
