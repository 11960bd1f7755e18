/** The data segment the merge streams out: for each payload in turn, its
    padding as zero bytes, then the payload bytes verbatim. */
module Emit {
  import opened Gguf

  /** `n` zero bytes. */
  function Zeros(n: nat): (z: seq<Byte>)
    ensures |z| == n
    ensures forall i :: 0 <= i < n ==> z[i] == 0
  {
    seq(n, _ => 0)
  }

  /** The stream written for `blobs`, payload `k` preceded by `pads[k]` zero bytes. */
  function Interleave(pads: seq<nat>, blobs: seq<seq<Byte>>): seq<Byte>
    requires |pads| == |blobs|
  {
    if |pads| == 0 then []
    else
      var n := |pads| - 1;
      Interleave(pads[..n], blobs[..n]) + Zeros(pads[n]) + blobs[n]
  }

  /** The stream position at which payload `k` begins. */
  function Start(pads: seq<nat>, blobs: seq<seq<Byte>>, k: nat): nat
    requires |pads| == |blobs| && k < |pads|
  {
    if k == 0 then pads[0]
    else Start(pads, blobs, k - 1) + |blobs[k - 1]| + pads[k]
  }

  /** Some payload covers stream position `q`. */
  predicate InPayload(pads: seq<nat>, blobs: seq<seq<Byte>>, q: nat)
    requires |pads| == |blobs|
  {
    exists k :: 0 <= k < |pads| && Start(pads, blobs, k) <= q < Start(pads, blobs, k) + |blobs[k]|
  }

  /** Payload positions depend only on the payloads before them. */
  lemma {:induction false} StartPrefix(pads: seq<nat>, blobs: seq<seq<Byte>>, m: nat, k: nat)
    requires |pads| == |blobs| && k < m <= |pads|
    ensures Start(pads[..m], blobs[..m], k) == Start(pads, blobs, k)
  {
    if k > 0 {
      StartPrefix(pads, blobs, m, k - 1);
    }
  }

  /** The stream of the first `m` payloads ends `pads[m]` bytes before payload `m` begins. */
  lemma {:induction false} PrefixEnd(pads: seq<nat>, blobs: seq<seq<Byte>>, m: nat)
    requires |pads| == |blobs| && m < |pads|
    ensures |Interleave(pads[..m], blobs[..m])| + pads[m] == Start(pads, blobs, m)
  {
    if m > 0 {
      PrefixEnd(pads, blobs, m - 1);
      assert pads[..m][..m - 1] == pads[..m - 1];
      assert blobs[..m][..m - 1] == blobs[..m - 1];
    }
  }

  /** The stream of the first `m` payloads is a prefix of the whole stream. */
  lemma {:induction false} InterleavePrefix(pads: seq<nat>, blobs: seq<seq<Byte>>, m: nat)
    requires |pads| == |blobs| && m <= |pads|
    ensures Interleave(pads[..m], blobs[..m]) <= Interleave(pads, blobs)
    decreases |pads| - m
  {
    if m < |pads| {
      var n := |pads| - 1;
      assert pads[..n + 1] == pads && blobs[..n + 1] == blobs;
      if m < n {
        InterleavePrefix(pads[..n], blobs[..n], m);
        assert pads[..n][..m] == pads[..m] && blobs[..n][..m] == blobs[..m];
      } else {
        assert pads == pads[..n] + [pads[n]];
      }
    } else {
      assert pads[..m] == pads && blobs[..m] == blobs;
    }
  }

  /** The stream is exactly as long as the end of its last payload. */
  lemma InterleaveLength(pads: seq<nat>, blobs: seq<seq<Byte>>)
    requires |pads| == |blobs| && |pads| > 0
    ensures var n := |pads| - 1;
      |Interleave(pads, blobs)| == Start(pads, blobs, n) + |blobs[n]|
  {
    PrefixEnd(pads, blobs, |pads| - 1);
  }

  /** Payload `k` appears verbatim at its start position. */
  lemma InterleavePayload(pads: seq<nat>, blobs: seq<seq<Byte>>, k: nat)
    requires |pads| == |blobs| && k < |pads|
    ensures var s := Interleave(pads, blobs);
      && Start(pads, blobs, k) + |blobs[k]| <= |s|
      && s[Start(pads, blobs, k)..Start(pads, blobs, k) + |blobs[k]|] == blobs[k]
  {
    var p, b := pads[..k + 1], blobs[..k + 1];
    assert p[..k] == pads[..k] && b[..k] == blobs[..k];
    PrefixEnd(pads, blobs, k);
    InterleavePrefix(pads, blobs, k + 1);
    var pre := Interleave(p, b);
    assert pre == Interleave(pads[..k], blobs[..k]) + Zeros(pads[k]) + blobs[k];
    var s := Interleave(pads, blobs);
    var st := Start(pads, blobs, k);
    assert pre[st..st + |blobs[k]|] == blobs[k];
    assert s[st..st + |blobs[k]|] == pre[st..st + |blobs[k]|];
  }

  /** One stream byte outside all payloads is zero. */
  lemma {:induction false} PaddingByteZero(pads: seq<nat>, blobs: seq<seq<Byte>>, q: nat)
    requires |pads| == |blobs|
    requires q < |Interleave(pads, blobs)| && !InPayload(pads, blobs, q)
    ensures Interleave(pads, blobs)[q] == 0
  {
    var n := |pads| - 1;
    var p, b := pads[..n], blobs[..n];
    var pre := Interleave(p, b);
    var s := Interleave(pads, blobs);
    assert s == pre + Zeros(pads[n]) + blobs[n];
    PrefixEnd(pads, blobs, n);
    if q < |pre| {
      forall k | 0 <= k < n
        ensures Start(p, b, k) == Start(pads, blobs, k) && b[k] == blobs[k]
      {
        StartPrefix(pads, blobs, n, k);
      }
      assert !InPayload(p, b, q);
      PaddingByteZero(p, b, q);
    } else {
      assert q < Start(pads, blobs, n);
    }
  }

  /** Every stream byte outside all payloads is a padding byte, and zero. */
  lemma InterleavePadding(pads: seq<nat>, blobs: seq<seq<Byte>>)
    requires |pads| == |blobs|
    ensures var s := Interleave(pads, blobs);
      forall q :: 0 <= q < |s| && !InPayload(pads, blobs, q) ==> s[q] == 0
  {
    forall q | 0 <= q < |Interleave(pads, blobs)| && !InPayload(pads, blobs, q)
      ensures Interleave(pads, blobs)[q] == 0
    {
      PaddingByteZero(pads, blobs, q);
    }
  }
}
