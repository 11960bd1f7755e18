/** The merge engine: folds N parsed shards into one container. Metadata is
    filtered and deduplicated, tensor-info records are united with their
    origin shard, the alignment is the largest any shard declares, offsets
    come from the cursor loop, and the data segment is padding plus payloads
    copied verbatim. */
module Merge {
  import opened Wrappers
  import opened Seqs
  import opened Gguf
  import opened Layout
  import opened Output

  /** Metadata entries that survive the merge: neither shard bookkeeping
      (`split.` keys) nor the per-shard alignment. */
  predicate Keep(kv: MetaKv) {
    !(SplitPrefix <= kv.key) && kv.key != AlignmentKey
  }

  /** The entries of `s` that are kept, in their original order. */
  function KeptEntries(s: seq<MetaKv>): (r: seq<MetaKv>)
    ensures forall kv :: kv in r <==> kv in s && Keep(kv)
  {
    if |s| == 0 then []
    else if Keep(s[0]) then [s[0]] + KeptEntries(s[1..])
    else KeptEntries(s[1..])
  }

  /** Filtering keeps the order of first appearance: of two kept entries,
      the one that appears first in the filtered list is the one that
      appears first in the original. */
  lemma {:induction false} KeptOrder(s: seq<MetaKv>)
    ensures var r := KeptEntries(s);
      forall x, y :: x in r && y in r ==>
        (FirstIndex(r, x) < FirstIndex(r, y) <==> FirstIndex(s, x) < FirstIndex(s, y))
  {
    if |s| > 0 {
      var h, t := s[0], s[1..];
      var k := KeptEntries(t);
      var r := KeptEntries(s);
      KeptOrder(t);
      forall x | x in r && x != h
        ensures x in k && x in t
        ensures FirstIndex(s, x) == FirstIndex(t, x) + 1
        ensures FirstIndex(r, x) == (if Keep(h) then FirstIndex(k, x) + 1 else FirstIndex(k, x))
      {
      }
    }
  }

  /** Every shard's metadata entries, shard after shard. */
  function AllEntries(shards: seq<Shard>): seq<MetaKv> {
    Flatten(seq(|shards|, i requires 0 <= i < |shards| => shards[i].kvs))
  }

  /** Every shard's tensor-info records, shard after shard. */
  function AllTensors(shards: seq<Shard>): seq<TensorInfo> {
    Flatten(seq(|shards|, i requires 0 <= i < |shards| => shards[i].tensors))
  }

  /** The merged metadata: every kept entry of every shard exactly once, in
      the order of first appearance scanning the shards in order. */
  function MergedKvs(shards: seq<Shard>): (r: seq<MetaKv>)
    ensures forall kv :: kv in r <==> Keep(kv) && exists i :: 0 <= i < |shards| && kv in shards[i].kvs
    ensures Distinct(r)
    ensures forall kv :: kv in r ==> kv in AllEntries(shards)
    ensures forall i, j :: 0 <= i < j < |r| ==>
      FirstIndex(AllEntries(shards), r[i]) < FirstIndex(AllEntries(shards), r[j])
  {
    var all := AllEntries(shards);
    var kept := KeptEntries(all);
    KeptOrder(all);
    var r := Dedup(kept);
    forall kv | Keep(kv) && exists i :: 0 <= i < |shards| && kv in shards[i].kvs
      ensures kv in all
    {
      var i :| 0 <= i < |shards| && kv in shards[i].kvs;
      var kvss := seq(|shards|, i requires 0 <= i < |shards| => shards[i].kvs);
      assert kv in kvss[i];
    }
    r
  }

  /** Each shard's tensor-info records paired with the shard's index, shard
      after shard. */
  function Tagged(shards: seq<Shard>): (r: seq<(TensorInfo, nat)>)
    ensures Keys(r) == AllTensors(shards)
    ensures forall p :: 0 <= p < |r| ==> r[p].1 < |shards| && r[p].0 in shards[r[p].1].tensors
    ensures forall p, q :: 0 <= p < q < |r| ==> r[p].1 <= r[q].1
  {
    if |shards| == 0 then []
    else
      var n := |shards| - 1;
      var ts := shards[n].tensors;
      var init := Tagged(shards[..n]);
      var tail := seq(|ts|, j requires 0 <= j < |ts| => (ts[j], n));
      var r := init + tail;
      assert Keys(tail) == ts;
      assert Keys(r) == Keys(init) + Keys(tail);
      var tss := seq(|shards|, i requires 0 <= i < |shards| => shards[i].tensors);
      assert tss[..n] == seq(n, i requires 0 <= i < n => shards[..n][i].tensors);
      assert AllTensors(shards) == Flatten(tss[..n]) + ts;
      r
  }

  /** Every record of every shard is tagged with that shard's index. */
  lemma {:induction false} TaggedComplete(shards: seq<Shard>, i: nat, t: TensorInfo)
    requires i < |shards| && t in shards[i].tensors
    ensures (t, i) in Tagged(shards)
  {
    var n := |shards| - 1;
    var ts := shards[n].tensors;
    var tail := seq(|ts|, j requires 0 <= j < |ts| => (ts[j], n));
    assert Tagged(shards) == Tagged(shards[..n]) + tail;
    if i == n {
      var j :| 0 <= j < |ts| && ts[j] == t;
      assert tail[j] == (t, i);
    } else {
      assert shards[..n][i] == shards[i];
      TaggedComplete(shards[..n], i, t);
    }
  }

  /** The last tagged record of a tensor comes from the last shard holding it. */
  lemma LastHolder(shards: seq<Shard>, t: TensorInfo, j: nat)
    requires t in Keys(Tagged(shards))
    requires Tagged(shards)[LastIndex(Keys(Tagged(shards)), t)].1 < j < |shards|
    ensures t !in shards[j].tensors
  {
    var pairs := Tagged(shards);
    var p := LastIndex(Keys(pairs), t);
    forall q | 0 <= q < |pairs| && pairs[q].0 == t
      ensures pairs[q].1 <= pairs[p].1
    {
      LastPairTag(pairs, t, q);
    }
    if t in shards[j].tensors {
      TaggedComplete(shards, j, t);
      assert false;
    }
  }

  /** The merged tensor list: each distinct tensor-info record once, in the
      order of first appearance, tagged with the LAST shard that holds it
      (collecting into an insertion-ordered map overwrites the value of a
      repeated key but keeps its position). */
  function MergedTensors(shards: seq<Shard>): (r: seq<(TensorInfo, nat)>)
    ensures Keys(r) == Dedup(AllTensors(shards))
    ensures forall k :: 0 <= k < |r| ==> r[k].1 < |shards| && r[k].0 in shards[r[k].1].tensors
    ensures forall k, j :: 0 <= k < |r| && r[k].1 < j < |shards| ==> r[k].0 !in shards[j].tensors
  {
    var pairs := Tagged(shards);
    var r := CollectMap(pairs);
    forall k | 0 <= k < |r|
      ensures r[k].1 < |shards| && r[k].0 in shards[r[k].1].tensors
      ensures forall j :: r[k].1 < j < |shards| ==> r[k].0 !in shards[j].tensors
    {
      var p := LastIndex(Keys(pairs), r[k].0);
      assert r[k] == pairs[p];
      forall j | r[k].1 < j < |shards|
        ensures r[k].0 !in shards[j].tensors
      {
        LastHolder(shards, r[k].0, j);
      }
    }
    r
  }

  /** The largest of a non-empty list of alignments. */
  function MaxAlignment(aligns: seq<nat>): (m: nat)
    requires |aligns| > 0
    ensures forall i :: 0 <= i < |aligns| ==> aligns[i] <= m
    ensures m in aligns
  {
    if |aligns| == 1 then aligns[0]
    else
      var m' := MaxAlignment(aligns[1..]);
      assert forall i :: 1 <= i < |aligns| ==> aligns[i] == aligns[1..][i - 1];
      if aligns[0] < m' then m' else aligns[0]
  }

  /** The global alignment: the largest alignment any shard declares. */
  function GlobalAlignment(shards: seq<Shard>): (a: nat)
    requires |shards| > 0
    ensures forall i :: 0 <= i < |shards| ==> shards[i].alignment <= a
    ensures exists i :: 0 <= i < |shards| && shards[i].alignment == a
  {
    var aligns := seq(|shards|, i requires 0 <= i < |shards| => shards[i].alignment);
    var a := MaxAlignment(aligns);
    assert forall i :: 0 <= i < |shards| ==> aligns[i] == shards[i].alignment;
    a
  }

  /** The tensor's payload lies inside its shard's data segment. */
  predicate InBounds(shard: Shard, t: TensorInfo) {
    t.offset + t.nbytes <= |shard.data|
  }

  /** The tensor's payload bytes in its shard. */
  function SourceBytes(shard: Shard, t: TensorInfo): (b: seq<Byte>)
    requires InBounds(shard, t)
    ensures |b| == t.nbytes
    ensures b == shard.data[t.offset..t.offset + t.nbytes]
  {
    shard.data[t.offset..][..t.nbytes]
  }

  /** Every merged tensor's payload can be sliced out of its origin shard. */
  predicate AllInBounds(shards: seq<Shard>, tensors: seq<(TensorInfo, nat)>) {
    forall k :: 0 <= k < |tensors| ==>
      tensors[k].1 < |shards| && InBounds(shards[tensors[k].1], tensors[k].0)
  }

  /** Each merged tensor's payload, sliced from its origin shard. */
  function Payloads(shards: seq<Shard>, tensors: seq<(TensorInfo, nat)>): (blobs: seq<seq<Byte>>)
    requires AllInBounds(shards, tensors)
    ensures |blobs| == |tensors|
    ensures forall k :: 0 <= k < |tensors| ==> blobs[k] == SourceBytes(shards[tensors[k].1], tensors[k].0)
  {
    seq(|tensors|, k requires 0 <= k < |tensors| => SourceBytes(shards[tensors[k].1], tensors[k].0))
  }

  /** Sliced payloads are as long as their records declare. */
  lemma PayloadsSized(shards: seq<Shard>, tensors: seq<(TensorInfo, nat)>)
    requires AllInBounds(shards, tensors)
    ensures Sized(Keys(tensors), Payloads(shards, tensors))
  {
    var blobs := Payloads(shards, tensors);
    forall k | 0 <= k < |tensors|
      ensures |blobs[k]| == Keys(tensors)[k].nbytes
    {
      assert blobs[k] == SourceBytes(shards[tensors[k].1], tensors[k].0);
    }
    SizedMeans(Keys(tensors), blobs);
  }

  /** The merge runs to completion on these shards: some shard declares a
      positive alignment, some tensor is there to place, and every payload can
      be sliced out of its origin shard. */
  predicate Mergeable(shards: seq<Shard>) {
    && |shards| > 0
    && GlobalAlignment(shards) > 0
    && |MergedTensors(shards)| > 0
    && AllInBounds(shards, MergedTensors(shards))
  }

  /** The merge command on parsed shards. Fewer than two shards is a no-op; a
      zero alignment, an empty tensor list (the first padding is then missing)
      or a payload outside its shard aborts the merge. `writtenBytes` is the
      length of the header region when the data segment begins. */
  function Merge(shards: seq<Shard>, writtenBytes: nat): (r: Result<MergeOutcome>)
    ensures |shards| < 2 <==> r == Success(NothingToMerge)
    ensures r.Success? && r.value.Merged? ==> r.value.file.header.tensorCount > 0
  {
    if |shards| < 2 then Success(NothingToMerge)
    else
      var align := GlobalAlignment(shards);
      var tensors := MergedTensors(shards);
      if align == 0 then Failure("alignment of zero")
      else if |tensors| == 0 then Failure("index out of bounds: no tensors to place")
      else if !AllInBounds(shards, tensors) then Failure("range out of bounds: tensor data outside its shard")
      else
        PayloadsSized(shards, tensors);
        Success(Merged(Write(MergedKvs(shards), Keys(tensors), align, Payloads(shards, tensors), writtenBytes)))
  }

  /** A merge of at least two shards runs to completion exactly on mergeable
      shards, and the file it produces is the one written from the largest
      shard alignment, the merged metadata, the merged tensor-info records
      and their payloads sliced from the last shard holding each. */
  lemma MergeWrites(shards: seq<Shard>, writtenBytes: nat)
    requires |shards| >= 2
    ensures Merge(shards, writtenBytes).Success? && Merge(shards, writtenBytes).value.Merged? <==> Mergeable(shards)
    ensures Mergeable(shards) ==>
      var ts := MergedTensors(shards);
      && Sized(Keys(ts), Payloads(shards, ts))
      && Merge(shards, writtenBytes).value.file == Write(MergedKvs(shards), Keys(ts), GlobalAlignment(shards), Payloads(shards, ts), writtenBytes)
  {
    if Mergeable(shards) {
      PayloadsSized(shards, MergedTensors(shards));
    }
  }

  /** Shard `i` is the last shard whose tensor list holds `t`. */
  predicate LastHolderOf(shards: seq<Shard>, i: int, t: TensorInfo) {
    && 0 <= i < |shards|
    && t in shards[i].tensors
    && forall j :: i < j < |shards| ==> t !in shards[j].tensors
  }

  /** The global alignment is zero exactly when every shard declares zero. */
  lemma AlignmentZero(shards: seq<Shard>)
    requires |shards| > 0
    ensures GlobalAlignment(shards) == 0 <==> forall i :: 0 <= i < |shards| ==> shards[i].alignment == 0
  {
  }

  /** Every record some shard holds is among the merged records. */
  lemma HeldIsMerged(shards: seq<Shard>, i: nat, t: TensorInfo)
    requires i < |shards| && t in shards[i].tensors
    ensures t in Keys(MergedTensors(shards))
  {
    var tss := seq(|shards|, i requires 0 <= i < |shards| => shards[i].tensors);
    assert t in tss[i];
    assert t in AllTensors(shards);
  }

  /** No tensor is merged exactly when no shard holds one. */
  lemma NoTensors(shards: seq<Shard>)
    ensures |MergedTensors(shards)| == 0 <==> forall i :: 0 <= i < |shards| ==> |shards[i].tensors| == 0
  {
    var ts := MergedTensors(shards);
    if |ts| == 0 {
      forall i | 0 <= i < |shards|
        ensures |shards[i].tensors| == 0
      {
        if |shards[i].tensors| > 0 {
          HeldIsMerged(shards, i, shards[i].tensors[0]);
          assert false;
        }
      }
    } else {
      assert ts[0].0 in shards[ts[0].1].tensors;
    }
  }

  /** The merged record of a tensor is tagged with the last shard holding it. */
  lemma OriginIsLastHolder(shards: seq<Shard>, i: nat, t: TensorInfo)
    requires LastHolderOf(shards, i, t)
    ensures exists k :: 0 <= k < |MergedTensors(shards)| && MergedTensors(shards)[k] == (t, i)
  {
    var ts := MergedTensors(shards);
    HeldIsMerged(shards, i, t);
    var k :| 0 <= k < |ts| && ts[k].0 == t;
    if ts[k].1 < i {
      assert false;
    }
    assert ts[k].1 <= i;
    assert ts[k] == (t, i);
  }

  /** Some merged payload lies outside its origin shard exactly when some
      tensor-info record lies outside the data of the last shard holding it. */
  lemma OutOfBounds(shards: seq<Shard>)
    ensures !AllInBounds(shards, MergedTensors(shards)) <==>
      exists i, t :: LastHolderOf(shards, i, t) && !InBounds(shards[i], t)
  {
    var ts := MergedTensors(shards);
    if !AllInBounds(shards, ts) {
      var k :| 0 <= k < |ts| && !InBounds(shards[ts[k].1], ts[k].0);
      assert LastHolderOf(shards, ts[k].1, ts[k].0);
    }
    if exists i, t :: LastHolderOf(shards, i, t) && !InBounds(shards[i], t) {
      var i, t :| LastHolderOf(shards, i, t) && !InBounds(shards[i], t);
      OriginIsLastHolder(shards, i, t);
    }
  }

  /** A merge of at least two shards fails exactly when every shard declares
      alignment zero, or no shard holds a tensor, or some tensor's payload
      lies outside the data of the last shard holding it. */
  lemma MergeFails(shards: seq<Shard>, writtenBytes: nat)
    requires |shards| >= 2
    ensures Merge(shards, writtenBytes).Failure? <==>
      || (forall i :: 0 <= i < |shards| ==> shards[i].alignment == 0)
      || (forall i :: 0 <= i < |shards| ==> |shards[i].tensors| == 0)
      || (exists i, t :: LastHolderOf(shards, i, t) && !InBounds(shards[i], t))
  {
    AlignmentZero(shards);
    NoTensors(shards);
    OutOfBounds(shards);
  }

  /** Written from payloads sliced out of the shards, record `k`'s payload
      in the data segment is the bytes it addresses in its origin shard. */
  lemma SlicedPayload(shards: seq<Shard>, kvs: seq<MetaKv>, tensors: seq<(TensorInfo, nat)>, align: nat, writtenBytes: nat, k: nat)
    requires align > 0 && AllInBounds(shards, tensors) && k < |tensors|
    ensures Sized(Keys(tensors), Payloads(shards, tensors))
    ensures var f := Write(kvs, Keys(tensors), align, Payloads(shards, tensors), writtenBytes);
      var t, i := tensors[k].0, tensors[k].1;
      var start := Pad(writtenBytes, align) + f.tensors[k].offset;
      && start + f.tensors[k].nbytes <= |f.data|
      && f.data[start..start + f.tensors[k].nbytes] == shards[i].data[t.offset..t.offset + t.nbytes]
  {
    var blobs := Payloads(shards, tensors);
    PayloadsSized(shards, tensors);
    WritePayload(kvs, Keys(tensors), align, blobs, writtenBytes, k);
    assert blobs[k] == SourceBytes(shards[tensors[k].1], tensors[k].0);
  }

  /** A completed merge ran on mergeable shards and wrote the file built from
      their merged metadata, merged records, largest alignment and sliced
      payloads. */
  lemma MergedFileOf(shards: seq<Shard>, writtenBytes: nat, f: MergedFile)
    requires Merge(shards, writtenBytes) == Success(Merged(f))
    ensures Mergeable(shards)
    ensures var ts := MergedTensors(shards);
      && Sized(Keys(ts), Payloads(shards, ts))
      && f == Write(MergedKvs(shards), Keys(ts), GlobalAlignment(shards), Payloads(shards, ts), writtenBytes)
  {
    MergeWrites(shards, writtenBytes);
  }

  /** In a file written from records and payloads sliced from their origin
      shards, record `k` is its origin's record with only the offset changed,
      and its payload is the bytes that record addresses there. */
  lemma WrittenRecord(shards: seq<Shard>, kvs: seq<MetaKv>, ts: seq<(TensorInfo, nat)>, align: nat, writtenBytes: nat, k: nat)
    requires align > 0 && AllInBounds(shards, ts) && k < |ts|
    ensures Sized(Keys(ts), Payloads(shards, ts))
    ensures var f := Write(kvs, Keys(ts), align, Payloads(shards, ts), writtenBytes);
      f.tensors[k] == ts[k].0.(offset := f.tensors[k].offset)
  {
    PayloadsSized(shards, ts);
    WriteTensorInfos(kvs, Keys(ts), align, Payloads(shards, ts), writtenBytes);
    assert Keys(ts)[k] == ts[k].0;
  }

  /** Record `k` of `f` is record `t` of shard `i`, the last shard holding
      it, moved to a new offset; and its payload in the data segment, at the
      padding that aligns the header region's end plus its new offset, is
      the bytes `t` addresses in that shard. */
  predicate CopiedFrom(shards: seq<Shard>, f: MergedFile, align: nat, writtenBytes: nat, k: nat, i: nat, t: TensorInfo)
    requires align > 0 && k < |f.tensors|
  {
    var start := Pad(writtenBytes, align) + f.tensors[k].offset;
    && LastHolderOf(shards, i, t) && InBounds(shards[i], t)
    && f.tensors[k] == t.(offset := f.tensors[k].offset)
    && start + t.nbytes <= |f.data|
    && f.data[start..start + t.nbytes] == shards[i].data[t.offset..t.offset + t.nbytes]
  }

  /** Written from records and payloads sliced from their origin shards,
      record `k` is copied from its origin when that is the last shard
      holding it. */
  lemma CopiedRecord(shards: seq<Shard>, kvs: seq<MetaKv>, ts: seq<(TensorInfo, nat)>, align: nat, writtenBytes: nat, k: nat)
    requires align > 0 && AllInBounds(shards, ts) && k < |ts|
    requires LastHolderOf(shards, ts[k].1, ts[k].0)
    ensures Sized(Keys(ts), Payloads(shards, ts))
    ensures CopiedFrom(shards, Write(kvs, Keys(ts), align, Payloads(shards, ts), writtenBytes), align, writtenBytes, k, ts[k].1, ts[k].0)
  {
    WrittenRecord(shards, kvs, ts, align, writtenBytes, k);
    SlicedPayload(shards, kvs, ts, align, writtenBytes, k);
  }

  /** In the file a completed merge writes, record `k` is a record of the
      last shard holding it, with only its offset changed, and its payload,
      at the leading padding plus its recorded offset, is the bytes that
      record addresses in that shard. */
  lemma MergedPayload(shards: seq<Shard>, writtenBytes: nat, f: MergedFile, k: nat)
    requires Merge(shards, writtenBytes) == Success(Merged(f)) && k < |f.tensors|
    ensures Mergeable(shards)
    ensures exists i: nat, t: TensorInfo :: CopiedFrom(shards, f, GlobalAlignment(shards), writtenBytes, k, i, t)
  {
    MergedFileOf(shards, writtenBytes, f);
    var ts := MergedTensors(shards);
    assert LastHolderOf(shards, ts[k].1, ts[k].0);
    CopiedRecord(shards, MergedKvs(shards), ts, GlobalAlignment(shards), writtenBytes, k);
  }
}
