/** Writing the merged container from its parts: the header counts, the
    alignment entry ahead of the metadata entries, the tensor-info records
    with the offsets of the cursor loop, and the data segment of zero padding
    and verbatim payloads. */
module Output {
  import opened Gguf
  import opened Layout
  import opened Emit
  import opened Segment

  /** The payload lengths the tensor-info records declare, in order. */
  function Sizes(tensors: seq<TensorInfo>): (sizes: seq<nat>)
    ensures |sizes| == |tensors|
    ensures forall k :: 0 <= k < |tensors| ==> sizes[k] == tensors[k].nbytes
  {
    seq(|tensors|, k requires 0 <= k < |tensors| => tensors[k].nbytes)
  }

  /** Each payload is exactly as long as its record declares. */
  predicate Sized(tensors: seq<TensorInfo>, blobs: seq<seq<Byte>>) {
    Lengths(blobs) == Sizes(tensors)
  }

  /** Sized payloads pair up with the records, lengths matching one by one. */
  lemma SizedMeans(tensors: seq<TensorInfo>, blobs: seq<seq<Byte>>)
    ensures Sized(tensors, blobs) <==>
      |blobs| == |tensors| && forall k :: 0 <= k < |tensors| ==> |blobs[k]| == tensors[k].nbytes
  {
    if |blobs| == |tensors| && forall k :: 0 <= k < |tensors| ==> |blobs[k]| == tensors[k].nbytes {
      assert forall k :: 0 <= k < |tensors| ==> Lengths(blobs)[k] == Sizes(tensors)[k];
    }
  }

  /** The tensor-info records as written: each record with its offset
      replaced by the one the cursor loop assigned. */
  function PlacedInfos(tensors: seq<TensorInfo>, offsets: seq<nat>): (infos: seq<TensorInfo>)
    requires |offsets| == |tensors|
    ensures |infos| == |tensors|
    ensures forall k :: 0 <= k < |tensors| ==> infos[k] == tensors[k].(offset := offsets[k])
  {
    seq(|tensors|, k requires 0 <= k < |tensors| => tensors[k].(offset := offsets[k]))
  }

  /** The metadata records as written: the alignment entry first, then the
      entries in order. */
  function Records(align: nat, kvs: seq<MetaKv>): (rs: seq<KvRecord>)
    ensures |rs| == |kvs| + 1 && rs[0] == AlignmentRecord(align)
    ensures forall k :: 0 <= k < |kvs| ==> rs[k + 1] == EntryRecord(kvs[k])
  {
    [AlignmentRecord(align)] + seq(|kvs|, k requires 0 <= k < |kvs| => EntryRecord(kvs[k]))
  }

  /** The container written from merged metadata `kvs`, merged records
      `tensors` with payloads `blobs`, and alignment `align`. `writtenBytes`
      is the length of the header region (header, metadata and tensor-info
      records) the container writer has produced when the data segment
      begins. */
  function Write(kvs: seq<MetaKv>, tensors: seq<TensorInfo>, align: nat, blobs: seq<seq<Byte>>, writtenBytes: nat): (f: MergedFile)
    requires align > 0 && Sized(tensors, blobs)
    ensures |f.tensors| == |tensors| && |f.kvs| == |kvs| + 1
    ensures f.header.tensorCount == |f.tensors| && f.header.kvCount == |f.kvs|
  {
    var offsets := Offsets(Sizes(tensors), align);
    MergedFile(Header(Version, |tensors|, |kvs| + 1), Records(align, kvs),
               PlacedInfos(tensors, offsets), DataStream(align, writtenBytes, blobs))
  }

  /** The header declares version 3 and counts the records actually written:
      the tensors, and the metadata entries plus the alignment entry; the
      alignment entry is first and the entries follow in order. */
  lemma WriteHeader(kvs: seq<MetaKv>, tensors: seq<TensorInfo>, align: nat, blobs: seq<seq<Byte>>, writtenBytes: nat)
    requires align > 0 && Sized(tensors, blobs)
    ensures var f := Write(kvs, tensors, align, blobs, writtenBytes);
      && f.header.version == 3
      && f.header.tensorCount == |f.tensors| == |tensors|
      && f.header.kvCount == |f.kvs| == |kvs| + 1
      && f.kvs[0] == AlignmentRecord(align)
      && forall k :: 0 <= k < |kvs| ==> f.kvs[k + 1] == EntryRecord(kvs[k])
  {
  }

  /** The tensor-info records keep name, shape, type and size, in order; only
      the offset is the one the cursor loop assigned. */
  lemma WriteTensorInfos(kvs: seq<MetaKv>, tensors: seq<TensorInfo>, align: nat, blobs: seq<seq<Byte>>, writtenBytes: nat)
    requires align > 0 && Sized(tensors, blobs)
    ensures var f := Write(kvs, tensors, align, blobs, writtenBytes);
      forall k :: 0 <= k < |tensors| ==>
        && f.tensors[k].name == tensors[k].name
        && f.tensors[k].shape == tensors[k].shape
        && f.tensors[k].ggmlType == tensors[k].ggmlType
        && f.tensors[k].nbytes == tensors[k].nbytes
        && f.tensors[k].offset == Offsets(Sizes(tensors), align)[k]
  {
  }

  /** The recorded offsets start at 0, each next one is the end of the
      previous payload rounded up to the alignment, all are multiples of the
      alignment, and no two payload ranges overlap. */
  lemma WriteOffsets(kvs: seq<MetaKv>, tensors: seq<TensorInfo>, align: nat, blobs: seq<seq<Byte>>, writtenBytes: nat)
    requires align > 0 && Sized(tensors, blobs) && |tensors| > 0
    ensures var ts := Write(kvs, tensors, align, blobs, writtenBytes).tensors;
      && ts[0].offset == 0
      && (forall k :: 0 <= k < |ts| - 1 ==>
            ts[k + 1].offset == ts[k].offset + ts[k].nbytes + Pad(ts[k].offset + ts[k].nbytes, align))
      && (forall k :: 0 <= k < |ts| ==> Aligned(ts[k].offset, align))
      && forall j, k :: 0 <= j < |ts| && 0 <= k < |ts| && j != k ==>
            || ts[j].offset + ts[j].nbytes <= ts[k].offset
            || ts[k].offset + ts[k].nbytes <= ts[j].offset
  {
    var sizes := Sizes(tensors);
    OffsetsRecurrence(sizes, align);
    OffsetsAligned(sizes, align);
    OffsetsDisjoint(sizes, align);
  }

  /** Payload `k` sits in the data segment at the leading padding plus its
      recorded offset, byte for byte. */
  lemma WritePayload(kvs: seq<MetaKv>, tensors: seq<TensorInfo>, align: nat, blobs: seq<seq<Byte>>, writtenBytes: nat, k: nat)
    requires align > 0 && Sized(tensors, blobs) && k < |tensors|
    ensures var f := Write(kvs, tensors, align, blobs, writtenBytes);
      var start := Pad(writtenBytes, align) + f.tensors[k].offset;
      && start + f.tensors[k].nbytes <= |f.data|
      && f.data[start..start + f.tensors[k].nbytes] == blobs[k]
  {
    StreamPayload(align, writtenBytes, blobs, k);
  }

  /** The data segment begins at the first multiple of the alignment at or
      after the header region, and every payload sits at that point plus its
      recorded offset, byte for byte. */
  lemma WritePayloads(kvs: seq<MetaKv>, tensors: seq<TensorInfo>, align: nat, blobs: seq<seq<Byte>>, writtenBytes: nat)
    requires align > 0 && Sized(tensors, blobs)
    ensures Aligned(writtenBytes + Pad(writtenBytes, align), align)
    ensures var f := Write(kvs, tensors, align, blobs, writtenBytes);
      var lead := Pad(writtenBytes, align);
      forall k :: 0 <= k < |tensors| ==>
        && lead + f.tensors[k].offset + f.tensors[k].nbytes <= |f.data|
        && f.data[lead + f.tensors[k].offset..lead + f.tensors[k].offset + f.tensors[k].nbytes] == blobs[k]
  {
    forall k | 0 <= k < |tensors|
      ensures var f := Write(kvs, tensors, align, blobs, writtenBytes);
        var lead := Pad(writtenBytes, align);
        && lead + f.tensors[k].offset + f.tensors[k].nbytes <= |f.data|
        && f.data[lead + f.tensors[k].offset..lead + f.tensors[k].offset + f.tensors[k].nbytes] == blobs[k]
    {
      WritePayload(kvs, tensors, align, blobs, writtenBytes, k);
    }
  }

  /** Every data byte outside all payload ranges is padding, and zero. */
  lemma WritePaddingZero(kvs: seq<MetaKv>, tensors: seq<TensorInfo>, align: nat, blobs: seq<seq<Byte>>, writtenBytes: nat)
    requires align > 0 && Sized(tensors, blobs)
    ensures var f := Write(kvs, tensors, align, blobs, writtenBytes);
      var lead := Pad(writtenBytes, align);
      forall q :: 0 <= q < |f.data| &&
        (forall k :: 0 <= k < |f.tensors| ==>
           !(lead + f.tensors[k].offset <= q < lead + f.tensors[k].offset + f.tensors[k].nbytes))
        ==> f.data[q] == 0
  {
    StreamPadding(align, writtenBytes, blobs);
  }

  /** The data segment ends exactly where the last payload ends: no padding
      follows it. */
  lemma WriteLength(kvs: seq<MetaKv>, tensors: seq<TensorInfo>, align: nat, blobs: seq<seq<Byte>>, writtenBytes: nat)
    requires align > 0 && Sized(tensors, blobs) && |tensors| > 0
    ensures var f := Write(kvs, tensors, align, blobs, writtenBytes);
      var n := |f.tensors| - 1;
      |f.data| == Pad(writtenBytes, align) + f.tensors[n].offset + f.tensors[n].nbytes
  {
    StreamLength(align, writtenBytes, blobs);
  }
}
