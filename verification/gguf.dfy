/** Values the merge engine consumes and produces. A shard is what the
    container parser hands over: its metadata entries, its tensor-info records,
    its declared alignment and its data segment. */
module Gguf {

  /** An octet of a shard's or of the merged file's data segment. */
  type Byte = bv8

  /** One metadata entry. Two entries are the same entry when key, value type
      tag and encoded value bytes all agree. */
  datatype MetaKv = MetaKv(key: string, ty: nat, value: seq<Byte>)

  /** One tensor-info record: name, shape, element type tag, byte offset into
      its file's data segment, and the payload length implied by shape and type. */
  datatype TensorInfo = TensorInfo(name: string, shape: seq<nat>, ggmlType: nat, offset: nat, nbytes: nat)

  /** A parsed shard. */
  datatype Shard = Shard(kvs: seq<MetaKv>, tensors: seq<TensorInfo>, alignment: nat, data: seq<Byte>)

  /** The container header: format version, tensor count, metadata-entry count. */
  datatype Header = Header(version: nat, tensorCount: nat, kvCount: nat)

  /** A metadata record as written: the alignment entry is written by its own
      writer call, the others are copied entry by entry. */
  datatype KvRecord = AlignmentRecord(alignment: nat) | EntryRecord(kv: MetaKv)

  /** The merged container: header, metadata records, tensor-info records with
      their recorded offsets, and every byte written after the header region
      (leading padding, then payloads separated by padding). */
  datatype MergedFile = MergedFile(header: Header, kvs: seq<KvRecord>, tensors: seq<TensorInfo>, data: seq<Byte>)

  /** What one run of the merge command produces. */
  datatype MergeOutcome = NothingToMerge | Merged(file: MergedFile)

  /** The format version the merged header declares. */
  const Version: nat := 3

  /** The metadata key under which the alignment is stored. */
  const AlignmentKey: string := "general.alignment"

  /** The key prefix reserved for shard bookkeeping. */
  const SplitPrefix: string := "split."
}
