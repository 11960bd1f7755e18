# Shard merge and convert step list of the GGUF model tool

This project models two parts of the repository's `xtask` command-line tool,
and proves properties of the model in Dafny.

- **`merge`** takes the shards of a model split into several GGUF files and
  writes one file. It:
  - keeps the metadata entries that are neither shard bookkeeping (`split.`
    keys) nor the per-shard alignment (`general.alignment`), each once;
  - unites the tensor-info records, each once, remembering the last shard
    that holds each one;
  - takes the largest shard alignment;
  - writes the header (version 3, the tensor count, and the metadata count
    plus one);
  - writes the alignment entry, then the metadata entries;
  - writes the tensor-info records with offsets assigned by a running cursor;
  - writes the data segment: zero padding, then each payload copied
    verbatim from its shard.
- **`convert --steps`** splits its step list on `->`, trims each piece, and
  maps it to an operator. An unknown piece aborts with
  `Unsupported operation: <piece>`.

Modules, each in its own file:

- `Wrappers`: `Option` and `Result`. A Rust panic on the modelled paths
  becomes a `Failure`.
- `Seqs`: first and last occurrence, and deduplication in order of first
  appearance (`IndexSet`). Also the insertion-ordered map (`IndexMap`): an
  insert into it, and collecting a list of pairs into it.
- `Strings`: `str::trim` (Unicode `White_Space`), `str::split` with a
  string pattern, and `str::split_once` at a character.
- `Gguf`: shards, metadata entries, tensor-info records, and the merged
  file.
- `Layout`: the padding, the offsets the cursor assigns, the cursor loop
  itself, and the placement step that follows it.
- `Emit`: a stream of zero paddings and payloads, one after the other.
- `Segment`: the data segment, in terms of payload sizes and offsets.
- `Output`: the merged file written from merged metadata, merged records,
  payloads and an alignment.
- `Merge`: the merge engine on parsed shards.
- `Convert`: the step-list parser.

In these places the code's behaviour may be unexpected; the model follows
the code:

- Metadata is deduplicated on whole entries (key, type and value), because
  the `IndexSet` compares entries. Two shards that carry the same key with
  different values both keep their entry. This assumes that the entry
  type's equality compares key, type and value. That type is not part of
  this model.
- Recorded tensor offsets are relative to the start of the data segment.
  The first one is 0.
- A tensor-info record held by several shards takes its payload from the
  LAST such shard. Collecting into the `IndexMap` overwrites the value of
  a repeated key but keeps its position. This assumes that two records are
  the same key only when all their fields agree (name, shape, type, offset
  and size). The record type is not part of this model either. If records
  compared by name alone, the first record's offset would be used to slice
  the last holder's data on line 113.
- A zero overall alignment, or shards without any tensor, make the merge
  panic. Zero alignment is taken to panic because the padding is assumed
  to divide by the alignment (see `Layout.Pad` under "Left out"). No
  tensors panics because `paddings[0]` is assigned after
  the only element was popped. The merge also fails when a payload range
  lies outside its shard's data, as the slice on line 113 does.

## Model

| member | source | states |
|---|---|---|
| Merge.KeptEntries | xtask/src/merge.rs:53-56 | an entry survives the filter exactly when it occurs in the input and its key neither starts with `split.` nor equals `general.alignment` |
| Merge.KeptOrder | xtask/src/merge.rs:50-57 | filtering preserves the order of first appearance: of two kept entries, the one first in the filtered list is the one first in the input |
| Seqs.Dedup | xtask/src/merge.rs:57 | collecting into an insertion-ordered set holds exactly the input's elements, each once, ordered by their first appearance in the input |
| Merge.MergedKvs | xtask/src/merge.rs:50-57 | the merged metadata holds exactly the entries some shard carries and the filter keeps, each once, ordered by first appearance scanning the shards in order |
| Seqs.Upsert | xtask/src/merge.rs:62 | an insertion-ordered map insert appends a new key, and gives an existing key the new value at its old position. All other entries are unchanged |
| Seqs.CollectMap | xtask/src/merge.rs:58-62 | collecting pairs into an insertion-ordered map yields each key once in first-appearance order, bound to the value of the key's LAST pair |
| Merge.Tagged | xtask/src/merge.rs:58-61 | the enumerated records are all shards' records shard after shard. Each is paired with the index of a shard that holds it, and the indices never decrease |
| Merge.TaggedComplete | xtask/src/merge.rs:58-61 | every record of shard `i` appears paired with `i` |
| Merge.LastHolder | xtask/src/merge.rs:58-62 | no shard after the one on a record's last pair holds that record |
| Merge.MergedTensors | xtask/src/merge.rs:58-62 | the merged records are the distinct records of all shards in first-appearance order. Each is tagged with a shard that holds it, and no later shard holds it |
| Merge.HeldIsMerged | xtask/src/merge.rs:58-62 | every record some shard holds is among the merged records |
| Merge.OriginIsLastHolder | xtask/src/merge.rs:58-62 | the merged entry of a record is tagged with the last shard holding it |
| Merge.NoTensors | xtask/src/merge.rs:58-62 | the merged record list is empty exactly when no shard holds a record |
| Merge.MaxAlignment | xtask/src/merge.rs:75-76 | the maximum of a non-empty list is at least every element and is one of them |
| Merge.GlobalAlignment | xtask/src/merge.rs:72-76 | the merged alignment is at least every shard's alignment and is some shard's alignment |
| Merge.AlignmentZero | xtask/src/merge.rs:72-76 | the merged alignment is zero exactly when every shard declares zero |
| Layout.Pad | xtask/src/merge.rs:99 | the padding is below the alignment, makes the position aligned, and is the least such (no aligned position is skipped) |
| Layout.Advance | xtask/src/merge.rs:98-101 | the advanced cursor is past the payload, by less than one alignment unit, and aligned |
| Layout.OffsetsRecurrence | xtask/src/merge.rs:89-103 | the first offset is 0. Each next one is the previous offset plus its payload size plus the padding that realigns that end |
| Layout.OffsetsAligned | xtask/src/merge.rs:98-101 | every assigned offset is a multiple of the alignment |
| Layout.OffsetsOrdered | xtask/src/merge.rs:93-103 | a payload ends no later than any later payload begins |
| Layout.OffsetsDisjoint | xtask/src/merge.rs:93-103 | offsets never decrease, and no two payload byte ranges overlap |
| Layout.CursorLoop | xtask/src/merge.rs:89-103 | the loop records for each tensor the offset of the recursive definition. Its padding list is a leading 0, then the padding that realigns the end of each payload |
| Layout.AssignOffsets | xtask/src/merge.rs:89-106 | placement fails exactly when the alignment is zero or there is no tensor. Otherwise there is one padding per tensor: the first aligns the end of the header region, the `k`-th realigns the end of payload `k-1`. These are the paddings `Layout.Paddings` defines |
| Layout.PaddingsFill | xtask/src/merge.rs:90-106 | one padding per payload, each below the alignment. The first brings the end of the header region to a multiple of the alignment. Each later one closes exactly the gap between the end of the previous payload and the next recorded offset |
| Output.Write | xtask/src/merge.rs:79-96 | the file holds one tensor-info record per merged record and one metadata record more than the merged entries, and its header counts exactly those records |
| Output.WriteHeader | xtask/src/merge.rs:79-87 | the header says version 3, counts the records actually written (tensors, and metadata entries plus one), and the alignment entry precedes the entries in order |
| Output.WriteTensorInfos | xtask/src/merge.rs:93-96 | each written tensor-info record keeps name, shape, type and size in order, with the cursor's offset |
| Output.WriteOffsets | xtask/src/merge.rs:89-103 | the written offsets start at 0, follow the cursor recurrence, are aligned and address disjoint ranges |
| Output.WritePayload | xtask/src/merge.rs:108-115 | payload `k` sits byte for byte at the leading padding plus its recorded offset |
| Output.WritePayloads | xtask/src/merge.rs:106-115 | the data segment begins at an aligned position, and every payload sits there plus its recorded offset |
| Output.WritePaddingZero | xtask/src/merge.rs:108-111 | every data byte outside all payload ranges is zero |
| Output.WriteLength | xtask/src/merge.rs:105-115 | the data segment ends exactly where the last payload ends: the trailing padding is dropped |
| Segment.StartIsOffset | xtask/src/merge.rs:106-115 | in the written stream, payload `k` starts at the leading padding plus its cursor offset |
| Segment.StreamPayload | xtask/src/merge.rs:108-115 | the stream holds each payload verbatim at that position |
| Segment.StreamPadding | xtask/src/merge.rs:108-111 | every stream byte outside the payload ranges is zero |
| Segment.StreamLength | xtask/src/merge.rs:105-115 | the stream is as long as the last payload's end |
| Emit.InterleavePayload | xtask/src/merge.rs:108-115 | in padding-then-payload interleaving, payload `k` appears verbatim at its start position |
| Emit.InterleavePadding | xtask/src/merge.rs:109-111 | in padding-then-payload interleaving, every byte outside the payloads is zero |
| Emit.InterleaveLength | xtask/src/merge.rs:108-115 | the interleaving ends where the last payload ends |
| Merge.PayloadsSized | xtask/src/merge.rs:113 | every sliced payload is as long as its record declares |
| Merge.Merge | xtask/src/merge.rs:19-115 | the merge is a no-op exactly when there are fewer than two shards, and a written file declares at least one tensor |
| Merge.OutOfBounds | xtask/src/merge.rs:108-115 | some merged payload is out of range exactly when some record lies outside the data of the last shard holding it |
| Merge.MergeFails | xtask/src/merge.rs:72-115 | with two or more shards the merge fails exactly when every shard has alignment zero, or no shard has a tensor, or some record lies outside its last holder's data |
| Merge.SlicedPayload | xtask/src/merge.rs:108-115 | in the written data segment, record `k`'s payload equals the bytes it addresses in its origin shard |
| Merge.MergedPayload | xtask/src/merge.rs:58-115 | in the file a completed merge writes, every tensor-info record is a record of the last shard holding it with only its offset changed. Its payload, at the leading padding plus that offset, is the bytes the record addresses in that shard |
| Strings.TrimStart | xtask/src/convert.rs:38 | the result is a suffix, everything cut is whitespace, and it does not start with whitespace |
| Strings.TrimEnd | xtask/src/convert.rs:38 | the result is a prefix, everything cut is whitespace, and it does not end with whitespace |
| Strings.Trim | xtask/src/convert.rs:38 | the result is a prefix of a suffix of the input; everything cut before and after it is whitespace, and it neither starts nor ends with whitespace |
| Strings.TrimUnchanged | xtask/src/convert.rs:38 | a string without surrounding whitespace trims to itself |
| Strings.FindFrom | xtask/src/convert.rs:38 | the leftmost occurrence at or after a position, or none when there is none |
| Strings.Split | xtask/src/convert.rs:38 | there is at least one piece, no piece contains the separator, and joining the pieces with it gives back the input |
| Strings.SplitJoin | xtask/src/convert.rs:38 | splitting on `->` undoes joining arrow-free pieces with `->` |
| Strings.SplitOnce | xtask/src/convert.rs:44 | split at the first occurrence of the character: nothing exactly when it is absent. Otherwise the part before it does not contain it, and the parts with it between them give back the input |
| Convert.WithPayload | xtask/src/convert.rs:44-48 | a name takes an argument exactly when it is `cast`, `to-llama`, `filter-meta` or `filter-tensor` |
| Convert.ParseOp | xtask/src/convert.rs:39-50 | a rejected trimmed step aborts with `Unsupported operation: ` followed by the step |
| Convert.ParseStep | xtask/src/convert.rs:38-50 | a rejected piece aborts naming its trimmed text |
| Convert.ParseOpSplit | xtask/src/convert.rs:44-49 | a step holding `:` is decided by the text before its first `:` alone |
| Convert.ParseNamed | xtask/src/convert.rs:44-48 | an argument-taking name, `:`, and any argument parse to that name's operator with the argument |
| Convert.ParseOpComplete | xtask/src/convert.rs:39-48 | every bare name, and every argument-taking name directly followed by `:`, parses |
| Convert.ParseOpSound | xtask/src/convert.rs:39-50 | only those steps parse |
| Convert.ParseOpAccepts | xtask/src/convert.rs:39-50 | a trimmed step parses exactly when it is a bare name or an argument-taking name directly followed by `:` |
| Convert.ParseStepAccepts | xtask/src/convert.rs:38-50 | a piece parses exactly when its trimmed text is recognised |
| Convert.ParseOpRenders | xtask/src/convert.rs:39-48 | a parsed step is its operator's canonical text, or the `!merge-linear` alias of split-linear |
| Convert.ParseStepRenders | xtask/src/convert.rs:38-48 | a parsed piece is, after trimming, its operator's canonical text or the alias |
| Convert.ParseOpRender | xtask/src/convert.rs:39-48 | an operator's canonical text parses back to that operator |
| Convert.ParseRender | xtask/src/convert.rs:38-48 | as an untrimmed piece, a renderable operator's canonical text parses back to that operator |
| Convert.Collect | xtask/src/convert.rs:38-51 | the list of results succeeds exactly when every result does, and then holds their values in order |
| Convert.CollectFirstFailure | xtask/src/convert.rs:38-51 | a failing list carries the error of its first failure |
| Convert.ParseAll | xtask/src/convert.rs:38-51 | the pieces parse exactly when each does, and then give their operators in order |
| Convert.ParseAllFirstFailure | xtask/src/convert.rs:38-51 | the first unsupported piece aborts the list, naming its trimmed text |
| Convert.ParseSteps | xtask/src/convert.rs:38-50 | the step list parses exactly when every piece between arrows parses, and then holds each piece's operator, in order |
| Convert.ParseStepsFirstFailure | xtask/src/convert.rs:38-49 | the first piece between arrows that does not parse aborts the step list, naming its trimmed text |
| Convert.ParseStepsRoundTrip | xtask/src/convert.rs:38-50 | renderable operators, written as canonical texts joined by `->`, parse back to the same list |
| Convert.EmptyStepsFail | xtask/src/convert.rs:38-49 | an empty step list is one empty piece, which is unsupported |
| Convert.CastKeepsColons | xtask/src/convert.rs:44-45 | only the first `:` separates name and argument: `cast:a:b` casts with argument `a:b` |
| Convert.SpacedNameFails | xtask/src/convert.rs:44-49 | whitespace between an argument-taking name and its `:` makes the step unsupported |
| Convert.BareNameWithArgumentFails | xtask/src/convert.rs:39-49 | a name that takes no argument followed by `:` and an argument is unsupported |

## Left out

- Opening and memory-mapping the shard files and parsing them (`GGufFile::new`, run on threads) are not modelled; a shard arrives already parsed, and failures to open or parse it are out of scope.
- Finding the shards (`LooseShards`), naming the output file and creating the output directory are not modelled: the merge receives the list of shards.
- The container writer's own failures are not modelled: the model assumes that creating the writer (line 80 of `xtask/src/merge.rs`) and every write of the alignment, metadata, tensor-info records, padding and payloads (lines 82-114) succeeds, where the code unwraps each result and would panic.
- The container writer's byte encoding of the header, metadata and tensor-info records is not modelled. `writtenBytes`, the length of that header region when the data segment begins, is a parameter.
- Layout.Pad: `pad` is defined in `gguf_file.rs`, which is not part of this model. It is modelled as the least padding that reaches a multiple of the alignment, and a zero alignment is taken to fail (division by zero).
- Merge.Merge: the contract of `Merge` itself says only when the merge is a no-op and that a written file declares a tensor. What the file holds is proved for `Output.Write` (header, records, offsets, data segment) and carried over to a completed merge by `Merge.MergedFileOf` and `Merge.MergedPayload`.
- Merge.Merge: a failure carries no file. In the code the output file is created (line 78), and the header, metadata and tensor-info records are written (lines 80-96), before the panics at lines 99, 106 and 113. A failed merge therefore leaves a partly written output file behind, which the model does not represent.
- Merge.Merge: integer widths are not modelled. The counts are cast to the header's integer type, and the cursor is a machine word; the model uses unbounded integers, so no count or offset wraps.
- Merge.Merge: the failure messages are descriptive strings, not Rust's exact panic text.
- Convert.ParseOp: the argument of `cast`, `to-llama`, `filter-meta` and `filter-tensor` is kept as text. The helper constructors that interpret it are not part of this model.
- What `convert` does with the operators (`operate`, logging, the report of the written files) is not modelled. The step iterator is lazy, so an unsupported step aborts only once it is reached. The model parses the whole list first, with the same first failure.
- The `ggml-quants` q5_k and iq1m quantisation kernels are not modelled: their bodies are unimplemented (`todo!()`).
