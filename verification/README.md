# HakoDB model

A Dafny model of the parts of HakoDB, an embedded document database, whose correctness
rests on loops, state or protocols, with proofs of what they promise.

- **Documents** (`Bytes`, `Values`, `Codec`, `CodecProofs`, `DocCodec`, `View`): the tagged
  binary format, its encoder with back-patched lengths, the skipper, the decoder, and the
  lazy readers over stored bytes.
- **Projection** (`Projection`, `ProjectionReads`, `ProjectionLoops`) and **JSON** (`JsonString`, `Json`,
  `JsonReader`, `JsonReads`, `JsonProofs`, `JsonReference`, `JsonLoops`, `JsonViewLoops`): pruning by
  dotted paths, the emitters from documents and from stored bytes, and a reader of RFC 8259 texts to
  hold them against.
- **Secondary index build** (`IndexKey`, `Backfill`, `BackfillLoops`): keys straight from
  stored bytes against decode-then-insert.
- **Vector index** (`Quantize`, `HnswGraph`, `HnswSearch`, `HnswEdit`, `HnswDistance`,
  `HnswInsert`, `HnswIndex`): int8 quantisation, beam search, greedy descent, neighbour selection and the
  mutable multi-level graph.
- **Replication** (`Lww`, `LwwJoin`, `SyncCore`, `EchoMarks`, `Replication`, `ReplicationRuns`,
  `ReplicationShards`) and
  **catch-up** (`Catchup`, `CatchupClient`): last-writer-wins batches over stored bytes, a state
  machine of any number of replicas over a network that loses, repeats and reorders, and the
  paged catch-up of the cloud plane.
- **Derived state** (`SoftDelete`, `SoftDeleteSweep`, `SoftDeleteRuns`, `Backlinks`, `BacklinkRuns`,
  `InvertedIndex`): retention records, reverse references and the full-text index, each related
  to the history of operations.
- **Aggregation** (`ValueOrder`, `Pipeline`, `PipelineStages`, `PipelineGroups`, `PipelineRun`): the order of
  values, accumulators, grouping and the stages.

Code that loops or updates fields is a method with invariants, or a class, proved against the
functions the theorems are about; recursive code is functions and lemmas.

`dafny verify dfyconfig.toml` checks the whole project.

## Modelling choices

- Integers are unbounded except where the width matters: lengths are truncated to 8, 16 and 32
  bits as the encoder does, stamps and sums are 64-bit with the saturation of the source.
- Floats are 64-bit patterns. Their text, their sums and the conversion from integers are
  parameters; in the vector index distances are exact reals, and `sqrt` is a parameter.
- The wall clock, the level drawn for a new vector, lower-casing, the alphanumeric test, failing
  disk chunks and the debug text of a group id are parameters.
- A binary heap is a list kept sorted by distance and index; a hash map is a `map` whose
  iteration order is arbitrary; a mutex-guarded map is a field.
- In the replication state machine one collection is replicated, no two different ops on a key
  carry the same stamp, and snapshots are offered at any time. A delivery is one step, where the
  source releases its read lock between filtering and committing. Deliveries are `Replication.Sound`,
  the exact condition under which a replica stays consistent (`Replication.IngestedOk`): no tombstone
  is lost and the winning stamps are within the skew ceiling. Every batch with one op per key loses none.
- A `Tailer` is an offset, not a connection: a dialled connection has its own, and all connections a
  listener accepts share one, so each of them misses what another has read (`Replication.SharedMisses`).
- The keys of nested maps are sorted by one stable sort in both JSON emitters; the source sorts unstably,
  so for a nested map that repeats a key the order of the repeated members is not that of the source.
- Sorting and grouping are specified for keys on which the order of values is transitive, which is what
  the sorted map and the sort of the source demand (`Pipeline.Orderly`).

## Where the code and its documentation differ

The model follows the code.

- The sweep says it evicts the oldest records over the caps; it keeps the oldest that fit and
  evicts the younger ones (`SoftDeleteSweep.YoungerEvicted`); `SoftDeleteSweep.OldestFirstIff` gives the
  exact condition under which it does what it says.
- The byte-level backfill says a document is skipped exactly when owned decoding fails; a document
  with a corrupt field that no index matches is indexed (`Backfill.PathsPart`), and
  `Backfill.PathsAgreeIff` gives the exact condition.
- JSON from stored bytes is said to match the decoder; it refuses nested frames with unused
  bytes, which the decoder accepts (`JsonProofs.LooseRefused`; exactly then: `JsonProofs.ViewDocAgrees`).
- Decoding with a projection drops a selected field with an empty key, which projecting the
  decoded document keeps (`Projection.EmptyKeyDropped`; exactly then: `Projection.DecodeProjectedExact`).
- The tokeniser says it ignores single letters; it ignores words of one byte, so a single
  non-ASCII letter is a token (`InvertedIndex.AccentIsToken`; exactly then: `InvertedIndex.SinglesIff`).
- The hybrid clock says local stamps never go backwards; after a remote stamp beyond the skew
  ceiling they can (`SyncCore.StampBehind`; exactly then: `SyncCore.NextStampNewer`).
- A batch with two deletes of a key leaves a tombstone with the older stamp (`Lww.TombstoneLost`; exactly
  then: `Lww.BatchExact`), and replicas that have received everything can differ
  (`ReplicationRuns.UnsoundDiverges`).
- An op just ingested is said not to bounce straight back out. The cache has one mark per key, so of several
  winning ops on a key in one batch all but the last go back out (`Replication.OlderBounces`; exactly then:
  `Replication.BounceIff`). A tail also uses the marks up, so a second tail sends what the first held back
  (`Replication.SecondTailSends`; exactly then: `Replication.SecondTailIff`).
- Records without a logical time are said never to match an echo mark; they match one with stamp 0
  (`EchoMarks.MarkTaken`; exactly then: `EchoMarks.TimelessIff`).
- Each peering is said to own its offsets; the connections of a listener share them, and one loses what
  another has read (`ReplicationRuns.SharedLoses`; exactly then: `Replication.SharedMisses`).
- The order of values is used as a total order; with floats or blob links it is not
  (`ValueOrder.MixedNotTotal`, `ValueOrder.BlobsEqual`; exactly then: `ValueOrder.LeavesTotalIff`).
- A live document with stamp 0 is refused by the cloud ingest, so catch-up from a negative stamp
  misses it (`Catchup.StampZeroMissed`; exactly then: `Catchup.CatchUpComplete`).

## Model

| member | source | states |
|---|---|---|
| Bytes.EncodeVarint | src/util/varint.rs:1-7 | the loop appends the seven-bit groups of the number, lowest first |
| Bytes.DecodeVarint | src/util/varint.rs:9-25 | the loop reads what the group-by-group reader reads, refusing a tenth group above 1 and a missing byte |
| Bytes.VarintRoundTrip | src/util/varint.rs:1-25 | a varint anywhere in a buffer reads back as its number and the offset behind it |
| Bytes.VarintShortest | src/util/varint.rs:1-25 | the encoder writes the shortest form a reader accepts |
| Bytes.VarintAt | src/util/varint.rs:1-7 | byte `i` of a varint holds the group of weight 128^i, and its top bit is set exactly when more follow |
| Bytes.CompareBytesIs | src/document/value.rs:201-202 | byte strings compare by their first difference, and a proper prefix is smaller |
| Bytes.Utf8Exact | src/document/hako_doc.rs:1206-1209 | the UTF-8 check accepts exactly the encodings of sequences of scalar values |
| Values.Search | src/document/hako_doc.rs:48-52 | the binary search over sorted keys finds the key or the only gap it fits in |
| Values.Get | src/document/hako_doc.rs:48-52 | on sorted fields the lookup finds the field of that name, and nothing exactly when there is none |
| Values.Insert | src/document/hako_doc.rs:81-87 | afterwards the key holds the value, every other key what it held, and the keys are still sorted |
| Values.PutFind | src/document/hako_doc.rs:81-87 | reading any key after an insert |
| Values.PutSorted | src/document/hako_doc.rs:81-87 | an insert keeps the keys strictly ascending |
| Values.GetPath | src/document/hako_doc.rs:60-79 | a dotted path descends one map level per segment; an empty segment or a non-map is a miss |
| Values.SplitDot | src/document/hako_doc.rs:60-79 | a dot ends the first segment of a path |
| Values.SplitEnd | src/query/pipeline.rs:288 | what follows the last dot is the last segment |
| DocCodec.PatchLength | src/document/hako_doc.rs:621-713 | back-patching a placeholder yields the framed payload of a compound value |
| DocCodec.EncodeValueTo | src/document/hako_doc.rs:621-713 | the buffer grows by exactly the tagged encoding of the value, at any nesting |
| DocCodec.EncodeInto | src/document/hako_doc.rs:104-115 | the buffer grows by the encoding, and on documents that fit the format that piece decodes to the document |
| DocCodec.HakoDocIter.Next | src/document/hako_doc.rs:1108-1136 | the cursor yields the next stored field, or stops at the end and on corrupt framing with the count left |
| DocCodec.Decode | src/document/hako_doc.rs:117-138 | the field loop decodes exactly what the specification decodes: every field, no rest, or nothing |
| CodecProofs.SkipExact | src/document/hako_doc.rs:1157-1185 | over an encoded value, in any surrounding buffer, the skipper advances exactly to its end |
| CodecProofs.SkipCut | src/document/hako_doc.rs:1157-1185 | over a value cut short by the end of the buffer the skipper fails |
| CodecProofs.SkipKnown | src/document/hako_doc.rs:1157-1185 | the skipper passes no tag that the encoder does not write |
| CodecProofs.DecodeValueExact | src/document/hako_doc.rs:1187-1264 | every encodable value, of any nesting, decodes from its payload to itself |
| CodecProofs.ScanFieldsExact | src/document/hako_doc.rs:1108-1136 | the framing walk over encoded fields finds each key, tag and span, and stops behind the last |
| CodecProofs.RoundTrip | src/document/hako_doc.rs:104-138 | decoding an encoding gives the document back; with any byte appended it gives nothing |
| CodecProofs.PrefixRejected | src/document/hako_doc.rs:104-138 | no proper prefix of an encoding decodes |
| CodecProofs.RoundTripIff | src/document/hako_doc.rs:104-138 | the documents that survive a round trip are exactly those whose lengths and strings fit the format |
| CodecProofs.DecodedDocFits | src/document/hako_doc.rs:117-138 | whatever decodes fits the format, so it can be encoded again without loss |
| CodecProofs.StoredSize | src/document/hako_doc.rs:621-713 | small integers and the constants take one byte, short strings one byte more than their text, everything else its body behind a tag and a length |
| View.TopLevelExact | src/document/hako_doc.rs:897-920 | the lazy lookup on an encoding finds the stored form of the field the document holds |
| View.PathSpanExact | src/document/hako_doc.rs:952-1009 | every path over the raw spans ends at the stored form of what it leads to in the document |
| View.StoredExact | src/document/hako_doc.rs:804-828 | a stored value decodes to its value, and the borrowed readers return strings and binaries only |
| View.BorrowedExact | src/document/hako_doc.rs:804-828 | on any bytes the borrowed readers give what decoding gives, if it is a string or a binary |
| View.Get | src/document/hako_doc.rs:897-939 | one field is read without decoding another, and the three getters agree with the owned document |
| View.GetPathSpan | src/document/hako_doc.rs:952-1009 | the descent loop over raw bytes returns the specified span |
| View.GetPath | src/document/hako_doc.rs:922-950 | value, string and bytes of a dotted path, equal to what the owned document gives |
| Projection.PathKept | src/document/value.rs:244-307 | every projected path reads the same in the projection as in the document |
| Projection.RestHidden | src/document/value.rs:244-307 | a path no projected path touches is gone from the projection |
| ProjectionReads.ReadPruned | src/document/value.rs:244-307 | reading any path of keys and array positions in a pruned value: what the value has there if a chosen path ends at or above it, its shell if one goes on below, and otherwise nothing; array positions never move |
| ProjectionReads.ReadProjected | src/document/hako_doc.rs:172-183 | the same for the fields of a document and the dotted paths of a projection |
| Projection.ProjectTwice | src/document/hako_doc.rs:172-183 | projecting twice with the same paths is projecting once |
| Projection.PruneSorted | src/document/value.rs:244-307 | pruning keeps the key order and invents no field |
| Projection.DecodeProjectedExact | src/document/hako_doc.rs:140-167 | decoding with a projection gives the projected document if and only if no kept field has an empty key |
| Projection.EmptyKeyDropped | src/document/hako_doc.rs:140-167 | a document with one empty key, selected by the projection, that decoding drops and projecting keeps |
| ProjectionLoops.PruneValue | src/document/value.rs:244-277 | the pruning loops over map fields and array elements compute the specified pruning |
| ProjectionLoops.PruneFieldValue | src/document/value.rs:281-306 | what a projection keeps of a top-level field, with malformed dotted paths ignored |
| ProjectionLoops.ProjectionPrefixes | src/document/value.rs:309-319 | the non-empty first segments, each once |
| ProjectionLoops.DecodeProjectedDoc | src/document/hako_doc.rs:140-167 | the loop decodes only the fields a first segment names and refuses bad framing behind them |
| ProjectionLoops.ProjectDoc | src/document/hako_doc.rs:172-183 | the loop over decoded fields computes the projection |
| JsonString.NeedsEscapeExact | src/document/hako_doc.rs:329-337 | the 64-bit word test is true exactly when some byte lane is a quote, a backslash or a control byte |
| JsonString.WordTest | src/document/hako_doc.rs:267-337 | for eight bytes read as a word, the test is true exactly when one of them must be escaped |
| JsonString.WriteJsonRaw | src/document/hako_doc.rs:267-321 | the emitter with eight-byte skips and bulk copies writes the byte-by-byte escape of every string |
| JsonString.UnescapeInverts | src/document/hako_doc.rs:254-321 | unescaping by section 7 of RFC 8259 recovers the string |
| JsonString.ShortestEscape | src/document/hako_doc.rs:254-321 | no text shorter than the one written stands for a byte |
| JsonReads.ReadsInt | src/document/hako_doc.rs:345-443 | a reader of RFC 8259 numbers reads the text of an integer as that integer |
| JsonReads.ValueReads | src/document/hako_doc.rs:345-443 | a reader of RFC 8259 texts, stated apart from the writer, reads the text of any value as the tree of that value: words, numbers, strings, arrays in order, objects with their members in key order |
| JsonReads.DocReads | src/document/hako_doc.rs:187-242 | the same for documents: for sorted fields the members are in strict key order, each field is read as its tree, and `_time` as the stamp unless a field has that name |
| JsonReader.ArrangedKeeps | src/document/hako_doc.rs:409-443 | the members of a nested object are those of the map, in key order |
| JsonProofs.ViewAgrees | src/document/hako_doc.rs:449-611 | on every tag and span the JSON from stored bytes is the JSON of the decoded value, where the framing is tight; elsewhere there is none |
| JsonProofs.ViewDocAgrees | src/document/hako_doc.rs:1028-1058 | for every buffer: the JSON emitted from it is that of the decoded document exactly when it decodes and every nested frame is filled |
| JsonProofs.LooseRefused | src/document/hako_doc.rs:1028-1058 | a concrete document whose nested map has a byte to spare: it decodes and has no JSON |
| JsonProofs.ViewDocExact | src/document/hako_doc.rs:1028-1058 | on an encoding the JSON from bytes equals the JSON from the document, byte for byte |
| JsonProofs.EncodingsTight | src/document/hako_doc.rs:621-713 | every frame the encoder writes is filled |
| JsonReference.SortUnique | src/document/hako_doc.rs:409-443 | sorting map members by key has one possible result when the keys differ |
| JsonReference.ReferenceAgrees | src/document/hako_doc.rs:345-443 | the direct emitter writes what building a JSON tree with sorted objects and serialising it writes |
| JsonReference.DocReferenceAgrees | src/document/hako_doc.rs:187-242 | the same for documents, with `_time` merged in key order or shadowed by a field of that name |
| JsonLoops.WriteJsonValue | src/document/hako_doc.rs:345-443 | the recursive writer appends the JSON of the value, nested keys sorted |
| JsonLoops.WriteJson | src/document/hako_doc.rs:205-242 | the field loop places `_time` where it sorts, once, and appends the JSON of the document |
| JsonViewLoops.WriteViewValue | src/document/hako_doc.rs:449-547 | the writer over stored bytes appends the specified text or fails where it fails |
| JsonViewLoops.WriteViewJson | src/document/hako_doc.rs:1028-1058 | on the encoding of a document the buffer grows by the JSON of that document |
| IndexKey.EncodeRawScalar | src/index/index_key.rs:72-185 | succeeds exactly when the tag is not a map or array and the bytes decode, and then appends the key of the decoded value |
| IndexKey.KeyInjective | src/index/index_key.rs:19-58 | apart from the value kinds that share one key, equal keys mean equal values |
| IndexKey.KeyShared | src/index/index_key.rs:19-58 | two values have one key if and only if they are equal, both null or server time, both maps or both arrays |
| IndexKey.KeyOrder | src/index/index_key.rs:19-58 | the keys of two integers, or of two timestamps, stand in numeric order if and only if the signs are the same |
| Backfill.BorrowedAgrees | src/index/service.rs:60-219 | on bytes that decode, indexing from bytes and indexing the decoded document change every posting alike |
| Backfill.BackfillAgrees | src/index/service.rs:60-219 | over any list of encoded documents the byte-level backfill leaves the same index as decode-then-insert |
| Backfill.LookupExact | src/index/service.rs:60-219 | after a backfill from stored bytes the key of a value leads to exactly the documents that have that value under the name, `id` and `_time` being the id and the stamp |
| Backfill.PathsAgreeIff | src/index/service.rs:106-219 | on arbitrary bytes the two paths agree if and only if the bytes decode, the byte-level path skips them, or all it stages is indexed already |
| Backfill.PathsPart | src/index/service.rs:106-219 | a concrete buffer with a corrupt unindexed field that only the byte-level path indexes |
| BackfillLoops.IndexManager.BackfillSecondary | src/index/service.rs:60-83 | the nested loops leave the specified index |
| BackfillLoops.IndexManager.BackfillSecondaryBorrowed | src/index/service.rs:106-219 | declines when another index family is present, otherwise leaves the byte-level index of all documents |
| BackfillLoops.IndexManager.AddStored | src/index/service.rs:146-216 | a document is staged whole and then inserted, or skipped whole |
| BackfillLoops.Stage | src/index/service.rs:146-210 | walking, matching and encoding a stored document stages the specified keys |
| BackfillLoops.EncodeKeys | src/index/service.rs:170-192 | one failing field spoils the document; otherwise each field gives its key |
| Quantize.QuantizeVector | src/index/vector.rs:481-493 | two passes compute the scale and the clamped rounded components |
| Quantize.QuantizeError | src/index/vector.rs:481-493 | a component is off by at most half the scale and fits -127..127 |
| Quantize.RoundHalf | src/index/vector.rs:489 | halves are rounded away from zero |
| Quantize.LargestExact | src/index/vector.rs:478-493 | a component of largest magnitude is represented exactly |
| Quantize.L2Exact | src/index/vector.rs:641-657 | the asymmetric L2 formula is the squared distance to the dequantised vector |
| Quantize.NodeL2Exact | src/index/vector.rs:662-676 | the symmetric L2 formula is the squared distance of the two dequantised vectors |
| Quantize.CosineScaleCancels | src/index/vector.rs:641-657 | cosine on the integers is cosine on the dequantised vector |
| Quantize.InnerProductError | src/index/vector.rs:641-657 | the quantised inner product is off by at most half the scale times the sum of the query magnitudes |
| HnswDistance.QueryDistances | src/index/vector.rs:633-657 | L2 and inner product of a query measure it against the vector the node stands for |
| HnswDistance.QueryCosine | src/index/vector.rs:633-657 | cosine is one minus the cosine with the node vector, and 1 exactly when a norm is zero |
| HnswDistance.NodeDistances | src/index/vector.rs:662-676 | between nodes: squared distance, symmetric, and negated inner product of their vectors |
| HnswDistance.NodeCosine | src/index/vector.rs:662-676 | between nodes: one minus the cosine of their vectors, and 1 exactly when a norm is zero |
| HnswDistance.GraphMeasured | src/index/vector.rs:633-676 | with square roots that are roots, every distance from a query and between nodes is the L2, cosine or inner-product distance of the vectors themselves |
| HnswSearch.SearchLayer | src/index/vector.rs:766-827 | terminates with at most `ef` reachable nodes sorted by distance and index; every entry and every neighbour of a returned node is returned or no closer than all returned; if `ef` covers the reachable set it is the result |
| HnswSearch.Expand | src/index/vector.rs:804-822 | expanding a candidate keeps the beam: what was seen is kept or no closer than a full result |
| HnswSearch.Certify | src/index/vector.rs:794-827 | a finished beam certifies its output |
| HnswSearch.GreedyClosest | src/index/vector.rs:744-764 | terminates at a reachable node with no strictly closer neighbour, no farther than the entry |
| HnswSearch.SelectNeighbors | src/index/vector.rs:829-849 | a sorted selection of at most `m`, none blocked by a kept nearer one; a candidate left out is blocked or behind a full selection |
| HnswSearch.SelectionUnique | src/index/vector.rs:829-849 | those clauses admit only one selection |
| HnswGraph.ReachStays | src/index/vector.rs:783-822 | a set holding the entries and closed under links holds everything reachable |
| HnswEdit.AddLinkKeeps | src/index/vector.rs:851-858 | adding a link keeps links distinct, in range, on the level and off the node itself, and only that list may exceed its cap |
| HnswEdit.ShrinkKeeps | src/index/vector.rs:860-869 | a selection may replace a link list without breaking the graph, and the list is back under its cap |
| HnswIndex.HnswIndex.constructor | src/index/vector.rs:544-572 | a new index is empty, valid and has its parameters clamped to their bounds |
| HnswIndex.HnswIndex.Clear | src/index/vector.rs:606-612 | empties the index and withdraws completeness |
| HnswIndex.HnswIndex.AddOne | src/index/vector.rs:851-858 | appends the link unless it is there |
| HnswIndex.HnswIndex.ShrinkLinks | src/index/vector.rs:860-869 | an overfull list becomes the diverse selection of itself; every other list is untouched |
| HnswIndex.HnswIndex.Connect | src/index/vector.rs:729-737 | on the level the new node has exactly the selected neighbours, each of them got the new node and was trimmed to the cap, the rest is as before |
| HnswIndex.HnswIndex.JoinLevel | src/index/vector.rs:718-738 | one level of an insertion: a certified beam search, its diverse selection, and exactly the links of that selection |
| HnswIndex.HnswIndex.JoinLevels | src/index/vector.rs:718-738 | every level is joined as the graph stood before the insertion, each entered at the nearest neighbour found above; the graph stays well formed and no node is left without a neighbour on level 0 |
| HnswIndex.HnswIndex.LinkNew | src/index/vector.rs:706-742 | descent from the entry, joins on all shared levels, and the entry moves exactly when the new level is the highest |
| HnswInsert.JoinedFrom | src/index/vector.rs:718-738 | a level is searched and selected as if nothing had happened on the levels above |
| HnswInsert.JoinedStays | src/index/vector.rs:718-738 | work on a lower level leaves a joined level as it is |
| HnswIndex.HnswIndex.Descend | src/index/vector.rs:710-717 | one greedy walk per level, each from where the one above ended, to a reachable node with no closer neighbour on that level |
| HnswIndex.HnswIndex.Upsert | src/index/vector.rs:678-742 | a vector of the wrong dimension changes nothing; otherwise the contents change at the id only, an update keeps all links, an insertion links the new node on every level as specified by the distances of the vectors, and the graph stays valid: caps, tidy links, maximal entry, inverse id maps |
| HnswIndex.HnswIndex.Search | src/index/vector.rs:871-889 | nothing without an entry or on a wrong dimension, otherwise a greedy walk on every upper level and a certified non-empty beam result from its end; the hits are in the order of the true distances of their vectors, each with its distance |
| HnswIndex.CertifiedRanked | src/index/vector.rs:871-889 | a certified beam result is ranked by the distance the hits report |
| HnswIndex.HnswIndex.Run | src/index/vector.rs:606-742 | after every sequence of upserts and clears the index is valid and holds the last vector of the right dimension per id |
| Lww.BatchExact | src/sync_core.rs:126-233 | a batch that ascends per key equals its ops one at a time if and only if no key ends in a delete behind another accepted delete |
| Lww.TombstoneLost | src/sync_core.rs:222-230 | two deletes of one key in a batch leave the older stamp |
| Lww.BatchNeverOlder | src/sync_core.rs:126-233 | for every batch an entry stays or gives way to a strictly newer op of the batch |
| Lww.DistinctExact | src/sync_core.rs:126-233 | a batch with one op per key equals its ops one at a time |
| LwwJoin.BatchIsJoin | src/sync_core.rs:126-233 | a batch with one op per key is the pointwise newest-stamp join |
| LwwJoin.JoinCommutes | src/sync_core.rs:140-154 | the join commutes on tables whose equal stamps mean equal entries |
| LwwJoin.JoinAssociates | src/sync_core.rs:140-154 | the join is associative |
| LwwJoin.OrderIrrelevant | src/sync_core.rs:126-233 | the same ops in another order or repeated leave the same table |
| LwwJoin.SameBatchesSameTable | src/sync_core.rs:126-233 | replicas that start equal and receive the same batches, in any order with any repetition, end equal |
| LwwJoin.ExchangeConverges | src/socket_sync.rs:184-211 | after a two-way snapshot exchange both sides hold the join |
| LwwJoin.SecondExchangeIdle | src/socket_sync.rs:184-211 | a second exchange accepts nothing on either side |
| SyncCore.OpTimeExact | src/sync_core.rs:29-47 | the stamp read off a record is the stamp of the op it decodes to |
| SyncCore.WireExact | src/sync_core.rs:185-186 | what is logged for an accepted op is ingested elsewhere as that op |
| SyncCore.FrameBytes | src/sync_core.rs:49-69 | refuses exactly empty and oversized payloads; otherwise a 32-bit length in front of the payload |
| SyncCore.NextStampNewer | src/engine/engine.rs:4787-4812 | the next local stamp exceeds an observed remote stamp if and only if that stamp was within the skew ceiling, or the clock has passed it, and is not the largest |
| SyncCore.StampBehind | src/engine/engine.rs:4787-4812 | a remote stamp two beyond the ceiling: the next local stamp is older |
| SyncCore.LocalStampExact | src/sync_core.rs:140-152 | the stamp compared against is the stamp of the stored entry |
| SyncCore.Shard.EchoTake | src/sync_core.rs:71-85 | a hit on key and stamp is reported and removed, anything else is kept |
| SyncCore.Shard.Filter | src/sync_core.rs:120-194 | accepts exactly the decodable ops strictly newer than the index before the batch, marking each and raising the clock |
| SyncCore.Shard.TombstoneStamp | src/sync_core.rs:223-229 | the first accepted delete of the key gives the stamp |
| SyncCore.Shard.ApplyReplicatedBatch | src/sync_core.rs:93-233 | a local collection refuses everything; otherwise table, log, echo marks and clock change as the batch specification says |
| SyncCore.Shard.Snapshot | src/socket_sync.rs:184-211 | one op for every tombstone and every document that decodes, and no other |
| SyncCore.Shard.Tail | src/socket_sync.rs:289-324 | over any log: every record behind the offset takes its echo mark, and puts and deletes that hit none and are not local-only are sent; an offset beyond the log starts over |
| EchoMarks.TakesIff | src/sync_core.rs:71-85 | a record of the log takes an echo mark if and only if it is the first with the key and time of that mark |
| EchoMarks.TimelessIff | src/sync_core.rs:29-47 | no record without a logical time takes a mark if and only if each one whose key is marked with 0 comes behind a record of that key whose own time is 0 |
| EchoMarks.SentExact | src/socket_sync.rs:305-323 | what a tail sends and the marks it leaves are those of the ops in the log if and only if every record without an op that matches a mark is behind one with an op that does, or is local-only and there is one |
| EchoMarks.MarkTaken | src/sync_core.rs:29-47 | a transaction mark uses up the echo mark of an op with the empty key and stamp 0, which then bounces |
| Replication.IngestedOk | src/sync_core.rs:126-233 | ingesting an ascending batch keeps a replica consistent (table equal to the last record per key, log ascending, clock above it, echo marks on ingested records) if and only if no tombstone of it is lost and the clock can follow its winning stamps |
| Replication.WrittenOk | src/engine/engine.rs:2179-2188 | a local batch keeps a replica consistent |
| Replication.UnechoedSends | src/socket_sync.rs:308-323 | what a tail sends is an ascending part of the log |
| Replication.LocalWriteSent | src/sync_core.rs:71-85 | echo suppression never drops a local write |
| Replication.HeldBackIff | src/sync_core.rs:71-85 | a tail holds an op of its log back if and only if the op is marked |
| Replication.IngestedHeldBackIff | src/sync_core.rs:157-176 | what was just ingested is held back if and only if no later accepted op has its key |
| Replication.BounceIff | src/sync_core.rs:71-85 | in the whole system: right after a delivery a tail sends an accepted op on if and only if a later accepted op has its key |
| Replication.OlderBounces | src/sync_core.rs:157-176 | two puts of a key in one batch: both win, nothing is lost, and the first goes back out |
| Replication.SecondTailIff | src/socket_sync.rs:148-158 | behind another tail of the replica one sends an op if and only if that tail has passed it or it was not marked |
| Replication.SecondTailSends | src/socket_sync.rs:148-158 | whatever one tail has passed, marked or not, another one of the replica sends |
| Replication.SharedMisses | src/socket_sync.rs:95-166 | a send changes what a connection has left to send if and only if it shares the offset and had something left; then it has nothing |
| ReplicationRuns.InvStep | src/socket_sync.rs:184-361 | writing, opening, offering, sending and delivering each keep the invariant of the whole system |
| ReplicationRuns.InvRun | src/socket_sync.rs:184-361 | the invariant holds after every run |
| ReplicationShards.DeliverTo | src/sync_core.rs:93-233 | ingesting a frame of stored records takes a shard to the replica the delivery step leads to |
| ReplicationShards.OfferOf | src/socket_sync.rs:184-211 | a snapshot of a shard is one its replica may offer |
| ReplicationShards.TailOf | src/socket_sync.rs:289-324 | a tail round of a shard sends what the send step sends and leaves the replica it leads to, if records without an op leave the marks of the others alone |
| ReplicationRuns.RunNewer | src/sync_core.rs:126-233 | over any run the stamp of a key never decreases on any replica |
| ReplicationRuns.RunSafe | src/sync_core.rs:126-233 | in every run each log is strictly ascending per key and every stored entry was written by some replica |
| ReplicationRuns.RunQuiesces | src/socket_sync.rs:279-336 | in every run a replica logs, and a connection sends, at most as many ops as were written anywhere |
| ReplicationRuns.UpToDateIff | src/sync_core.rs:126-233 | in every run a replica holds the latest write of every key if and only if those writes have reached it |
| ReplicationRuns.RunConverges | src/sync_core.rs:126-233 | two replicas that the latest write of every key has reached, by tails or snapshots, with loss, reordering and duplication, hold the same table |
| ReplicationRuns.SharedLoses | src/socket_sync.rs:95-166 | a run after which a local write is pending for two connections that share the offset: the first sends it, the second sends nothing |
| ReplicationRuns.UnsoundDiverges | src/sync_core.rs:223-229 | a run after which a tail of two deletes of one key is ingested whole and leaves the two replicas with different tombstones |
| Catchup.PageOut | src/cloud_sync.rs:1364-1403 | the pages in order are the ops, packed to the op and byte caps |
| Catchup.PackedAt | src/cloud_sync.rs:1364-1403 | each page is non-empty, within 1000 ops, within the byte cap unless it is a single op, and the page before it had no room |
| Catchup.PageHolds | src/cloud_sync.rs:1364-1403 | a page has 1 to 1000 ops and, if more than one, at most 6 MiB of keys and values |
| Catchup.CollectOps | src/cloud_sync.rs:1254-1360 | one op for every entry newer than `since` that is not local-only, only entries of the index, and older ones only from disk for a client without a stamp |
| Catchup.FlushAllAt | src/cloud_sync.rs:702-759 | however the ops are cut into chunks, each key sees its one op against the table at the start |
| Catchup.CatchUpComplete | src/cloud_sync.rs:702-759 | a client that agreed up to `since` ends equal to the server on all keys that are not local-only if and only if `since` is not negative or no live document has stamp 0 |
| Catchup.StampZeroMissed | src/cloud_sync.rs:702-759 | a live document with stamp 0, an empty client and a negative stamp: it is sent and refused |
| CatchupClient.AdmitsExact | src/cloud_sync.rs:702-743 | the ingest check on stored bytes: undecodable and stamp-0 puts go, only a live document as new or newer holds an op back |
| CatchupClient.CloudShard.Admit | src/cloud_sync.rs:702-759 | the put and delete arms accept exactly the admitted ops, mark them and raise the clock |
| CatchupClient.CloudShard.ApplyTimestamped | src/cloud_sync.rs:853-892 | the accepted ops are logged and installed with their own stamps |
| CatchupClient.CloudShard.FlushIngest | src/cloud_sync.rs:643-775 | a drain of the buffer changes table, log, marks and clock as specified; a local collection changes nothing |
| CatchupClient.CatchUp | src/cloud_sync.rs:1254-1403 | collecting, paging and ingesting page by page leaves the client equal to the server |
| SoftDelete.RecordIdInjective | src/engine/softdel.rs:31-36 | with slash-free collection names two documents never share a record |
| SoftDelete.RecordExact | src/engine/softdel.rs:48-65 | a retention record reads back as what it was built from |
| SoftDelete.Store.Write | src/engine/engine.rs:2307-2345 | a write is live under a new stamp and retires the records of its key |
| SoftDelete.Store.ForceDelete | src/engine/engine.rs:2288-2305 | a delete without retention leaves a tombstone under a new stamp and adds no record |
| SoftDelete.Store.SoftDelete | src/engine/softdel.rs:68-94 | a live document is retained in a record carrying the stamp of its tombstone; without one, or with no retention, only the tombstone is written |
| SoftDelete.Store.Restore | src/engine/softdel.rs:117-165 | succeeds exactly when a record is held and its stamp is that of the current tombstone; then the fields live just before the last delete are live again and the record is gone; otherwise nothing changes, so a live document is never overwritten |
| SoftDeleteSweep.Collect | src/engine/softdel.rs:247-258 | lists every decodable live record once |
| SoftDeleteSweep.Evict | src/engine/softdel.rs:262-272 | marks exactly the records from the first one, in age order, that no longer fits the byte or count budget |
| SoftDeleteSweep.OldestFirstIff | src/engine/softdel.rs:234-272 | the sweep evicts oldest-first if and only if all records fit the budgets, none fits, or all are of one age |
| SoftDeleteSweep.YoungerEvicted | src/engine/softdel.rs:262-272 | two records and room for one: the younger is evicted |
| SoftDeleteSweep.Forget | src/engine/softdel.rs:280-286 | adds every due record not evicted already |
| SoftDeleteSweep.SweptFits | src/engine/softdel.rs:234-297 | after a complete sweep the records left are scheduled for later and within both budgets |
| SoftDeleteSweep.SweptRows | src/engine/softdel.rs:234-297 | a record is swept exactly when its time has come or it stands behind the cut |
| SoftDeleteSweep.SweepPass | src/engine/softdel.rs:234-297 | removes a prefix of the doomed records, all of them when no chunk fails, and nothing else; the doomed are those scheduled for now or before and those cut by the budgets |
| SoftDeleteRuns.Step | src/engine/softdel.rs:68-297 | each write, delete, restore and sweep moves the live documents and the deadlines of the restorable ones as the history says, and a restore succeeds exactly on a restorable document |
| SoftDeleteRuns.Run | src/engine/softdel.rs:68-297 | the same over every sequence of acts |
| SoftDeleteRuns.Retained | src/engine/softdel.rs:234-297 | until its time no sweep with room for all records takes a deleted document away |
| SoftDeleteRuns.Expired | src/engine/softdel.rs:234-297 | after a sweep without a failure at or behind its time it is gone |
| SoftDeleteRuns.RetentionSpan | src/engine/softdel.rs:68-297 | over every run: a deleted document can be restored until the stamp of its delete plus the retention period, as long as sweeps have room, and not after a sweep at or behind that time |
| Backlinks.BacklinkIndex.Track | src/index/traverse.rs:47-50 | adds a target and keeps the edges |
| Backlinks.BacklinkIndex.IndexDoc | src/index/traverse.rs:67-97 | adds exactly the references of the document to tracked targets |
| Backlinks.BacklinkIndex.RemoveDoc | src/index/traverse.rs:99-131 | removes exactly the edges from the document to what it refers to, and the edges to the document |
| Backlinks.BacklinkIndex.Inbound | src/index/traverse.rs:133-137 | returns exactly the edges to a document, without duplicates, and nothing exactly when there is none |
| Backlinks.BacklinkIndex.ClearCollection | src/index/traverse.rs:146-163 | removes exactly the edges to or from the collection |
| Backlinks.BacklinkIndex.Untrack | src/index/traverse.rs:139-144 | likewise, with the registration, and reports whether it was tracked |
| BacklinkRuns.AliveStep | src/index/traverse.rs:67-163 | one more event changes the edges alive by exactly what it adds and kills |
| BacklinkRuns.Step | src/index/traverse.rs:47-163 | each operation keeps the index equal to its history |
| BacklinkRuns.Run | src/index/traverse.rs:47-163 | after every sequence of operations the index holds exactly the edges indexed under a then tracked target and not taken away since, in non-empty duplicate-free buckets of tracked targets |
| BacklinkRuns.FindBacklink | src/index/traverse.rs:133-137 | a reference of an indexed version to a target tracked then is found until it is removed or cleared |
| InvertedIndex.TokensExact | src/index/inverted_index.rs:96-102 | the tokens are the maximal alphanumeric runs of more than one byte |
| InvertedIndex.WordsAreRuns | src/index/inverted_index.rs:33-49 | the words of a query are the runs of its lower-cased text |
| InvertedIndex.SinglesIff | src/index/inverted_index.rs:96-102 | no token is a single character if and only if every word of one character is ASCII |
| InvertedIndex.AccentIsToken | src/index/inverted_index.rs:96-102 | a text of one accented letter has it as a token |
| InvertedIndex.RangeIsPrefix | src/index/inverted_index.rs:67-79 | the half-open range up to the last scalar is exactly the set of terms with the prefix |
| InvertedIndex.Index.Insert | src/index/inverted_index.rs:11-15 | the document stands under its tokens, every other posting is as before |
| InvertedIndex.Index.Remove | src/index/inverted_index.rs:17-26 | the document stands under none of the tokens, and no term is left without documents |
| InvertedIndex.Index.Search | src/index/inverted_index.rs:33-49 | the ids under all query words; none exactly when there is no word or an unknown one |
| InvertedIndex.Index.RangeIds | src/index/inverted_index.rs:76-79 | the ids of all terms with the prefix |
| InvertedIndex.Index.SearchPrefix | src/index/inverted_index.rs:59-94 | the ids having, for each query word, a term with that prefix; no result if and only if there is no word, or a word without a term is met while some document has the words before it |
| InvertedIndex.SearchDocs | src/index/inverted_index.rs:33-49 | search finds exactly the documents whose lower-cased text has every word of the lower-cased query as a maximal alphanumeric run of more than one byte |
| InvertedIndex.SearchPrefixDocs | src/index/inverted_index.rs:59-94 | prefix search finds exactly the documents whose lower-cased text has, for each word of the lower-cased query, such a run with that prefix |
| InvertedIndex.Run | src/index/inverted_index.rs:11-31 | after every history that removes a text before replacing it, the postings mirror the documents |
| ValueOrder.KindsInOrder | src/document/value.rs:24-37 | null, booleans, numbers, timestamps, strings, binaries, references, arrays, maps and server times stand in that order |
| ValueOrder.ScalarsInOrder | src/document/value.rs:182-232 | within a kind booleans, integers, timestamps, strings, binaries and references stand in their own order |
| ValueOrder.FloatsInOrder | src/document/value.rs:195-199 | floats stand in the total order of IEEE 754: negative before positive, magnitudes reversed below zero |
| ValueOrder.ItemsInOrder | src/document/value.rs:182-232 | the shorter array first; of one length, the first elements that differ decide |
| ValueOrder.FieldsInOrder | src/document/value.rs:182-232 | of maps of one length the first fields that differ decide, by key and then by value |
| ValueOrder.CompoundsInOrder | src/document/value.rs:182-232 | arrays and maps as values: by length, then so |
| ValueOrder.CmpFlip | src/document/value.rs:182-232 | for all values: swapping reverses the comparison |
| ValueOrder.CmpOrder | src/document/value.rs:182-232 | values without floats and blob links are equal exactly when identical |
| ValueOrder.CmpChains | src/document/value.rs:182-232 | the order is transitive, strictly where one step is, on all values built from leaves that do not clash |
| ValueOrder.LeavesTotalIff | src/document/value.rs:182-232 | on everything arrays and maps make of a set of leaves the order is transitive if and only if no two integer leaves round to a float leaf and no blob link stands beside two different binaries |
| ValueOrder.PlainTotal | src/document/value.rs:182-232 | on values without floats and blob links the order is total |
| ValueOrder.NumbersTotalIff | src/document/value.rs:195-199 | on a set of numbers the order is transitive if and only if no two of its integers round to one of its floats |
| ValueOrder.BinariesTotalIff | src/document/value.rs:201-230 | on a set of binaries and blob links it is transitive if and only if there is no link or at most one binary |
| ValueOrder.MixedNotTotal | src/document/value.rs:196-199 | two integers that round to one float are both equal to it and not to each other |
| ValueOrder.BlobsEqual | src/document/value.rs:201-229 | all blob links and binaries compare equal to a blob link |
| Pipeline.GroupRows | src/query/pipeline.rs:277-287 | on keys the order is transitive on: one group per key up to likeness, in key order, under the key of its first row, each with the folds over exactly its rows |
| Pipeline.PathSteps | src/document/hako_doc.rs:60-79 | a name is a top-level field, and behind a dot the path goes on in the map found there |
| Pipeline.LeavesOrderly | src/query/pipeline.rs:277-287 | keys built from leaves that do not clash are such keys |
| Pipeline.PushAll | src/query/pipeline.rs:284-286 | every accumulator of a group takes the row |
| PipelineStages.GroupKeys | src/query/pipeline.rs:277-287 | no two groups have alike keys, every group has a key that occurs, and every row has a group |
| PipelineStages.CountsConserved | src/query/pipeline.rs:129-166 | the counts of the groups add up to the number of rows |
| PipelineStages.SumsConserved | src/query/pipeline.rs:124-187 | without saturation the integer sums of the groups add up to the ungrouped sum |
| PipelineStages.SumsConservedIff | src/query/pipeline.rs:124-187 | over numbers that are not negative they do if and only if the ungrouped sum does not saturate or one group has all of it |
| PipelineStages.FoldSum | src/query/pipeline.rs:138-143 | without saturation an integer sum is the sum |
| PipelineStages.FoldSumClamped | src/query/pipeline.rs:138-143 | over numbers that are not negative an integer sum is the sum, or the greatest integer if that is exceeded |
| PipelineStages.SumSaturates | src/query/pipeline.rs:138-143 | two rows with the greatest integer sum to the greatest integer |
| PipelineStages.SumExact | src/query/pipeline.rs:137-176 | a sum is the integer sum over integers and the float sum as soon as a float takes part |
| PipelineStages.AvgExact | src/query/pipeline.rs:137-182 | an average is the float sum over the count of numbers, or null |
| PipelineGroups.MinExact | src/query/pipeline.rs:151-155 | on values the order is transitive on, the minimum is one of them and none is below it |
| PipelineGroups.MaxExact | src/query/pipeline.rs:156-160 | on values the order is transitive on, the maximum is one of them and none is above it |
| PipelineGroups.MinNull | src/query/pipeline.rs:151-183 | a minimum is null exactly when no row has the field or some row has null in it |
| PipelineGroups.MaxNull | src/query/pipeline.rs:156-184 | a maximum is null exactly when no row has anything but null in the field |
| PipelineGroups.ResultAnswers | src/query/pipeline.rs:169-187 | the result of a count, sum, average, minimum or maximum answers for the rows of its group: their number, their integer or float sum, that sum over the count of numbers, the least or the greatest value |
| PipelineRun.UnwoundSize | src/query/pipeline.rs:262-276 | unwinding yields one row per array element |
| PipelineRun.UnwoundLast | src/query/pipeline.rs:262-276 | a row without an array in the field yields nothing, one with it a copy per element that differs in that field only |
| PipelineRun.WithItemExact | src/query/pipeline.rs:269-273 | an unwound row differs from its source in the one field, which holds the element |
| PipelineRun.UnwindStage | src/query/pipeline.rs:262-276 | the nested loops unwind the rows in order |
| PipelineRun.SortExact | src/query/pipeline.rs:249-257 | on keys the order is transitive on, the sort orders the rows, loses none and keeps rows with alike keys as they were |
| PipelineRun.SortArranged | src/query/pipeline.rs:249-257 | the sorted rows are the rows in the order of the sort field, ascending or descending, rows that tie staying as they were |
| PipelineRun.ArrangedIs | src/query/pipeline.rs:249-257 | rows arranged by id or stamp ascend in it, and by another field those without it come first |
| PipelineGroups.GroupFieldAt | src/query/pipeline.rs:288-301 | a group row holds the result of every accumulator whose output name is not used again |
| PipelineGroups.OutReported | src/query/pipeline.rs:277-303 | the output rows stand in key order, one per key up to likeness, each under the key and id of its group with every accumulator answering for the members |
| PipelineGroups.OutCounts | src/query/pipeline.rs:277-303 | the count fields of the output rows add up to the number of input rows |
| PipelineGroups.GroupStage | src/query/pipeline.rs:277-303 | on keys the order is transitive on, the output rows report the groups, read field by field |
| PipelineRun.RunStages | src/query/pipeline.rs:224-307 | refuses exactly pipelines with a match stage; otherwise each stage turns the rows into what it specifies: limit and offset cut at the count, sort arranges, unwind copies, group reports and project prunes |

## Left out

- AVX2 kernels: the scalar kernels are modelled; the sums are over exact reals, so rounding is not.
- HNSW recall and connectivity above "no isolated node on level 0": link shrinking is one-sided, so neither is guaranteed.
- `random_level`, the resident-size estimate and the persistence of the vector index.
- Blobs: extraction on ingest, inflation on send and pending blob entries; documents are stored inline.
- Index notification, watchers, version bumps and caches after an ingest.
- The mesh plane (`src/net_sync.rs`) and the relay, encryption and peer-capability rules of the cloud plane.
- The catch-up page cache, which can serve packets built for another client stamp.
- The hello and index-definition exchange of a connection, sockets, timers and TLS.
- Reset or rewrite of a log in the state machine: logs only grow there.
- Puts into segments and blobs in the state machine and in `EchoMarks.SentExact`; a single tail round handles them (`SyncCore.Shard.Tail`).
- Per-key local-only marks on ingest: they filter only what is sent.
- Write-path checks of the engine: schema, unique indexes, security rules, generated ids and patches.
- The purge of old tombstones and the listing calls of the retention queue.
- Traversal over references; only the backlink index is modelled.
- The order in which evicted records are handed to the delete chunks: age order here, hash order in the source.
- Equality of strings under Unicode normalisation, and a proof that UTF-8 order is scalar order.
- Grouping and sorting by keys on which the order of values is not transitive: what a B-tree or a sort does then is not specified.
- Fts, composite and vector backfill, the borrowed number reader, `decode_scalar_as_f64`, page and plan caches, schema, configuration and foreign-function code: easy members or plumbing.
- PipelineStages.SumsConserved: one direction only, because saturation at both ends can cancel out; `PipelineStages.SumsConservedIff` is exact for numbers that are not negative.
- JsonProofs.ViewAgrees: the members of a nested map that repeats a key are ordered by a stable sort, which the source does not promise.
- JsonProofs.ViewDocAgrees: likewise for repeated nested keys.
- HnswIndex.HnswIndex.Search: does not promise the nearest vectors, because the graph search is approximate.
