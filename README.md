# RecordDecoderV1 row decoder, modelled in Dafny

This project models `RecordDecoderV1`, the decoder that turns a stored row into a vector of
optional column values. A row is a pair of byte strings, driven by an ordered schema list:

- **Key bytes:** a namespace byte, an 8-byte common id, the key columns, 3 reserved bytes and
  a trailing codec-version byte.
- **Value bytes:** a leading 4-byte schema version, then the value columns.

The model covers:

- **Header checks.** `CheckPrefix`, `CheckReverseTag` and `CheckSchemaVersion` gate every
  decode, and `GetCodecVersion` reads the version byte.
- **Type dispatch.** The per-type decode-or-skip routines sit in a 12-entry table, and
  `DecodeOrSkip` indexes it by the column's type ordinal.
- **The three entry points.**
  - Full decode: every live column goes to its own output slot.
  - Key-only decode: every live key column goes to its position in the schema list.
  - Projected decode: each requested column goes to the output slot that requested it. The
    requests are paired with their slots, sorted, and matched in one linear pass that stops
    once every request is met. Columns after the last requested one are never read, so they
    cannot make the decode fail.

Layout:

| file | module | contents |
|---|---|---|
| `results.dfy` | `Results` | `Option`, and `Result`, whose `Overrun` is the cursor's exception for a read past the bytes |
| `bytes.dfy` | `Bytes` | big-endian integer decoding; `Buf`, the byte cursor with its forward head and reverse tail |
| `schema.dfy` | `Schema` | type kinds and the dispatch table, decoded values, column schemas, the output `Record` |
| `dispatch.dfy` | `Dispatch` | one column's decode or skip (`Consume`, `ColumnStep`), `CastAndDecodeOrSkip`, `DecodeOrSkip` |
| `planner.dfy` | `Projection` | the projection plan, its sort, `IsSkipOnly` |
| `passes.dfy` | `Passes` | the three passes over the schema list as functions, with lemmas on what they write |
| `record_decoder.dfy` | `RecordDecoder` | the header specifications, the three decode specifications, the `RecordDecoderV1` class |
| `properties.dfy` | `DecoderProperties` | properties of the entry points: rejection, forward compatibility, agreement between the decodes |

How the model is built:

- **The class.** `RecordDecoderV1` is a class whose methods drive two `Buf` cursors and
  resize and write a caller-owned `Record` in place.
- **Loops tied to specifications.** Each loop carries an invariant tying the remaining work to
  a specification function over the schema list: `FullFrom`, `KeyFrom` or `ProjFrom`.
- **Per-column reference.** `Walk` reads the values of the live columns in list order. Every
  pass is related to it by lemmas.

Modelling choices that the code decides:

- **Dropped entries and request numbers.** A projection request numbers the live columns
  only: the counter `m` moves only inside `if (bs)` (record_decoder.cc:238-239), so dropped
  entries are not counted.
  - A request `k` names the `k`-th live column.
  - `DroppedEntryIsNotNumbered` shows the consequence: behind a dropped entry, a request for
    a live column's list position is never met.
- **Key-only decode slots.** Key-only decode stores each key column at its list position,
  counting dropped entries. It does not use the column's own output index.

## Model

| member | source | states |
|---|---|---|
| Schema.KindOf | src/serial/record/record_decoder.cc:58-71 | table entry `t` handles the type of ordinal `t`; `Ordinal` maps the type back to `t` |
| Schema.Ordinal | src/serial/record/record_decoder.cc:58-71 | each of the 12 types has an ordinal below 12, and the table entry there is that type |
| Schema.ReadField | src/serial/record/record_decoder.cc:47-52 | a typed decode succeeds iff the column's field is readable at the cursor; it yields that field's value and advances the head by its width |
| Schema.SkipField | src/serial/record/record_decoder.cc:41-43 | a typed skip advances the head by exactly the width a decode would consume, and yields no value |
| Schema.Resized | src/serial/record/record_decoder.cc:145 | resizing keeps the first slots, creates unset slots beyond the old size, and has the new length |
| Schema.Record.Resize | src/serial/record/record_decoder.cc:145 | the record becomes its old slots resized to the new length |
| Schema.Record.Put | src/serial/record/record_decoder.cc:47 | a bounds-checked store changes exactly slot `s` |
| Dispatch.Consume | src/serial/record/record_decoder.cc:39-55 | a key column reads only the key cursor; a value column reads only the value cursor; a value column at the end of the value bytes yields the absent value of its type and does not move; every value has the column's type |
| Dispatch.CastAndDecodeOrSkip | src/serial/record/record_decoder.cc:32-56 | cursors and record end as `ColumnStep` says: a decode stores the value in the given slot, a skip stores nothing, both move the same cursor equally, and the other cursor is untouched |
| Dispatch.DecodeOrSkip | src/serial/record/record_decoder.cc:119-124 | the table entry selected by the type ordinal has the same effect as `CastAndDecodeOrSkip` for that column's own type |
| Projection.SortPermutes | src/serial/record/record_decoder.cc:225 | sorting the plan only reorders it (same multiset) |
| Projection.SortOrders | src/serial/record/record_decoder.cc:225 | sorting a plan with no repeated pairs gives strictly increasing pairs |
| Projection.PlanCoversEachSlotOnce | src/serial/record/record_decoder.cc:216-225 | the sorted plan has one entry per request; each entry pairs a slot with that slot's request; every slot appears, and appears exactly once |
| Projection.BuildPlan | src/serial/record/record_decoder.cc:216-225 | the plan built by pushing `(request, slot)` pairs and sorting is the sorted pair list, strictly increasing, covering every slot |
| Projection.IsSkipOnly | src/serial/record/record_decoder.cc:186-200 | `m` always advances by one; the column is skipped iff the next unmet request differs from `m`; on a match `n` advances and the output slot becomes that request's slot, otherwise both stay |
| Passes.Walk | src/serial/record/record_decoder.cc:146-150 | the walk yields one value per live column of the list |
| Passes.FullFrom | src/serial/record/record_decoder.cc:146-150 | full decode keeps the record's length and leaves every slot that no remaining live column names unchanged |
| Passes.KeyFrom | src/serial/record/record_decoder.cc:170-176 | key-only decode keeps the length, leaves every slot that is not a live key column's list position unchanged, and gives every key slot a value of its column's type |
| Passes.ProjFrom | src/serial/record/record_decoder.cc:233-243 | the matching pass keeps the record's length and leaves every slot that no unmet request names unchanged |
| Passes.RankExtend | src/serial/record/record_decoder.cc:238-239 | the live-column number grows by one exactly at live entries; it is the invariant of `m` in the matching loop |
| Passes.FullFromWrites | src/serial/record/record_decoder.cc:145-150 | full decode succeeds iff the walk does; each live column's output slot then holds that column's value from the walk |
| Passes.FullShift | src/serial/record/record_decoder.cc:146-150 | a live column in front shifts every later live column's walk position by one; its own slot holds walk value 0 |
| Passes.KeyFromAgreesWithWalk | src/serial/record/record_decoder.cc:169-176 | key-only decode succeeds whenever the walk over the same key bytes does; each key column's list position then holds the value the walk reads for it |
| Passes.KeyShift | src/serial/record/record_decoder.cc:170-176 | a live column in front shifts every later key column's walk position by one; a key column in front is walk value 0 |
| Passes.KeyFromIgnoresValue | src/serial/record/record_decoder.cc:173 | key-only decode does not depend on the value bytes |
| Passes.WalkPrefixOfWalk | src/serial/record/record_decoder.cc:235-236 | whenever every live column can be read, so can the first `count` of them, and they read the same values |
| Passes.ProjFromWrites | src/serial/record/record_decoder.cc:233-243 | with increasing requests that name live columns ahead and end at the `count`-th of them, the matching pass succeeds exactly when those `count` live columns can be read, whatever follows them, and then stores each request's live-column value in the request's slot |
| Passes.PlanAheadAfterMatch | src/serial/record/record_decoder.cc:193-197 | after a match the remaining requests name the live columns after `m`, end one column sooner, and never name the matched slot again |
| Passes.PlanAheadAfterSkip | src/serial/record/record_decoder.cc:198-199 | after a skip the same requests name the live columns after `m` and end one column sooner |
| Passes.ShiftWrites | src/serial/record/record_decoder.cc:238-239 | a live column in front of the walk renumbers every pending request down by one, so each still names the same value |
| Passes.WalkFollowsKeyAtValueEnd | src/serial/record/record_decoder.cc:39-55 | once the value bytes are used up, the walk succeeds whenever key-only decode of the same key bytes does |
| Passes.WalkPastValueEnd | src/serial/record/record_decoder.cc:49-50 | once the value bytes are used up, every later live value column yields the absent value of its type |
| RecordDecoder.GetCodecVersion | src/serial/record/record_decoder.cc:117 | returns the last byte before the tail, as 0..255, without moving the cursor; fails iff nothing is left |
| RecordDecoder.RecordDecoderV1.constructor | src/serial/record/record_decoder.cc:81-97 | stores the schema version, schema list, common id, byte-order flag and the codec version 1 |
| RecordDecoder.RecordDecoderV1.CheckPrefix | src/serial/record/record_decoder.cc:99-103 | consumes exactly 9 head bytes, and returns true iff the 8-byte integer after the namespace byte equals the common id |
| RecordDecoder.RecordDecoderV1.CheckReverseTag | src/serial/record/record_decoder.cc:105-111 | returns true iff the last byte is at most the codec version; on success 4 tail bytes are consumed, on failure only 1 |
| RecordDecoder.RecordDecoderV1.CheckSchemaVersion | src/serial/record/record_decoder.cc:113-115 | consumes 4 head bytes, and returns true iff the stored schema version is at most the decoder's |
| RecordDecoder.RecordDecoderV1.Decode | src/serial/record/record_decoder.cc:126-153 | the outcome and the new record are those of `FullDecode`: checks in order, -1 with the record untouched on rejection, else the record resized and every live column decoded into its slot, returning 0 |
| RecordDecoder.RecordDecoderV1.DecodeKey | src/serial/record/record_decoder.cc:155-179 | the outcome and the new record are those of `KeyDecode`: the two key checks, then the key columns decoded at their list positions from the key cursor alone |
| RecordDecoder.RecordDecoderV1.DecodeProjection | src/serial/record/record_decoder.cc:202-244 | the outcome and the new record are those of `ProjectedDecode`: the three checks, the record resized to the request count, and the matching pass with the sorted plan |
| RecordDecoder.RecordDecoderV1.DecodeColumns | src/serial/record/record_decoder.cc:146-150 | the loop over the schema list succeeds iff `FullFrom` from the cursors' positions does, and then leaves the record as `FullFrom` computes |
| RecordDecoder.RecordDecoderV1.DecodeKeyColumns | src/serial/record/record_decoder.cc:170-176 | the loop succeeds iff `KeyFrom` from the key cursor's position does, and then leaves the record as `KeyFrom` computes |
| RecordDecoder.RecordDecoderV1.DecodeMatching | src/serial/record/record_decoder.cc:233-243 | the loop computes `ProjFrom` from the cursors' starting positions, with `m` equal to the number of live entries passed |
| DecoderProperties.RejectionLeavesRecordUntouched | src/serial/record/record_decoder.cc:130-143 | both row decodes return -1 exactly when a header check rejects, with the record as it was; a -1 from either always means a rejection; otherwise 0 or an overrun |
| DecoderProperties.KeyRejectionLeavesRecordUntouched | src/serial/record/record_decoder.cc:159-167 | key-only decode returns -1 exactly when a key check rejects, with the record as it was; a -1 always means a failed key check; otherwise 0 or an overrun |
| DecoderProperties.ForeignKeyRejected | src/serial/record/record_decoder.cc:130-133 | a key with another common id is rejected by all three decodes, whatever the value bytes hold |
| DecoderProperties.NewerCodecRejected | src/serial/record/record_decoder.cc:135-138 | a key with a newer codec version is rejected by all three decodes, whatever the value bytes hold |
| DecoderProperties.NewerSchemaRejected | src/serial/record/record_decoder.cc:140-143 | a newer stored schema version is rejected by both row decodes; key-only decode, when it does not overrun, returns 0 |
| DecoderProperties.FullDecodeWritesEveryLiveColumn | src/serial/record/record_decoder.cc:145-152 | for an accepted row, full decode succeeds iff every live column is readable; the record then has one slot per entry, each live column's slot holds its value, of its type, and every other slot keeps its resized contents |
| DecoderProperties.WalkTyped | src/serial/record/record_decoder.cc:37-38 | every value read for a live column has the column's type |
| DecoderProperties.HeaderOnlyValueDecodesAbsent | src/serial/record/record_decoder.cc:49-50 | value bytes holding only the schema version decode exactly when key-only decode of the same key does, and then every live value column holds the absent value of its type |
| DecoderProperties.KeyDecodeMatchesFullDecode | src/serial/record/record_decoder.cc:169-176 | after a successful full decode, key-only decode of the same key succeeds; each key column's list position holds what full decode wrote to that column's slot; other slots keep their resized contents |
| DecoderProperties.ProjectionDecodesRequestedColumns | src/serial/record/record_decoder.cc:233-243 | with distinct requests naming live columns, projected decode succeeds exactly when the live columns up to the highest request can be read, whatever follows them, and then output slot `j` holds the value of live column `columnIndexes[j]` |
| DecoderProperties.Reach | src/serial/record/record_decoder.cc:235-236 | one past the highest request: above every request, and equal to one past some request when there are any |
| DecoderProperties.DistinctRequestsIncrease | src/serial/record/record_decoder.cc:216-225 | distinct requests sort into a plan whose requests strictly increase and name distinct slots |
| DecoderProperties.PlanEndsAtReach | src/serial/record/record_decoder.cc:216-225 | the last entry of an increasing plan holds the highest request |
| DecoderProperties.DistinctRequestsPlanAhead | src/serial/record/record_decoder.cc:216-225 | distinct non-negative requests give a sorted plan whose requests strictly increase, name distinct slots and end at the highest request |
| DecoderProperties.ProjectionMatchesFullDecode | src/serial/record/record_decoder.cc:202-244 | with distinct requests naming live columns, projected slot `j` equals what a successful full decode writes for the live column numbered `columnIndexes[j]` |
| DecoderProperties.DroppedEntryIsNotNumbered | src/serial/record/record_decoder.cc:238-239 | behind a dropped entry the live column is request 0; a request for its list position 1 leaves the slot unset |

## Left out

- **Schema normalisation and host byte order.** `FormatSchema` and `IsLE` (lines 77 and 94)
  are defined outside this file. The schema list is taken as already normalised, and the
  byte-order flag is a constructor parameter. The two constructors become one that takes the
  flag.
- **The byte layouts of `Buf`.** The model reads integers as big-endian two's complement
  whatever the flag says, because the cursor's byte order is not part of this model. Forward
  reads are bounded by the end of the bytes and reverse reads by their start, each on its own.
  `IsEnd` is taken to mean the head has reached the end of the bytes.
- **The typed schemas.** Decode, skip and the byte layout of strings and lists are a
  `FieldReader` parameter. It is only assumed to consume no more than the bytes it is given,
  to yield values of the column's type, and to skip as much as it decodes.
- **Floating-point values.** They are kept as raw bit patterns, with no float semantics.
- **Runtime typing.** `std::any`, `shared_ptr` and `dynamic_pointer_cast` become the closed
  `Datum` datatype, one variant per type, each with an optional payload.
- **The `KeyValue` overloads** (lines 181-184 and 246-251). They only forward to the
  string overloads.
- **Thread safety.** The claim that decoding is thread-safe is outside the model. Concurrency
  is not modelled.
- **Fixed-width counters.** Overflow of the `int32_t` counters `n` and `m` and of the
  `(int32_t)` size cast is not modelled. Counters are unbounded integers.
- **The codec version.** `codec_version_` is initialised in `record_decoder.h`, which is not
  part of this model. The model fixes it at 1.
- RecordDecoder.RecordDecoderV1.constructor: requires every live column's type ordinal to be
  below 12 and its output slot to be below the schema count. This excludes the
  out-of-bounds table index and the `std::out_of_range` from `record.at` that full decode
  would otherwise raise, instead of modelling them.
- DecoderProperties.FullDecodeWritesEveryLiveColumn: assumes no two live columns share an
  output slot. Otherwise the later column overwrites the earlier, and the lemma does not
  describe that case.
- DecoderProperties.ProjectionDecodesRequestedColumns: covers only distinct requests that
  each name a live column. Other requests are never met, and neither is any request sorted
  after them. A repeated request is met only for its first slot; its second copy is never
  met, so it also blocks every request sorted after it (requests `[5, 5, 7]` leave slots 1
  and 2 unset). A negative request blocks every request. Unmet slots keep their resized
  contents. These cases are modelled by `ProjFrom` but not stated as lemmas, apart from
  `DroppedEntryIsNotNumbered`.
