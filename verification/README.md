# Talaria, verified

Talaria is a columnar time-series store. Clients intern the strings of their events and send batches in the Protocol
Buffers wire format. The server turns events and files into blocks of columns, keeps the blocks in an ordered key-value
store under keys of (hash, second, sequence number), serves queries page by page from range scans over those keys, and
compacts small blocks into larger files. This project models those paths in Dafny and proves what each is for.

## How the files fit together

| file | what it covers |
|---|---|
| Bytes.dfy, Orders.dfy | byte strings in the order of `bytes.Compare`, big-endian numbers; Go maps visited in any order |
| Varints.dfy, Wire.dfy, Messages.dfy, Marshal.dfy, Unmarshal.dfy | the wire codec of `Batch`, `Event` and `Value` |
| LaterSchemas.dfy | batches from a sender with a later schema |
| Keys.dfy, Disk.dfy, Timeseries.dfy | keys and queries, the ordered store, paged scans |
| Schemas.dfy, Compaction.dfy, CompactionProtocol.dfy, MergeOrc.dfy | schema algebra, the grouping scan, the write-then-delete protocol, merged output |
| ColumnData.dfy, ColumnSets.dfy, Blocks.dfy | columns, sets of ragged columns, the block layout |
| Chunking.dfy, Interning.dfy | size-bounded partitioned ingestion, string interning and its undoing |
| TimeUnits.dfy, IngestPermits.dfy | time-unit inference, the permit-limited ingest workers |

Conventions. Loops are methods proved against functions; the functions carry the lemmas. A callback that updates captured
variables is a step function over an explicit state. A Go map iteration picks any remaining key, so every result holds for
every order. Concurrency is a relation between states, one step at a time, and the results hold for every sequence of steps.
`hide` keeps definitions a proof does not need out of the solver's way.

## Main results

- **Wire codec.** For every batch, whatever the map orders, marshalling fills exactly `Size()` bytes and unmarshalling gives
  the batch back (`Marshal.MarshalNew`, `Marshal.BatchRoundTrip`, `Unmarshal.UnmarshalBatch`). Unknown fields, nested groups
  included, change nothing, at whatever level they stand (`Wire.SkipField`, `LaterSchemas.LaterBatchDecodes`,
  `LaterSchemas.UnknownFieldsAreTransparent`).
- **Paged scan.** Following tokens yields the in-order concatenation of every readable block in range
  (`Timeseries.PagesRefineScan`), and ends if and only if every block is smaller than the budget (`Timeseries.PagingEndsIff`).
  What is in range is exactly hash and half-open seconds (`Keys.IndexScanExact`). From blocks as they were written to the
  rows a client sees: `Timeseries.PagesShowBlocks`.
- **Compaction.** Groups conserve the decodable prefix and are greedy; one hash per group and a covering schema are each
  characterised exactly (`Compaction.OneHashIff`, `Compaction.CoverIff`). In every interleaving no block is lost
  (`CompactionProtocol.NoBlockLost`), and exactly which appends keep it so is told by `CompactionProtocol.SafeIffHarmless`.
  An undisturbed run writes each block exactly once (`CompactionProtocol.LoneRunIsExact`).
- **Columns.** A row is added rightly if and only if it is aligned (`ColumnSets.RowAddedIff`); columns are the transpose of
  rows, with pre-made columns, with new ones, and in any map order when all rows bring the same new ones
  (`ColumnSets.ColumnsAreTranspose`, `ColumnSets.AlignedRowsAreTranspose`, `ColumnSets.SteadyRowsAreTranspose`).
- **Blocks.** Reading a written block under any schema gives exactly the view described by `Blocks.ReadExact`.
- **Ingestion.** For every filter and every file, the blocks of each flush are its rows added to fresh columns, and the
  flush is below the limit but for its last row (`Chunking.FromCsvBy`). When the rows are aligned the blocks hold each
  partition's rows in order (`Chunking.AlignedFileConserved`); that covers static schemas and dynamic ones
  (`Chunking.SteadyFileConserved`, `Chunking.DynamicFileConserved`). Interning is undone by the server, also through the
  wire (`Interning.InterningUndone`, `Interning.EndToEnd`).

## Where a promised property fails

- Paging does not end when a block does not fit the budget: the token sticks at it (`Timeseries.OversizeNeverEnds`). Exact
  condition: `Timeseries.PagingEndsIff`.
- Hash 0 doubles as "no previous block" (internal/storage/compact/compact.go:111), so groups can mix hashes and clashing schemas
  (`Compaction.ZeroHashMixes`). Exact conditions: `Compaction.OneHashIff`, `Compaction.CoverIff`.
- A new column visited before any existing one puts its value into the previous row
  (`ColumnSets.NewColumnFirstIsShifted`). Exact condition: `ColumnSets.RowAddedIff`.
- An instant within the first unit of 2010, or the largest int64 as nanoseconds, is misread
  (`TimeUnits.WatermarkUnitMisread`). Exact condition: `TimeUnits.MarkerDecodedIff`.
- A query whose bounds lie on both sides of 1970 does not cover its range. Exact condition: `Keys.SignedScanExact`.
- A key that is appended again can lose a block: at once, when the append replaces a block not yet written, or later,
  when a compaction that queued the key before the append deletes it afterwards, whether it had written its own block by
  then or not (`CompactionProtocol.ReusedKeyLosesBlock` is one such run). Exact condition:
  `CompactionProtocol.SafeIffHarmless`. Fresh keys meet it (`CompactionProtocol.FreshKeysLoseNothing`). `Keys.KeysDistinct`
  gives fresh keys within one process and 2^32 calls; the sequence number restarts at 0 with the process while the store
  persists, and the second of a key is the least timestamp of its block, so freshness across restarts is not proved.
- `Read` panics for a block of more than 25000 rows that lacks a desired column, or for a missing column of unsupported
  type (internal/column/null.go:29-31, 73); it is the third case of `Blocks.ReadExact`.

The comment of `Range` says the iteration stops when the callback returns false (internal/storage/disk/disk.go:166); the code
stops on true (line 189), and so does the model.

## Model

| member | source | states |
|---|---|---|
| `Varints.SovIsLength` | proto/talaria.pb.go:5206-5208 | `sovTalaria` is the length of the varint, for every value |
| `Varints.VarintRoundTrip` | proto/talaria.pb.go:5964-5977 | reading a varint of any uint64, followed by anything, gives its value (its low 32 bits in a 32-bit accumulator) and its length |
| `Varints.ReadVarintOfVarint` | proto/talaria.pb.go:5964-5977 | the same from any shift and accumulator: the value is or-ed in, shifted and cut to the width |
| `Varints.ReadVarintStable` | proto/talaria.pb.go:5964-5977 | a varint once decoded does not depend on what follows it |
| `Varints.EncodeVarint` | proto/talaria.pb.go:4599-4609 | fills exactly the `Sov` bytes before the offset with the varint and touches nothing else |
| `Varints.DecodeVarint` | proto/talaria.pb.go:5964-5977 | the shift loop from any index computes the decoding function, with its overflow and end-of-input errors |
| `Varints.ReadVarintRefuses` | proto/talaria.pb.go:5964-5977 | a varint that does not end is refused: at the end of the input, or as an overflow after ten bytes |
| `Wire.SkipTalaria` | proto/talaria.pb.go:9086-9163 | the loop computes the skip function on every input, errors included, and terminates |
| `Wire.PayloadExtent` | proto/talaria.pb.go:9106-9151 | the switch on the wire type moves the index by that payload's extent, or reports its error |
| `Wire.SkipField` | proto/talaria.pb.go:9086-9163 | skipping consumes exactly the extent of any well-formed field, balanced groups of any depth included, at any nesting |
| `Wire.SkipStable` | proto/talaria.pb.go:9086-9163 | a successful skip does not depend on what follows |
| `Wire.SkipRefuses` | proto/talaria.pb.go:9106-9157 | the two unknown wire types and an end of group without a beginning are refused |
| `Wire.ReadLengthRefuses` | proto/talaria.pb.go:6005-6016 | a length that is negative as an int64, or that the buffer does not have, is refused |
| `Wire.FieldsOfConcat` | proto/talaria.pb.go:5961-6155 | decoding a concatenation continues from the message decoded so far |
| `Messages.ValueRoundTrip` | proto/talaria.pb.go:6321-6502 | decoding what a `Value` encodes to gives the value, negative int32 as ten-byte varints included |
| `Messages.ValueStepRoundTrip` | proto/talaria.pb.go:3623-3707 | each oneof case is read back as that case with that payload, whatever follows and whatever was set before |
| `Messages.EventStepRoundTrip` | proto/talaria.pb.go:6185-6320 | a written map entry sets exactly its key to its value, nil values included, and is consumed whole |
| `Messages.BatchStepString` | proto/talaria.pb.go:5987-6100 | a written string entry sets exactly its key, empty strings included |
| `Messages.BatchStepEvent` | proto/talaria.pb.go:6101-6134 | a written event is appended to the events |
| `Messages.MapEntryStable` | proto/talaria.pb.go:6018-6096 | a decoded map entry does not depend on what follows the message, though its reads are bounded only by the message |
| `Messages.ValueStepIsStable` | proto/talaria.pb.go:6321-6502 | no field of a `Value` looks past its own extent |
| `Messages.EventStepIsStable` | proto/talaria.pb.go:6156-6320 | no field of an `Event` looks past its own extent |
| `Messages.BatchStepIsStable` | proto/talaria.pb.go:5958-6155 | no field of a `Batch` looks past its own extent |
| `Messages.BatchRefuses` | proto/talaria.pb.go:5979-5990 | an end of group, a field number that is not positive and a known field of the wrong wire type are refused, each with its error |
| `Messages.EventRefuses` | proto/talaria.pb.go:6177-6188 | the same inside an `Event` |
| `Messages.ValueRefuses` | proto/talaria.pb.go:6342-6353 | the same inside a `Value`, for each of its seven fields, and a double cut short |
| `Messages.ValueExamples` | proto/talaria.pb.go:3623-3707 | the exact bytes of one value of each case, a negative int32 in ten |
| `Messages.StringEntryExamples` | proto/talaria.pb.go:3516-3536 | the exact bytes of a string entry, and of one whose empty value is not sent |
| `Messages.ValueEntryExamples` | proto/talaria.pb.go:3560-3582 | the exact bytes of a value entry, and of one whose value is nil |
| `Messages.UnknownInBatch` | proto/talaria.pb.go:6135-6147 | an unknown field after any decodable prefix leaves the result unchanged, errors of the rest included |
| `Messages.UnknownInEvent` | proto/talaria.pb.go:6300-6312 | the same inside an `Event` |
| `Messages.UnknownInValue` | proto/talaria.pb.go:6482-6494 | the same inside a `Value` |
| `Messages.UnknownInMapEntry` | proto/talaria.pb.go:6084-6098 | the same at any point of a map entry |
| `Marshal.ValueSizeIsLength` | proto/talaria.pb.go:4738-4812 | `Value.Size` is the length of its encoding |
| `Marshal.EventSizeIsLength` | proto/talaria.pb.go:4716-4736 | `Event.Size` is the length of every encoding, whichever orders the two visit the map in |
| `Marshal.BatchSizeIsLength` | proto/talaria.pb.go:4689-4714 | `Batch.Size` is the length of every encoding |
| `Marshal.EventRoundTrip` | proto/talaria.pb.go:6156-6320 | unmarshalling any encoding of an event gives the event |
| `Marshal.BatchRoundTrip` | proto/talaria.pb.go:5958-6155 | unmarshalling any encoding of a batch, in any map orders, gives the batch |
| `LaterSchemas.PiecesDecode` | proto/talaria.pb.go:5961-6155 | a message that is any run of known parts and unknown fields decodes to what its known parts say |
| `LaterSchemas.LaterValueDecodes` | proto/talaria.pb.go:6321-6502 | a value with unknown fields around it decodes to the last case that was set |
| `LaterSchemas.EntryReads` | proto/talaria.pb.go:6018-6098 | a map entry with unknown fields before, between and after its key and value gives that key and value |
| `LaterSchemas.LaterEventDecodes` | proto/talaria.pb.go:6156-6320 | an event with unknown fields between its entries and inside them decodes to its entries |
| `LaterSchemas.LaterBatchDecodes` | proto/talaria.pb.go:5958-6155 | a batch with unknown fields at every level, length prefixes included, parts in any order, decodes to its known parts |
| `LaterSchemas.UnknownFieldsAreTransparent` | proto/talaria.pb.go:6135-6147 | taking all unknown fields out, at every level, does not change what is decoded |
| `LaterSchemas.WireIsPieces` | proto/talaria.pb.go:3498-3584 | every encoding the marshaller can write is of that form and means its batch |
| `Marshal.SizeOfEvent` | proto/talaria.pb.go:4716-4736 | the summing loop gives the order-independent size |
| `Marshal.SizeOfBatch` | proto/talaria.pb.go:4689-4714 | the summing loops give the order-independent size |
| `Marshal.MarshalValue` | proto/talaria.pb.go:3601-3707 | writes the value's encoding just before the offset and touches nothing else |
| `Marshal.MarshalStringEntry` | proto/talaria.pb.go:3516-3536 | prepends one string entry to what is already written |
| `Marshal.MarshalValueEntry` | proto/talaria.pb.go:3562-3583 | prepends one value entry to what is already written |
| `Marshal.MarshalEvent` | proto/talaria.pb.go:3554-3584 | fills exactly the event's size with an encoding of it, in whatever order the map comes |
| `Marshal.MarshalEvents` | proto/talaria.pb.go:3503-3515 | the backward loop leaves the events in their order |
| `Marshal.MarshalStrings` | proto/talaria.pb.go:3516-3536 | every string entry once, in some order |
| `Marshal.MarshalBatch` | proto/talaria.pb.go:3498-3537 | fills exactly `Size()` bytes with an encoding of the batch, leaving the rest of the buffer alone |
| `Marshal.MarshalNew` | proto/talaria.pb.go:3483-3496 | the bytes returned are `Size()` long and decode to the same batch |
| `Unmarshal.MapEntryAt` | proto/talaria.pb.go:6018-6096 | the inner loop over a map entry computes the entry function from any offset |
| `Unmarshal.UnmarshalValue` | proto/talaria.pb.go:6321-6502 | the index loop computes the decoding function on every input, errors included up to the kind of a length overflow |
| `Unmarshal.UnmarshalEvent` | proto/talaria.pb.go:6156-6320 | the same for events |
| `Unmarshal.UnmarshalBatch` | proto/talaria.pb.go:5958-6155 | the same for batches |
| `ByteStrings.BetweenSharesPrefix` | internal/encoding/key/key.go:46-63 | every string between two others starts with their common prefix, for any lengths |
| `ByteStrings.CommonPrefixIsLongest` | internal/encoding/key/key.go:46-63 | exactly what starts both strings starts their common prefix |
| `ByteStrings.BigEndianOrder` | internal/encoding/key/key.go:24-30 | byte order on big-endian numbers followed by anything is numeric order, then the order of the tails |
| `Keys.Generator.New` | internal/encoding/key/key.go:24-30 | the key of hash, second and the incremented, wrapping sequence number |
| `Keys.KeyOrder` | internal/encoding/key/key.go:24-30 | byte order on keys is numeric order on (hash, seconds, sequence), both ways |
| `Keys.HashOfKey` | internal/encoding/key/key.go:33-35 | `HashOf` recovers the hash a key was made with |
| `Keys.KeysDistinct` | internal/encoding/key/key.go:24-30 | any two of 2^32 consecutive keys differ, though the counter wraps |
| `Keys.PrefixOf` | internal/encoding/key/key.go:46-63 | the loop computes the longest common prefix |
| `Keys.FirstToLastIsEverything` | internal/encoding/key/key.go:66-77 | no 16-byte key lies outside `First()` and `Last()` |
| `Keys.NewQuery` | internal/table/timeseries/query.go:42-49 | the bounds are twelve-byte prefixes, two sequence numbers are spent |
| `Keys.IndexScanExact` | internal/table/timeseries/query.go:42-49 | a key is in the byte range if and only if its hash is the query's and from <= seconds < until |
| `Keys.SignedScanExact` | internal/table/timeseries/query.go:42-49 | with signed bounds the scan is right for every stored time if and only if both bounds have the same sign or the upper one is 0 |
| `Disk.Storage.Append` | internal/storage/disk/disk.go:148-163 | on success the key's entry is set or replaced in order and nothing else changes; a failed update and a closed store change nothing |
| `Disk.VisibleIs` | internal/storage/disk/disk.go:173-194 | what a scan visits is sorted and is exactly the fetchable entries of the interval |
| `Disk.Storage.Range` | internal/storage/disk/disk.go:168-195 | seeking within the common prefix calls back exactly as a scan of the whole interval would, until the callback answers true |
| `Disk.Storage.Delete` | internal/storage/disk/disk.go:226-261 | success removes all given keys and no others; failure removes exactly a prefix of the list, whatever the transactions answer |
| `Timeseries.Table.GetRows` | internal/table/timeseries/timeseries.go:180-246 | an unknown column is reported first, then an undecodable split, then a closed store; otherwise blocks are read for exactly the requested names with the table's types, and column j of the page has the type the table gives its name |
| `Timeseries.PageScan` | internal/table/timeseries/timeseries.go:207-232 | the callback consumes blocks while they fit, collects the readable non-empty ones, and leaves the token at the first that does not fit |
| `Timeseries.PageIs` | internal/table/timeseries/timeseries.go:205-245 | a page is, column by column, the concatenation of the blocks it consumed, and its token is the next block |
| `Timeseries.PageIsGreedy` | internal/table/timeseries/timeseries.go:213-216 | a page is cut only at a block that does not fit beside those before it |
| `Timeseries.Resume` | internal/storage/disk/disk.go:173-194 | seeking to the n-th visible key shows exactly what was visible from there on |
| `Timeseries.PagesRefineScan` | internal/table/timeseries/timeseries.go:180-246 | when the tokens have run out, the pages joined are every readable non-empty block in range, in order, no row lost or repeated |
| `Timeseries.TokenAdvances` | internal/table/timeseries/timeseries.go:213-216 | when every block fits, a page with a token leaves strictly fewer blocks to come |
| `Timeseries.FittingEnds` | internal/table/timeseries/timeseries.go:207-232 | when every block fits, one request more than there are blocks suffices |
| `Timeseries.OversizeNeverEnds` | internal/table/timeseries/timeseries.go:213-216 | with a block that does not fit, no number of requests ends |
| `Timeseries.PagingEndsIff` | internal/table/timeseries/timeseries.go:249-264 | following tokens ends if and only if every readable block in range is smaller than the budget |
| `Timeseries.PageShape` | internal/table/timeseries/timeseries.go:237-243 | a page is empty or smaller than the budget, and its columns have one row count |
| `Timeseries.QueryCovers` | internal/table/timeseries/query.go:42-49 | a query covers exactly the stored blocks of its hash whose second is in range |
| `Timeseries.BlockFramesAreGood` | internal/table/timeseries/timeseries.go:249-264 | frames read without a panic from blocks of even columns are as `PageShape` needs them |
| `Timeseries.BlockShows` | internal/encoding/block/block.go:37-71 | one block adds to a requested column its stored values, or nulls, or nothing when none of its columns survives |
| `Timeseries.PagesShowBlocks` | internal/table/timeseries/timeseries.go:180-264 | over written blocks, the joined pages are column by column what the blocks in range show under the requested schema, in key order |
| `Timeseries.TableShowsBlocks` | internal/table/timeseries/timeseries.go:185-243 | so for a table's requests, read with the types of its own schema, which every page has |
| `Schemas.Union` | internal/encoding/typeof/schema.go:71-86 | succeeds if and only if no column clashes; the result then covers both and has no other columns; otherwise the receiver |
| `Schemas.UnionOf` | internal/encoding/typeof/schema.go:71-86 | the loops compute it in any map order |
| `Schemas.Compare` | internal/encoding/typeof/schema.go:43-55 | the loop finds the desired columns that are absent or typed differently, in any map order; true if and only if the schema covers the desired one |
| `Schemas.ExceptOf` | internal/encoding/typeof/schema.go:58-67 | the loop keeps the columns whose name the other lacks, whatever the types and the map order |
| `Schemas.SplitByMisses` | internal/encoding/block/block.go:43-54 | what is left of a schema without its misses and the misses are disjoint, merge without a clash, and together cover what was desired |
| `Schemas.Columns` | internal/encoding/typeof/schema.go:33-40 | exactly the schema's names, in byte order |
| `Schemas.ColumnsUnique` | internal/encoding/typeof/schema.go:33-40 | that list does not depend on the map order |
| `Compaction.QueueOf` | internal/storage/compact/compact.go:87-137 | the groups hold all blocks before the first corrupt one, in order, keys beside blocks; each holds keys made with one hash if and only if no hash 0 is followed by another; nothing is queued only when the store is closed |
| `Compaction.QueueIsGrouping` | internal/storage/compact/compact.go:99-137 | the callback and the last merge compute the grouping of the blocks before the first corrupt one |
| `Compaction.PrefixIsGrouped` | internal/storage/compact/compact.go:99-104 | what is grouped is the longest prefix without a corrupt block |
| `Compaction.HashAtMade` | internal/storage/compact/compact.go:108 | the hash the scan compares is the one the key was made with |
| `Compaction.GroupsConserve` | internal/storage/compact/compact.go:99-137 | the groups concatenate to exactly the blocks grouped, keys parallel to blocks |
| `Compaction.OneHashIff` | internal/storage/compact/compact.go:107-111 | every group has one hash if and only if no block of hash 0 is followed by one of another hash |
| `Compaction.OneHashIffSorted` | internal/storage/compact/compact.go:107-111 | in key order: if and only if no hash is 0 or all are |
| `Compaction.OneHashIffMade` | internal/storage/compact/compact.go:107-119 | of keys made with given hashes: every group holds keys of a single hash if and only if no hash 0 is followed by another |
| `Compaction.OneHashIffMadeSorted` | internal/storage/compact/compact.go:107-119 | in key order: if and only if no key was made with hash 0, or all were |
| `Compaction.HashesApart` | internal/storage/compact/compact.go:108-119 | without hash 0, keys made with two different hashes are never in one group |
| `Compaction.ZeroHashMixes` | internal/storage/compact/compact.go:111-115 | a block of hash 0 and any next block form one group |
| `Compaction.GroupsSchemaFacts` | internal/storage/compact/compact.go:111-128 | every column of a group's schema comes from one of its blocks; the schema covers all its blocks or clashes with one |
| `Compaction.CoverIff` | internal/storage/compact/compact.go:111-128 | every group's schema covers all its blocks if and only if no clash hides in a run of hash 0 and the block after it |
| `Compaction.CutsJustified` | internal/storage/compact/compact.go:110-119 | two neighbouring groups are apart only for a hash change or a type clash |
| `CompactionProtocol.StepKeepsInv` | internal/storage/compact/compact.go:147-179 | every harmless append, scan, write, partial delete and failure keeps the invariant that no appended block is lost |
| `CompactionProtocol.ReachableInv` | internal/storage/compact/compact.go:87-179 | the invariant holds in every state of every interleaving |
| `CompactionProtocol.NoBlockLost` | internal/storage/compact/compact.go:87-186 | in every reachable state each block ever appended is still buffered or was in a successful `WriteBlock` |
| `CompactionProtocol.FreshKeysLoseNothing` | internal/storage/compact/compact.go:87-186 | so with keys never used before |
| `CompactionProtocol.SafeIffHarmless` | internal/storage/compact/compact.go:87-186 | no continuation of an append loses a block if and only if it replaces no other unwritten block and every task still to delete the key writes that very block first or it is written already |
| `CompactionProtocol.HarmfulLoses` | internal/storage/compact/compact.go:163-171 | any other append has a continuation without failures that loses a block |
| `CompactionProtocol.LoneRunIsExact` | internal/storage/compact/compact.go:87-186 | an undisturbed run writes each scanned block exactly once and leaves just what it did not scan and later appends |
| `CompactionProtocol.ReusedKeyLosesBlock` | internal/storage/compact/compact.go:163-171 | one losing run, step by step: a key appended again between a write and its delete |
| `MergeOrc.ToOrc` | internal/encoding/merge/orc.go:15-72 | one row per stored row, block after block, columns sorted by name: a cell is null exactly where the block lacks the column or stores a null, a timestamp in whole seconds, every other value as stored; a schema that does not parse or a writer that does not close fails; an empty schema panics at the first selectable block |
| `MergeOrc.WriteRows` | internal/encoding/merge/orc.go:54-63 | the nested loops hand over one row per stored row, each with one cell per name |
| `MergeOrc.ShownIs` | internal/presto/columns.go:767-772 | milliseconds become the whole seconds in them, toward zero; nulls and all other values stay |
| `MergeOrc.ChosenIs` | internal/encoding/merge/orc.go:37-47 | under a covering schema each column is the block's own or as many nulls as the block has rows |
| `MergeOrc.BlockRowsIs` | internal/encoding/merge/orc.go:31-63 | a written block contributes exactly the projection of its rows onto its columns that have the schema's name and type, and no rows when there are none |
| `MergeOrc.FittingIs` | internal/encoding/merge/orc.go:36-47 | columns of another type count as missing; what remains is covered by the schema and as long as the block |
| `MergeOrc.OutputIsProjection` | internal/encoding/merge/orc.go:30-64 | for any blocks and any schema, the merged output is the concatenation of the blocks' projections: null exactly where a block lacks a column of that name and type |
| `MergeOrc.CoveredIsKept` | internal/encoding/merge/orc.go:36-47 | when the schema covers a block, all its columns and all its rows are kept |
| `MergeOrc.OutputIsMerged` | internal/encoding/merge/orc.go:30-64 | cell by cell, the rows handed over are what the blocks were written of |
| `MergeOrc.UnreadableIsSkipped` | internal/encoding/merge/orc.go:31-34 | a block that cannot be selected adds nothing |
| `ColumnData.PackKeepsLayout` | internal/presto/presto.thrift:100-107 | sizes add up to the byte count and a null has size 0, for every list of optional strings |
| `ColumnData.JoinPack` | internal/presto/columns.go:414-434 | laying columns end to end lays their lists end to end |
| `ColumnData.PackAt` | internal/presto/columns.go:520-534 | the i-th string's flag, size and bytes lie after those of all rows before it |
| `ColumnData.VarcharSize` | internal/presto/columns.go:469-472 | `Size()` is the sum of what `Append` reports |
| `ColumnData.Varchar.Append` | internal/presto/columns.go:398-411 | the list grows by the value, and `Size()` by what is returned |
| `ColumnData.Varchar.AppendBlock` | internal/presto/columns.go:414-434 | the list grows by the lists of all blocks, in order |
| `ColumnData.Varchar.At` | internal/presto/columns.go:520-534 | the i-th value; nothing past the end |
| `ColumnData.Varchar.Last` | internal/presto/columns.go:437-446 | the final value |
| `ColumnData.Varchar.Range` | internal/presto/columns.go:490-518 | visits exactly the rows asked for, each with its own value, until the callback fails |
| `ColumnData.VisitSeesAll` | internal/presto/columns.go:490-518 | a callback that never fails sees each row asked for that there is, once, in order, with its value |
| `ColumnData.MinOf` | internal/presto/columns.go:229-243 | the least non-null value; none for an empty column, one of nulls, or one of MaxInt64 only |
| `ColumnSets.ColumnSet.MaxOf` | internal/column/column.go:70-77 | the length of a longest column |
| `ColumnSets.ColumnSet.constructor` | internal/column/column.go:30-40 | an empty column of its type for each name of the schema, and none without a schema |
| `ColumnSets.NamesMatch` | internal/column/column.go:14-19 | a valid name consists of letters, digits and underscores and does not start with a digit |
| `ColumnSets.LandsIs` | internal/column/column.go:43-67 | a value lands if and only if its name is valid and has a column or a supported type; it lands unchanged, and a new column takes the row's type |
| `ColumnSets.ColumnSet.Append` | internal/column/column.go:43-67 | bad names and unsupported types change nothing, a new column is backfilled to `Max()-1`; the set's size grows by what is returned |
| `ColumnSets.ColumnSet.Fill` | internal/column/column.go:89-98 | every column is filled with nulls to the longest; the set's size grows by what is returned |
| `ColumnSets.ColumnSet.AppendRow` | internal/encoding/block/row.go:64-69 | the row's values are appended in some map order |
| `ColumnSets.ColumnSet.AddRow` | internal/encoding/block/from_csv.go:80-82 | for any row the size returned is the growth; the row is added to an even table if and only if it was aligned in the order taken |
| `ColumnSets.RowAddedIff` | internal/column/column.go:43-67 | appending a row in a given order and filling up adds exactly that row if and only if the row is aligned |
| `ColumnSets.NewColumnFirstIsShifted` | internal/column/column.go:58-66 | a new column visited before the existing one gets its value one row early |
| `ColumnSets.PremadeAligned` | internal/column/column.go:30-40 | when every landing column is pre-made, every order is aligned |
| `ColumnSets.ColumnsAreTranspose` | internal/encoding/block/row.go:64-69 | over pre-made columns, any rows in any map orders: cell (i, c) is the i-th landing row's value for c, or null |
| `ColumnSets.AlignedRowsAreTranspose` | internal/column/column.go:43-98 | the same while aligned rows bring new columns: each has the type it first landed with and is null for every older row |
| `ColumnSets.SteadyRows` | internal/column/column.go:43-98 | rows that all bring the same new columns are aligned in any map orders, and what lands is told by the rows alone |
| `ColumnSets.SteadyRowsAreTranspose` | internal/encoding/block/row.go:64-69 | so their columns are their transpose in any map orders, with a filter or without |
| `ColumnSets.RowGrows` | internal/column/column.go:43-98 | a row grows the set by the sizes of its values and of the nulls beside and above them |
| `ColumnSets.SizeUpdate` | internal/column/column.go:101-106 | replacing a column changes the set's size by the difference |
| `Blocks.WriteColumns` | internal/encoding/block/block.go:136-156 | the encoded columns tile the data end to end in some order, each described by its offset, size and kind; `Size` is the summed size of the columns |
| `Blocks.MetaRoundTrip` | internal/encoding/block/block.go:159-165 | the nine metadata bytes give back offset, size and kind |
| `Blocks.MetaExamples` | internal/encoding/block/block.go:159-165 | the exact metadata bytes, with the type numbers |
| `Blocks.ColumnAsWritten` | internal/encoding/block/block.go:91-110 | every column of a written block is read back as written, and no other |
| `Blocks.SelectAsWritten` | internal/encoding/block/block.go:91-110 | `Select` gives the columns asked for as written, or an error when one is missing |
| `Blocks.SchemaAsWritten` | internal/encoding/block/block.go:74-83 | the schema of a written block is the kinds of its columns |
| `Blocks.SelectColumns` | internal/encoding/block/block.go:91-110 | the loop computes the selection in any map order |
| `Blocks.ReadExact` | internal/encoding/block/block.go:37-71 | for any desired schema, whichever column `Any()` picks, exactly: the desired columns when all match, nothing when no column survives, a panic past the null limit, the completed view otherwise |
| `Blocks.ReadPanicsIff` | internal/column/null.go:28-31 | reading panics if and only if a desired column is missing, some column survives, and there are more than 25000 rows or the missing column has no supported type |
| `Blocks.ViewIsComplete` | internal/encoding/block/block.go:62-68 | every desired column with its type and the block's row count: matching ones intact, others all null |
| `Blocks.ReadIsComplete` | internal/encoding/block/block.go:37-71 | a non-empty result has every desired column with its type, all as long as the block |
| `Blocks.ReadBlock` | internal/encoding/block/block.go:37-71 | on any block, the result is one that some pick of `Any()` allows |
| `Blocks.Backfill` | internal/encoding/block/block.go:65-68 | the loop adds a null column for every miss, or panics past the limit or at an unsupported type |
| `Chunking.Chunker.Add` | internal/encoding/block/from_csv.go:66-82 | for any filter and row, the row is added to the columns of its partition and the running size stays the summed size of what is pending |
| `Chunking.Chunker.Flush` | internal/encoding/block/from_csv.go:44-53 | one block per pending partition, in any order; together they have the size that was pending, which was below the limit before its last row |
| `Chunking.PendingNext` | internal/encoding/block/from_csv.go:66-82 | one more row changes only the columns of its own partition |
| `Chunking.ArrivalCounted` | internal/encoding/block/from_csv.go:81-82 | and changes the summed size by the growth of those columns |
| `Chunking.FindString` | internal/encoding/block/from_orc.go:105-112 | the first name that matches, and nothing if and only if none does |
| `Chunking.Chunker.Record` | internal/encoding/block/from_csv.go:44-82 | one record: a flush once the limit is reached, then its row under its partition unless that is empty |
| `Chunking.FromCsvBy` | internal/encoding/block/from_csv.go:16-93 | no partition if and only if no header matches, else by the first that does; fails if and only if a record is unreadable or of another length; the rows are those of the records with a non-empty partition, in order, each under it; every flush is below the limit without its last row and no flush but the last comes early; partitions with steady rows keep them in order |
| `Chunking.AlignedFileConserved` | internal/encoding/block/from_csv.go:35-92 | for any filter, with every row of a partition aligned, its blocks hold under every name what its rows put there, in order |
| `Chunking.SteadyFileConserved` | internal/encoding/block/from_csv.go:35-92 | rows that all bring the same new columns need no more: their blocks hold exactly them, wherever the file was cut |
| `Chunking.DynamicFileConserved` | internal/encoding/block/from_csv.go:35-92 | without a filter and with one header, every column of every partition is the list of its rows' values |
| `Chunking.StaticFileConserved` | internal/encoding/block/from_csv.go:35-92 | with a filter that has every name, every column of the filter is row by row the row's value or null |
| `Interning.Encoder.UpdateDict` | client/golang/encoding.go:50-60 | the dictionary stays injective onto 1..next, keeps all numbers, and has the string |
| `Interning.Encoder.EncodeValue` | client/golang/encoding.go:87-132 | each dynamic type becomes its case, strings by their number; an error exactly for a map that does not marshal |
| `Interning.Encoder.EncodeEntry` | client/golang/encoding.go:63-77 | one entry more of the event is encoded; a failing value is left out |
| `Interning.Encoder.EncodeEvent` | client/golang/encoding.go:63-77 | in any map order, the event holds each key's encoded value under the key's number and nothing else |
| `Interning.Encoder.WriteDictionary` | client/golang/encoding.go:79-84 | the strings are the exact inverse of the dictionary |
| `Interning.Encoder.Encode` | client/golang/encoding.go:29-47 | the batch is an interning of the events, also when the encoder is used again; each event has as many entries as values other than a map that does not marshal, each under its key's number |
| `Interning.EntriesKept` | client/golang/encoding.go:63-77 | that number, for any encoded event: nothing else is left out and no two keys share a number |
| `Interning.DictionaryGrows` | client/golang/encoding.go:50-60 | numbering a new string keeps the dictionary injective and onto 1..next |
| `Interning.ValueResolves` | internal/encoding/block/from_batch.go:95-124 | resolving an encoded value gives what was meant |
| `Interning.InterningUndone` | internal/encoding/block/from_batch.go:19-74 | resolving every reference gives back each event, name by name, no two keys meeting in one name |
| `Interning.FindPartitionKey` | internal/encoding/block/from_batch.go:135-142 | finds a number of the name if and only if there is one |
| `Interning.PartitionIsUnique` | internal/encoding/block/from_batch.go:77-92 | the number found does not depend on the map order, and reads each event's own partition when it is a string |
| `Interning.EndToEnd` | internal/encoding/block/from_batch.go:19-74 | the same through the wire: what the server decodes is the batch, and it resolves to the client's events |
| `TimeUnits.UnitInferredIff` | internal/presto/domain.go:128-144 | for any instant in any unit: the instant rounded down to its unit comes back if and only if the unit is seconds, it is after 2010-01-01, or it is 0 |
| `TimeUnits.WatermarkUnitMisread` | internal/presto/domain.go:133-142 | half a millisecond into 2010, as milliseconds, is taken for seconds |
| `TimeUnits.OneIsItsMin` | internal/presto/columns.go:229-243 | a one-value marker stands for its value, except that MaxInt64 counts as none |
| `TimeUnits.MarkerDecodedIff` | internal/presto/domain.go:128-144 | the exact condition for a one-value marker |
| `TimeUnits.IntervalDecoded` | internal/presto/domain.go:99-125 | recognised instants in whatever units bound the range they should, closed, open above and open below, the open ones whatever the high marker |
| `IngestPermits.StepKeepsInv` | internal/ingress/s3sqs/s3sqs.go:86-167 | every step keeps the permits balanced and records begun only for acknowledged messages |
| `IngestPermits.ReachableInv` | internal/ingress/s3sqs/s3sqs.go:86-167 | in every interleaving permits held are those of ingests in flight, of the loop about to start one, and of `Close` |
| `IngestPermits.PermitsBound` | internal/ingress/s3sqs/s3sqs.go:118-157 | at most the limit of handlers run at once; records begin only after their message was acknowledged; no release finds all permits free |
| `IngestPermits.RecordsAccounted` | internal/ingress/s3sqs/s3sqs.go:110-124 | every record of every message parsed is started, skipped or refused a permit, none is left between messages, and none is refused before the cancellation |
| `IngestPermits.ClosedStays` | internal/ingress/s3sqs/s3sqs.go:160-167 | after `Close` no step starts an ingest or a handler |
| `IngestPermits.NothingAfterClose` | internal/ingress/s3sqs/s3sqs.go:160-167 | once `Close` has returned no handler runs, and none ever starts again |

## Left out

- Unmarshal.UnmarshalBatch: a length or a skip that overflows the index is reported as running past the end, where the code has a second error for it. The distinction depends on the absolute position of a field, so with it an unknown field before a malformed one could change the error. The same holds for the three members below, for `Wire.ReadLength` and for `Wire.SkipUnknown`; `Wire.SkipTalaria` has both errors.
- Unmarshal.UnmarshalEvent: the merged error of `Unmarshal.UnmarshalBatch`.
- Unmarshal.UnmarshalValue: the merged error of `Unmarshal.UnmarshalBatch`.
- Unmarshal.MapEntryAt: the merged error of `Unmarshal.UnmarshalBatch`.
- ColumnData.Varchar.Append: strings of 2^31 bytes or more, whose recorded size would wrap; the design bounds the bytes of a column by 2^31.
- ColumnData.Varchar.At: columns of 2^31 bytes or more, whose 32-bit offsets would wrap.
- ColumnData.Varchar.Range: the same columns.
- Chunking.FromCsvBy: parsing and the computed columns are the parameter `transform`, tokenising is the parameter `input`, a record with another number of fields than the header counts as refused, as by the CSV reader; errors of encoding a finished block are not modelled.
- Blocks.ReadBlock: metadata other than nine bytes, where the code would panic, is read as a missing column.
- Blocks.WriteColumns: total encoded size below 2^32, since offsets are 32 bits; writer errors are not modelled.
- Timeseries.Table.GetRows: the reader it is given does not panic; when `Read` does is the third case of `Blocks.ReadExact`.
- Timeseries.PagesRefineScan: the requested columns are distinct and the store does not change between requests.
- Interning.InterningUndone: covers the resolution of references and partitions; building rows and columns from them is `ColumnSets`, and the type filter and computed columns of `FromBatchBy` are not modelled.
- TimeUnits.IntervalDecoded: a high marker without a value, where the code would panic, is read as one without bigints.
- Disk.Storage.Delete: Badger's answers are arbitrary, a transaction is applied whole or not at all.
- MergeOrc.ToOrc: which schemas parse and when the writer closes are parameters; rows the writer refuses are dropped by the code without notice and count as handed over.
- The codecs for columns and blocks (`kelindar/binary`, snappy) are a parameter of which only the round trip is known; murmur3 is a parameter `sum32`; JSON and `fmt` are part of the input values.
- The byte budget of a page is a parameter, in place of 95% of the byte limit computed in floating point; doubles are 64-bit patterns.
- The split token is the query itself; its encoding is not modelled.
- The conversions and type assertions of the typed `Append` methods; cells are already of the column's type, and a filter with an unsupported type, at which the code panics, makes an empty column. The arrays of the fixed-width columns, which hold one entry per row. `PrestoThriftJson` has the code of `PrestoThriftVarchar` and is not repeated.
- Expiry, purging, garbage collection, logging and metrics; the clock is a parameter.
- A compaction scan is one step at the moment its snapshot is taken; its merges then interleave freely. Cancellation of the periodic job is not modelled.
- Fairness and liveness of the ingest workers; a cancelled wait for a permit fails at any time after cancellation.
- The other messages of talaria.pb.go, packed fields, the nil and empty map distinction, string and equality methods.
- `parseWithHashAndSort`, `parseWithSort` and `GetSplits`, which map a domain to queries; the table's `Append` beyond clamping times at 0; ORC and Parquet input, which share the loop of `FromCSVBy`; the RPC name table of trino_codec.go; sinks, configuration and scripting.
