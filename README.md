# Tablet split checks, rocksdb iterator contract, and universe-form helpers in Dafny

This project models the logic around tablet splitting in a distributed SQL database. It covers
three parts.

- **Range partitions.** A table or index created with `SPLIT AT VALUES` gets N+1 tablets from N
  split points. The model builds their expected `[start, end)` bounds from the split points, as
  printed DocKeys. It also models the checks that compare a table's tablets against them.
- **The split itself.** This covers per-tablet record counts and how two snapshots of them are
  compared. It covers which split requests are refused, and why. It covers the two children a
  split produces, where their rows go, and how a table's tablets keep covering the whole key space.
- **The rocksdb `Iterator` cursor.** The record counts are taken with this cursor.

It also models the universe form's data helpers. These find a cluster by type, turn gflags into
form rows and back, and build the submitted user intent.

Modules:

- `Keys` (`keys.dfy`): encoded keys are byte strings ordered like rocksdb's bytewise comparator.
  The order is proved to be a strict total order. `KeyBounds` are half-open bounds in which an
  empty key means "unbounded". `WithinBounds` is what a bounded iterator yields.
- `RocksIterator` (`iterator.dfy`): the cursor is a class. It holds a strictly sorted source, a
  position and a status.
- `RangePartitions` (`partitions.dfy`): `gen_key`, `PrepareRangePartitions`, `adjust_partitions`
  and the steps of `ValidatePartitionsStructure`.
- `TabletRecords` (`records.dfy`): the counting loop, `GetTabletRecordsInfo` and
  `DiffTabletRecordsInfo`.
- `TabletSplit` (`split.dfy`): split validation, the children, row conservation, and the
  exact-cover invariant of a table's tablets.
- `RoutingCheck` (`routing_check.dfy`): the conclusion the routing tests draw from a
  one-tablet difference.
- `PartitionShape` (`partition_shape.dfy`): links the partitions over encoded keys (`SplitAtValues`)
  to the printed partitions the structure check compares (`RangePartitionsOf`).
- `UniverseForm` (`universe_form.dfy`): the helpers of `helpers.ts`.
- `Wrappers`, `Errors`: `Option`/`Result`/`Outcome` and status values.

Notes on the code as written:

- `gen_key` writes ", " before a component only when its stream is already non-empty. So empty
  leading components add no separator. The model keeps this behaviour (`Joined`). It proves that
  the result is the plain ", "-join whenever no component is empty, which is always the case in
  the tests.
- The matching check reports an end mismatch with the message "Partitions start does not match",
  the same message as a start mismatch. The model keeps that single error (`PartitionsStartMismatch`).
- The tablets' partitions are collected by plain assignment, so a later tablet with the same start
  replaces an earlier one. `GetTabletRecordsInfo` inserts with `emplace`, so there the first peer
  with a given tablet id wins. The model keeps both behaviours.
- Split validation checks the table kind (`NotSupported`) before the split key's range. The tests
  never trigger both at once, so that order is a modelling choice.
- The empty partition bound is the printed key `DocKey([], [])` in the partition texts, and the
  empty byte string in `KeyBounds`.

## Model

| member | source | states |
|---|---|---|
| `RangePartitions.GenKey` | src/yb/yql/pgwrapper/pg_tablet_split-test.cc:284-293 | the key printed for a split point is `DocKey([], [...])` around the components as the stream joins them |
| `RangePartitions.JoinedOfNonEmptyComponents` | src/yb/yql/pgwrapper/pg_tablet_split-test.cc:286-291 | with no empty component, components are separated by ", " and nothing precedes the first one |
| `RangePartitions.JoinedDropsLeadingEmpty` | src/yb/yql/pgwrapper/pg_tablet_split-test.cc:287-290 | an empty first component leaves no separator behind (the `tellp()` guard) |
| `RangePartitions.GenKeyIsBounded` | src/yb/yql/pgwrapper/pg_tablet_split-test.cc:280-292 | a split point with a non-empty component never prints as the unbounded key |
| `RangePartitions.PrepareRangePartitions` | src/yb/yql/pgwrapper/pg_tablet_split-test.cc:295-307 | given at least one split point, the loop builds exactly the partitions of `RangePartitionsOf`, one per step |
| `RangePartitions.BuildPartition` | src/yb/yql/pgwrapper/pg_tablet_split-test.cc:299-305 | step n yields partition n: unbounded start for the first, unbounded end for the last, otherwise the keys of split points n-1 and n |
| `RangePartitions.RangePartitionsAdjoin` | src/yb/yql/pgwrapper/pg_tablet_split-test.cc:295-307 | N split points give N+1 partitions: the first starts and the last ends at the empty key, and the end of partition i and the start of partition i+1 are both the key of split point i |
| `RangePartitions.AdjustPartitions` | src/yb/yql/pgwrapper/pg_tablet_split-test.cc:663-674 | at version 0 the split points come back unchanged; otherwise each gains exactly one trailing "-Inf" and nothing else changes |
| `RangePartitions.CheckAlignment` | src/yb/yql/pgwrapper/pg_tablet_split-test.cc:314-322 | passes iff there is a split point, all have the width of the first, and that width is non-zero; otherwise reports the missing points, the first misaligned point, or the zero width |
| `RangePartitions.ShapeError` | src/yb/yql/pgwrapper/pg_tablet_split-test.cc:332-351 | a tablet passes iff it is range partitioned and each bounded start or end has the expected number of range components |
| `RangePartitions.CollectTablePartitions` | src/yb/yql/pgwrapper/pg_tablet_split-test.cc:329-354 | succeeds iff every tablet passes the shape checks, then yields the partitions keyed by start (a later start replaces an earlier one); otherwise reports the first failing tablet's error |
| `RangePartitions.TablePartitionsKeyedByStart` | src/yb/yql/pgwrapper/pg_tablet_split-test.cc:353-364 | each collected partition is filed under its own start, so the start comparison of the match cannot fail |
| `RangePartitions.MatchPartitions` | src/yb/yql/pgwrapper/pg_tablet_split-test.cc:356-366 | passes iff the table has as many partitions as expected and every expected partition is found under its start with equal start and end |
| `RangePartitions.ValidatePartitionsStructure` | src/yb/yql/pgwrapper/pg_tablet_split-test.cc:310-368 | passes iff the split points are aligned, the tablet count is as expected, every tablet has the right shape and the collected partitions match the prepared ones; alignment and count errors come first |
| `RangePartitions.ExactPartitionsMatch` | src/yb/yql/pgwrapper/pg_tablet_split-test.cc:356-366 | tablets whose partitions are exactly the expected ones (with distinct starts) pass the match |
| `TabletRecords.CountRecords` | src/yb/yql/pgwrapper/pg_tablet_split-test.cc:250-251 | the SeekToFirst/Valid/Next loop counts exactly the entries of the source |
| `TabletRecords.GetTabletRecordsInfo` | src/yb/yql/pgwrapper/pg_tablet_split-test.cc:242-255 | the snapshot maps each tablet to its bounds and the number of its keys within them, with the first peer of a repeated id kept |
| `TabletRecords.RecordsInfoOfKeys` | src/yb/yql/pgwrapper/pg_tablet_split-test.cc:245-253 | the snapshot holds exactly the peers' tablet ids |
| `TabletRecords.RecordsInfoOfFirstPeer` | src/yb/yql/pgwrapper/pg_tablet_split-test.cc:252 | a tablet's entry is the bounds and in-bounds record count of the first peer with its id |
| `TabletRecords.DiffTabletRecordsInfo` | src/yb/yql/pgwrapper/pg_tablet_split-test.cc:257-276 | fails with IllegalState iff some tablet of both snapshots has different bounds (a lower-bound error only when a lower bound differs, likewise upper); otherwise returns the difference |
| `TabletRecords.DiffWithItself` | src/yb/yql/pgwrapper/pg_tablet_split-test.cc:257-276 | a snapshot compared with itself agrees on bounds and reports nothing |
| `TabletRecords.DiffReportsOnlyB` | src/yb/yql/pgwrapper/pg_tablet_split-test.cc:260-273 | the difference reports only tablets of b; one missing from a is copied verbatim; one in both is reported iff its count changed |
| `TabletRecords.DiffAfterOneInsert` | src/yb/yql/pgwrapper/pg_tablet_split-test.cc:540-541 | one row written to one tablet yields a difference of exactly that tablet, with count 1 and its bounds |
| `TabletSplit.ValidateSplit` | src/yb/yql/pgwrapper/pg_tablet_split-test.cc:414-438 | NotSupported iff a range-partitioned index at partitioning version 0 (and the check is not skipped); an accepted split key lies strictly inside the bounds; a refused one reports the tablet's bounds |
| `TabletSplit.SplitKeyAtBoundIsRejected` | src/yb/yql/pgwrapper/pg_tablet_split-test.cc:150-192 | a split key equal to either partition bound is refused with TABLET_SPLIT_KEY_RANGE_TOO_SMALL carrying that key and the bounds; only a range index at partitioning version 0 (check not skipped) is refused as not supported instead |
| `TabletSplit.SplitSupportedExceptLegacyRangeIndex` | src/yb/yql/pgwrapper/pg_tablet_split-test.cc:428-438 | regular tables and hash indexes split at any version, range indexes from version 1, on any interior key |
| `TabletSplit.SplitTablet` | src/yb/yql/pgwrapper/pg_tablet_split-test.cc:514-519 | fails exactly when validation fails; otherwise the children are `[begin, split)` and `[split, end)` |
| `TabletSplit.ChildrenCoverParent` | src/yb/yql/pgwrapper/pg_tablet_split-test.cc:514-523 | a key is in the parent's range iff it is in one child's range, and never in both |
| `TabletSplit.SplitKeyGoesToUpperChild` | src/yb/yql/pgwrapper/pg_tablet_split-test.cc:634-647 | the split key is within the upper child's bounds and not the lower child's |
| `TabletSplit.ChildCountsAddUp` | src/yb/yql/pgwrapper/pg_tablet_split-test.cc:498-500 | the children's in-bounds record counts add up to the parent's |
| `TabletSplit.LowerChildIsPrefix` | src/yb/yql/pgwrapper/pg_tablet_split-test.cc:514-519 | the lower child's view of the shared rows is exactly the rows before the split key |
| `TabletSplit.UpperChildIsSuffix` | src/yb/yql/pgwrapper/pg_tablet_split-test.cc:514-519 | the upper child's view of the shared rows is exactly the rows from the split key on |
| `TabletSplit.ChildRowsConcatenate` | src/yb/yql/pgwrapper/pg_tablet_split-test.cc:514-519 | the lower child's rows followed by the upper child's are exactly the parent's rows |
| `TabletSplit.ChildWellFormed` | src/yb/yql/pgwrapper/pg_tablet_split-test.cc:250 | a child's bounded view of sorted rows is sorted and lies within the child's bounds |
| `TabletSplit.SplitPreservesRows` | src/yb/yql/pgwrapper/pg_tablet_split-test.cc:613-615 | a split loses and duplicates no row: the children's rows concatenate to the parent's, the count is unchanged, both children are well formed, and a row at the split key is in the upper child |
| `TabletSplit.PartitionedIsExactCover` | src/yb/yql/pgwrapper/pg_tablet_split-test.cc:514-523 | every key belongs to exactly one tablet of a partitioned table |
| `TabletSplit.ReplaceWithChildren` | src/yb/yql/pgwrapper/pg_tablet_split-test.cc:514-523 | the table's tablets after a split: tablet i is replaced by `[lower, split)` and `[split, upper)` in its place, and the tablets before and after it are kept in order |
| `TabletSplit.SplitKeepsPartitioned` | src/yb/yql/pgwrapper/pg_tablet_split-test.cc:514-523 | splitting one tablet at an interior key keeps the table an exact cover, puts the split key in the upper child and leaves the other tablets' bounds alone |
| `TabletSplit.SplitAtValues` | src/yb/yql/pgwrapper/pg_tablet_split-test.cc:298-305 | N encoded split points give N+1 tablets, the first unbounded below and the last unbounded above, as the partitions are built from the split points |
| `TabletSplit.SplitAtValuesIsPartitioned` | src/yb/yql/pgwrapper/pg_tablet_split-test.cc:298-305 | increasing, non-empty split points give tablets that cover the key space with no gap and no overlap, so a table created with `SPLIT AT VALUES` starts out partitioned |
| `RoutingCheck.RowAtSplitKeyIsReportedInUpperChild` | src/yb/yql/pgwrapper/pg_tablet_split-test.cc:629-648 | combines routing to the upper child with the one-insert difference: the snapshot difference names exactly the upper child, with count 1, and its bounds contain the split key |
| `RoutingCheck.SplitKeyRoutesOnlyToUpperChild` | src/yb/yql/pgwrapper/pg_tablet_split-test.cc:629-648 | over a whole partitioned table, after one tablet splits, the upper child is the only tablet whose bounds contain the split key |
| `PartitionShape.PrintedBoundsAreRangePartitions` | src/yb/yql/pgwrapper/pg_tablet_split-test.cc:295-307 | when each encoded split point prints as its generated key and the unbounded key as the empty one, the printed bounds of `SplitAtValues` are exactly the expected partitions |
| `Keys.Less` | src/yb/rocksdb/iterator.h:116-119 | the bytewise order that positions the cursor: a key never sorts below itself, and a proper prefix sorts before its extensions |
| `Keys.KeyBounds.IsWithinBounds` | src/yb/yql/pgwrapper/pg_tablet_split-test.cc:543-544 | a row belongs to a tablet when its key is in the half-open bounds: lower bound inclusive, upper bound exclusive, empty bounds unbounded |
| `Keys.FirstAtOrPast` | src/yb/rocksdb/iterator.h:116-119 | the seek position: every key before it sorts below the target, and the key at it (if any) is at or past the target |
| `Keys.FirstAtOrPastSorted` | src/yb/rocksdb/iterator.h:116-119 | in a sorted source every key from the seek position on is at or past the target |
| `Keys.WithinBounds` | src/yb/yql/pgwrapper/pg_tablet_split-test.cc:250 | a bounded iterator yields exactly the source keys within the bounds |
| `RocksIterator.Iterator.constructor` | src/yb/rocksdb/iterator.h:97-100 | a new cursor over a sorted source is not yet positioned, so it is not valid until a seek |
| `RocksIterator.Iterator.Valid` | src/yb/rocksdb/iterator.h:97-100 | a valid cursor is on an entry: an empty source is never valid, nor is either off-the-end position |
| `RocksIterator.Iterator.CheckedValid` | src/yb/rocksdb/iterator.h:102-106 | true when valid; false when not valid and the status is OK; the status itself otherwise |
| `RocksIterator.Iterator.Key` | src/yb/rocksdb/iterator.h:131-135 | the key may be read only while the iterator is valid; it is one of the source's keys |
| `RocksIterator.Iterator.Value` | src/yb/rocksdb/iterator.h:137-141 | the value may be read only while the iterator is valid; it is the value stored with the current key |
| `RocksIterator.Iterator.SeekToFirst` | src/yb/rocksdb/iterator.h:108-110 | valid iff the source is not empty, and then on the smallest key |
| `RocksIterator.Iterator.SeekToLast` | src/yb/rocksdb/iterator.h:112-114 | valid iff the source is not empty, and then on the largest key |
| `RocksIterator.Iterator.Seek` | src/yb/rocksdb/iterator.h:116-119 | valid iff some key is at or past the target, and then on the smallest such key |
| `RocksIterator.Iterator.Next` | src/yb/rocksdb/iterator.h:121-124 | requires valid; afterwards valid iff it was not on the last entry, and then on the strict successor of the old key |
| `RocksIterator.Iterator.Prev` | src/yb/rocksdb/iterator.h:126-129 | requires valid; afterwards valid iff it was not on the first entry, and then on the strict predecessor of the old key |
| `RocksIterator.NewEmptyIterator` | src/yb/rocksdb/iterator.h:199-200 | an iterator with no entries and an OK status, so no seek makes it valid |
| `RocksIterator.NewErrorIterator` | src/yb/rocksdb/iterator.h:202-203 | an iterator with no entries that reports the given status |
| `UniverseForm.FindCluster` | managed/ui/src/redesign/features/universe/universe-form/utils/helpers.ts:30 | the first cluster of the requested type, or none iff no cluster has that type |
| `UniverseForm.GetClusterByType` | managed/ui/src/redesign/features/universe/universe-form/utils/helpers.ts:26-31 | none when the universe data is absent or has no clusters; a found cluster is one of the universe's clusters and has the requested type |
| `UniverseForm.TransformMasterTserverToFlags` | managed/ui/src/redesign/features/universe/universe-form/utils/helpers.ts:41-57 | one MASTER row per master flag followed by one TSERVER row per tserver flag, so the length is the sum |
| `UniverseForm.TransformFlagsToMasterTserver` | managed/ui/src/redesign/features/universe/universe-form/utils/helpers.ts:142-155 | the rows with a MASTER value become the master list and the rows with a TSERVER value the tserver list, in row order; no rows give two empty lists |
| `UniverseForm.EntriesOfConcat` | managed/ui/src/redesign/features/universe/universe-form/utils/helpers.ts:147-152 | splitting keeps input order: rows of a first part come before rows of a second |
| `UniverseForm.FlagWithBothInBoth` | managed/ui/src/redesign/features/universe/universe-form/utils/helpers.ts:148-151 | a row with both values appears in both lists |
| `UniverseForm.FlagsRoundTrip` | managed/ui/src/redesign/features/universe/universe-form/utils/helpers.ts:142-155 | turning flags into rows and splitting the rows again gives back both flag lists |
| `UniverseForm.FilterTags` | managed/ui/src/redesign/features/universe/universe-form/utils/helpers.ts:170 | a tag is kept iff its name and value are both non-empty |
| `UniverseForm.FilterTagsIdempotent` | managed/ui/src/redesign/features/universe/universe-form/utils/helpers.ts:170 | filtering twice is filtering once |
| `UniverseForm.FilterTagsKeepsFilledTags` | managed/ui/src/redesign/features/universe/universe-form/utils/helpers.ts:170 | filled-in tags are all kept, in order |
| `UniverseForm.GetUserIntent` | managed/ui/src/redesign/features/universe/universe-form/utils/helpers.ts:158-197 | builds the intent `IntentOf` describes: names, switches and instance type copied, tags filtered, gflags split as above, passwords gated |
| `UniverseForm.IntentPasswordGating` | managed/ui/src/redesign/features/universe/universe-form/utils/helpers.ts:190-194 | each password is set iff its authentication is enabled and it is non-empty, and then it is the form's password unchanged |
| `UniverseForm.IntentTagsAreFilledIn` | managed/ui/src/redesign/features/universe/universe-form/utils/helpers.ts:170 | the intent's tags are exactly the form's tags whose name and value are both non-empty |
| `UniverseForm.GetFormData` | managed/ui/src/redesign/features/universe/universe-form/utils/helpers.ts:73-132 | the default form data when no cluster has the type; otherwise encryption at rest is on iff the flag is true, the KMS config is passed through (absent stays absent), and there is one tag per tag key |
| `UniverseForm.FormRoundTrip` | managed/ui/src/redesign/features/universe/universe-form/utils/helpers.ts:73-197 | loading a cluster into the form and submitting it unchanged gives back its intent, minus unfilled tags and passwords |

## Left out

- Cluster, SQL and RPC plumbing is not modelled because it is I/O against a live cluster. This
  covers connecting, executing and fetching, flushing, waiting for SST files, polling, the split
  RPC and catalog-manager calls, listing tablet leaders, `SplitSingleTablet`,
  `SplitTableWithSingleTablet` and `FetchTableRowsCount`.
- The middle split key is an input, not computed. `GetEncodedMiddleSplitKey` is not part of this
  model.
- DocKey and SubDocKey encoding and decoding are not part of this model. Each tablet's partition
  arrives already decoded (`DecodedKey`), and keys are ordered byte strings.
- The partitioning-version-0 misrouting of rows with NULL index columns is not modelled. It is a
  documented legacy defect.
- The long-running-transaction test is not modelled: it is about transactions, concurrency and
  sleeps. `DisableCompaction` is not modelled: it only sets a storage option.
- `RocksIterator.Iterator`: the status is fixed when the iterator is created. A read error that
  appears partway through iteration is not modelled.
- `RocksIterator.Iterator`: rocksdb's `Iterator` is an abstract interface. The model is one
  implementation, over a sorted in-memory source.
- `Cleanable` and `GetProperty` are not modelled. `ScanForward` and `UseFastNext` are only
  `assert(false)` stubs. `RevalidateAfterUpperBoundChange` does nothing in the interface.
- The thread-safety rules of the iterator are not modelled.
- `TabletSplit.ValidateSplit` covers only the two refusals the tests observe. Re-splitting a retired
  tablet and missing on-disk data are not modelled.
- The error message of a key-range-too-small refusal is not modelled as text. The error carries the
  partition bounds that the message names.
- `UniverseForm.GetFormData`: only the fields with logic are modelled. These are the universe name,
  instance type, YSQL/YCQL switches, encryption at rest, KMS config, tags and gflags.
- `UniverseForm.GetFormData`: the direct field copies are not modelled. These are regions, node
  count, replication factor, device info, the encryption-in-transit, time-sync, YEDIS and public-IP
  switches, the ARN, ports, root CA, and the advanced settings.
- `UniverseForm.GetFormData`: the provider is not modelled. It is rebuilt from the intent's
  provider type and provider id.
- `UniverseForm.GetFormData`: the placements are not modelled. They come from
  `getPlacementsFromCluster`, which is not part of this model.
- `UniverseForm.GetFormData`: the constant fields are not modelled: `autoPlacement` (always true),
  `customizePort` (always false) and `ybcPackagePath` (always null).
- `UniverseForm.GetFormData`: the universe data and its encryption-at-rest config are mandatory in
  the model, so the absent-value paths cannot be expressed. The source throws when the universe data
  is absent, because it destructures it. With the config absent, it throws when a cluster of the
  type exists, because it reads `encryptionAtRestEnabled` without `?.`. With no cluster of the type,
  it returns the defaults whatever the config.
- `UniverseForm.FormRoundTrip`: the source takes the tags and gflags of the universe's intent as
  object maps and returns them as `{name, value}` lists. The model represents both as entry lists,
  and compares their entries in `Object.keys` order.
- `UniverseForm.GetUserIntent`: only the same subset of fields is modelled. The remaining fields
  are direct copies, except the provider id and type, which are read with `?.` from an optional
  provider.
- `getPrimaryCluster`, `getAsyncCluster`, `getPrimaryFormData` and `getAsyncFormData` are not
  modelled separately. Each is `GetClusterByType` or `GetFormData` with the cluster type fixed.
- `filterFormDataByClusterType` and `getAsyncCopyFields` are not modelled. They are lodash `pick`
  calls over field lists.
- `createUniverse`, `createReadReplica`, `editReadReplica`, `patchConfigResponse` and
  `transitToUniverse` are not modelled. They are asynchronous API calls and navigation.
- `DEFAULT_FORM_DATA` is a parameter of `GetFormData`, because dto.ts is not part of this model.
- A null entry inside the gflags array is not modelled: the array's type excludes it. The source
  skips such entries with `?.`.
- Partitioning versions are unbounded naturals. Only zero versus non-zero matters, so the 32-bit
  width is not modelled.
