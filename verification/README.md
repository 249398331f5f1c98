# op-sqlite reactive-count repro: the `Database` core

The app keeps a single SQLite table, `test(id, groupId, name)`, and offers two
write actions plus two live counters:

- **`insertRandomItems`**
  - Draws an item count in [8, 16] and a batch size in [3, 6].
  - Names the items `Item 0`, `Item 1`, …
  - Cuts them into consecutive batches of that size.
  - Inside one transaction, writes one row per item. Every row of a batch shares a freshly generated group id.
- **`clearAllItems`**: deletes every row inside one transaction.
- **`getItemCountReactive` / `getGroupCountReactive`**
  - Hand their callback `COUNT(*)` and `COUNT(DISTINCT groupId)` of the committed table.
  - A missing row or a null count becomes 0.

The model is functional:

- The table is a sequence of `(groupId, name)` rows in insertion order.
- The two writes are total functions from a table to a table plus an outcome, `Committed` or `RolledBack`.
- The random and engine-controlled inputs are parameters:
  - the two `Math.random()` draws, as exact fractions in [0, 1);
  - one group id per batch;
  - the statement at which the engine raises, if any.

Modules:

- `Decimal`: `${i}` for a non-negative integer, and its inverse.
- `Items`: the generated items.
- `Draw`: `randInt`.
- `Partition`: ceiling division, JavaScript `slice`, the batches, and a reference partition `Chunks`.
- `Store`: rows, statements, the atomic transaction, the two count queries and the coalescing.
- `Database`: the two actions and what the counters report after them.
- `Arith`: small multiplication and division facts used by the proofs.

Both actions catch a transaction error and only log it (App.tsx:69-71, 82-84). The model follows the code: the caller always gets a result, and a failure shows up only as the `RolledBack` outcome with the table unchanged.

## Model

| member | source | states |
|---|---|---|
| Decimal.FromNat | App.tsx:46 | the rendering of `i` in `Item ${i}` has at least one character, all decimal digits, and no leading zero; it is a single digit exactly for i < 10 |
| Decimal.ParseFromNat | App.tsx:46 | reading the rendered numeral back gives the number |
| Decimal.FromNatInjective | App.tsx:46 | two numbers render to the same text if and only if they are equal |
| Items.ItemName | App.tsx:46 | the name of item i is "Item " followed by a numeral of decimal digits with no leading zero that reads back as i, i.e. the shortest numeral of i |
| Items.MakeItems | App.tsx:45-47 | exactly n items are generated, and item i is named "Item " followed by i |
| Items.ItemNameInjective | App.tsx:46 | two indices produce the same item name if and only if they are equal |
| Items.MakeItemsDistinct | App.tsx:45-47 | the generated items have pairwise distinct names |
| Draw.RandInt | App.tsx:129-131 | for min <= max the drawn value lies in [min, max]; for min > max it lies in (max, min] |
| Draw.ScaledBounds | App.tsx:130 | floor(random * span) lies in [0, span) for a positive span and in [span, 0] otherwise |
| Draw.RandIntCovers | App.tsx:129-131 | every value of [min, max] is produced by some draw in [0, 1), so the range is the whole interval |
| Partition.CeilDivBounds | App.tsx:52 | (n + b - 1) / b is the ceiling of n / b, i.e. the k with (k - 1) * b < n <= k * b; it is 0 only for n = 0 |
| Partition.CeilDivUnique | App.tsx:52 | no other integer meets the ceiling characterisation |
| Partition.Slice | App.tsx:53 | `slice` returns the in-range part, clamps an end past the length, and gives the empty sequence for an empty or out-of-range span |
| Partition.Batches | App.tsx:51-52 | the number of batches is ceil(n / b) |
| Partition.BatchesIndex | App.tsx:53 | batch j is the slice from j * b to j * b + b |
| Partition.BatchBounds | App.tsx:52-53 | batch j starts below n; every batch before the last ends below n; the last one reaches n |
| Partition.BatchSizes | App.tsx:51-54 | every batch holds 1 to b items, and every batch but the last holds exactly b, so none is empty |
| Partition.BatchCountUnfold | App.tsx:52 | dropping b items from more than b lowers the batch count by exactly one |
| Partition.BatchesUnfold | App.tsx:51-54 | the batches are the first b items followed by the batches of the rest |
| Partition.BatchShift | App.tsx:53 | batch i + 1 of the items is batch i of the items after the first b |
| Partition.SliceDrop | App.tsx:53 | slicing after dropping d items is slicing d further along |
| Partition.BatchesAreChunks | App.tsx:51-54 | the slice-based batches equal the reference partition that peels off b items at a time |
| Partition.FlattenChunks | App.tsx:51-54 | concatenating the reference partition gives back the items |
| Partition.BatchesFlatten | App.tsx:51-54 | concatenating the batches in order gives exactly the items: nothing lost, duplicated or reordered |
| Partition.FlattenIndex | App.tsx:51-54 | in batches shaped as above, position i of the concatenation is position i % b of batch i / b |
| Partition.BatchOfItem | App.tsx:51-54 | item i sits in batch i / b at offset i % b |
| Partition.FlattenLengths | App.tsx:60-65 | mapping each batch to the same number of rows keeps the total length |
| Partition.FlattenAppend | App.tsx:60 | concatenation distributes over appending further batches |
| Store.ExecInserts | App.tsx:64 | running the inserts of some rows appends exactly those rows, in order |
| Store.ElementsCard | App.tsx:88 | a column has at most as many distinct values as entries; exactly as many when pairwise distinct; none only when empty |
| Store.GroupIds | App.tsx:88 | the distinct group ids of a table: every row's group id is in the set, and every member of the set is some row's group id |
| Store.GroupIdsAppend | App.tsx:88 | the group ids of two tables appended are the union of each table's group ids |
| Store.Execute | App.tsx:88-107 | each count query yields exactly one non-null row; its count lies between 0 and the number of rows, is 0 exactly for an empty table, and `COUNT(*)` is the number of rows |
| Store.Coalesce | App.tsx:101 | `rows[0]?.count ?? 0`, written the same way at line 120: the first row's count when present, and 0 when there is no row or the count is null |
| Store.Reported | App.tsx:87-123 | the item counter is handed the number of rows; the group counter is handed the number of distinct group ids |
| Store.GroupCountBounds | App.tsx:88-107 | the group count never exceeds the item count, and is 0 exactly when the table is empty |
| Database.InsertRowsSnoc | App.tsx:60-66 | one more loop round appends exactly that batch's rows |
| Database.InsertRows | App.tsx:60-65 | the loop writes one row per item of the batches, in order, each row carrying its item's name |
| Database.FlattenNames | App.tsx:60-65 | batches of rows that match the item batches by length and name concatenate to rows that match the concatenated items |
| Database.InsertLoop | App.tsx:59-66 | the nested batch/item loop leaves the working copy equal to the table followed by the inserts of all batch rows |
| Database.InsertRowsIndex | App.tsx:60-65 | with shaped batches, row i is item i under the id of batch i / b |
| Database.InsertRowsOfItems | App.tsx:45-66 | the loop over the batches of n items writes n rows; row i is named after item i and carries the id of batch i / b |
| Database.InsertItems | App.tsx:58-71 | committed exactly when the engine does not raise; a rollback leaves the table unchanged; a commit appends exactly n rows after the untouched old rows, grouped by batch and named in item order |
| Database.RowsGroupIdsWithin | App.tsx:61-64 | every written row carries one of the batch ids |
| Database.RowsGroupIdsCover | App.tsx:60-64 | every batch id is carried by some written row, since no batch is empty |
| Database.InsertFaultDiscardsWork | App.tsx:59-67 | when the engine raises after k inserts, the working copy holds the first k rows (possibly part of a batch), yet the table keeps none |
| Database.InsertGroupIds | App.tsx:59-66 | after a committed insert the group ids seen by `COUNT(DISTINCT groupId)` are the old ones plus exactly the supplied batch ids |
| Database.FirstOfBatch | App.tsx:53 | every batch j < ceil(n / b) holds an item index i < n with i / b = j |
| Database.InsertGroupCount | App.tsx:59-66 | a committed insert adds at most ceil(n / b) distinct group ids, and exactly that many when the ids are pairwise distinct and new to the table |
| Database.DrawnItemCount | App.tsx:43 | the drawn item count lies in [8, 16] |
| Database.DrawnBatchSize | App.tsx:49 | the drawn batch size lies in [3, 6] |
| Database.BatchCountRange | App.tsx:43-52 | 8 to 16 items in batches of 3 to 6 make 2 to 6 batches |
| Database.InsertRandomItems | App.tsx:41-72 | committed exactly when the engine does not raise; a rollback leaves the table unchanged; a commit keeps the old rows and appends exactly the drawn number of item rows (so 8 to 16), grouped by the drawn batch size and named in item order |
| Database.RandomInsertGroupCount | App.tsx:41-72 | a committed random insert with distinct fresh ids adds exactly ceil(n / b) groups for the drawn item count n and batch size b, so between 2 and 6 |
| Database.ClearAllItems | App.tsx:74-85 | committed exactly when the engine does not raise; a commit leaves the table empty; a rollback leaves it unchanged |
| Database.ClearReports | App.tsx:74-85 | after a committed clear both counters are handed 0; after a failed one they are handed the counts from before |
| Database.InsertIntoEmptyReports | App.tsx:59-66 | inserting n items into an empty table with distinct ids makes the two counters report n items and ceil(n / b) groups |
| Database.TenItemsInBatchesOfFour | App.tsx:51-54 | ten items in batches of four form batches of 4, 4 and 2, reported as 10 items in 3 groups |

## Left out

- React UI (`App`, `AppContent`, `useReactiveValues`, styles; App.tsx:136-181): presentation only.
- Schema creation in the constructor (App.tsx:23-39), whose single instance is constructed once at App.tsx:134: DDL run through the library, with failures only logged. The model starts from a given table.
- The op-sqlite engine: `open`, `executeSync`, SQL parsing and the internals of `transaction` are foreign library code.
  - A transaction is an assumed all-or-nothing primitive (`Store.Transaction`).
  - The buttons start the actions without awaiting them (App.tsx:165, 168), so two presses can overlap. The model applies each action to the table as one step, which assumes the engine runs transactions one after another.
  - Whether and where it raises is an input.
- The timing, dispatch and disposal of `reactiveExecute` subscriptions: foreign library code. A subscriber is taken to be handed the count over the committed table (`Store.Reported`).
- `generateId` (App.tsx:125-127): it formats a random float in base 36. The model takes one id per batch as an input. Nothing guarantees the ids are unique, so uniqueness appears only as a hypothesis of the group-count lemmas.
- Draw.RandInt: the float product of `Math.random()` with the span is taken as an exact rational. Float rounding is not modelled.
- The engine-assigned `id` column: rows stay in insertion order, and the position stands for the id.
- Batch size 0: `Batches` and `InsertItems` require a batch size of at least 1. The app always draws 3 to 6. With 0, `Math.ceil(n / 0)` is infinite and `Array.from` would throw before any write.
- Store.Execute: an aggregate query is taken to always return exactly one row with a non-null count, as SQL defines `COUNT` over a table. The engine's answer is not modelled, so the no-row and null branches of `Store.Coalesce` are never reached from it.
- `console.log` and `console.error` calls: logging only.
