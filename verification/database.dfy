/** The `Database` class of the app: the batched insert of generated items,
    the full clear, and the values its two reactive count queries report.

    The random choices of the app are inputs here: the two draws of
    `Math.random()` behind `randInt`, one group id per batch in place of
    `generateId`, and the point at which the engine raises, if it does. */
module Database {

  import opened Arith
  import opened Store
  import opened Partition
  import opened Items
  import Draw

  /** Bounds of the two `randInt` calls of `insertRandomItems`. */
  const MinItems: nat := 8
  const MaxItems: nat := 16
  const MinBatch: nat := 3
  const MaxBatch: nat := 6

  /** The rows one batch contributes: each item under the batch's group id. */
  function BatchRows(id: string, batch: seq<Item>): (rows: seq<Row>)
    ensures |rows| == |batch|
    ensures forall k :: 0 <= k < |batch| ==> rows[k].groupId == id
    ensures forall k :: 0 <= k < |batch| ==> rows[k].name == batch[k].name
  {
    seq(|batch|, k requires 0 <= k < |batch| => Row(id, batch[k].name))
  }

  function RowGroups(batches: seq<seq<Item>>, ids: seq<string>): (gs: seq<seq<Row>>)
    requires |ids| == |batches|
    ensures |gs| == |batches|
    ensures forall j :: 0 <= j < |batches| ==> gs[j] == BatchRows(ids[j], batches[j])
  {
    seq(|batches|, j requires 0 <= j < |batches| => BatchRows(ids[j], batches[j]))
  }

  /** The rows the insert loop writes: batch after batch, item after item. */
  function InsertRows(batches: seq<seq<Item>>, ids: seq<string>): (rows: seq<Row>)
    requires |ids| == |batches|
    ensures |rows| == |Flatten(batches)|
    ensures forall i :: 0 <= i < |rows| ==> rows[i].name == Flatten(batches)[i].name
  {
    var gs := RowGroups(batches, ids);
    FlattenNames(gs, batches);
    Flatten(gs)
  }

  /** Parts that match the batches item for item, by length and name,
      concatenate to rows that match the concatenated items. */
  lemma {:induction false} FlattenNames(gs: seq<seq<Row>>, batches: seq<seq<Item>>)
    requires |gs| == |batches|
    requires forall j :: 0 <= j < |gs| ==> |gs[j]| == |batches[j]|
    requires forall j, k :: 0 <= j < |gs| && 0 <= k < |gs[j]| ==> gs[j][k].name == batches[j][k].name
    ensures |Flatten(gs)| == |Flatten(batches)|
    ensures forall i :: 0 <= i < |Flatten(gs)| ==> Flatten(gs)[i].name == Flatten(batches)[i].name
    decreases |gs|
  {
    if |gs| > 0 {
      FlattenNames(gs[1..], batches[1..]);
      var f, fb := Flatten(gs), Flatten(batches);
      assert f == gs[0] + Flatten(gs[1..]);
      assert fb == batches[0] + Flatten(batches[1..]);
      forall i | 0 <= i < |f| ensures f[i].name == fb[i].name {
        if i >= |gs[0]| {
          assert f[i] == Flatten(gs[1..])[i - |gs[0]|];
          assert fb[i] == Flatten(batches[1..])[i - |gs[0]|];
        }
      }
    }
  }

  /** Adding one more batch to the loop adds its rows at the end. */
  lemma InsertRowsSnoc(batches: seq<seq<Item>>, ids: seq<string>, j: nat)
    requires |ids| == |batches|
    requires j < |batches|
    ensures InsertRows(batches[..j + 1], ids[..j + 1])
            == InsertRows(batches[..j], ids[..j]) + BatchRows(ids[j], batches[j])
  {
    var last := BatchRows(ids[j], batches[j]);
    assert RowGroups(batches[..j + 1], ids[..j + 1])
           == RowGroups(batches[..j], ids[..j]) + [last];
    FlattenAppend(RowGroups(batches[..j], ids[..j]), [last]);
    assert Flatten([last]) == last + Flatten([]);
  }

  /** The transaction body of `insertRandomItems`: for each batch, in order,
      one insert per item with that batch's id. Returns the working copy of
      the table once every statement has run. */
  method InsertLoop(t: Table, batches: seq<seq<Item>>, ids: seq<string>) returns (tx: Table)
    requires |ids| == |batches|
    ensures tx == ExecAll(t, Inserts(InsertRows(batches, ids)))
  {
    tx := t;
    var j := 0;
    while j < |batches|
      invariant 0 <= j <= |batches|
      invariant tx == t + InsertRows(batches[..j], ids[..j])
    {
      var id := ids[j];
      var batch := batches[j];
      var k := 0;
      while k < |batch|
        invariant 0 <= k <= |batch|
        invariant tx == t + InsertRows(batches[..j], ids[..j]) + BatchRows(id, batch[..k])
      {
        assert BatchRows(id, batch[..k + 1]) == BatchRows(id, batch[..k]) + [Row(id, batch[k].name)];
        tx := Exec(tx, InsertRow(Row(id, batch[k].name)));
        k := k + 1;
      }
      assert batch[..k] == batch;
      InsertRowsSnoc(batches, ids, j);
      j := j + 1;
    }
    assert batches[..j] == batches && ids[..j] == ids;
    ExecInserts(t, InsertRows(batches, ids));
  }

  /** Rows of shaped batches: as many as items, and row i is item i under
      the id of batch i / b. */
  lemma {:induction false} InsertRowsIndex(batches: seq<seq<Item>>, ids: seq<string>, b: nat, i: nat)
    requires 1 <= b
    requires |ids| == |batches|
    requires Shaped(batches, b)
    requires i < |Flatten(batches)|
    ensures |InsertRows(batches, ids)| == |Flatten(batches)|
    ensures 0 <= i / b < |ids|
    ensures InsertRows(batches, ids)[i] == Row(ids[i / b], Flatten(batches)[i].name)
  {
    var gs := RowGroups(batches, ids);
    FlattenLengths(gs, batches);
    assert Shaped(gs, b);
    FlattenIndex(batches, b, i);
    FlattenIndex(gs, b, i);
  }

  /** Row i carries the group id of batch i / b. */
  ghost predicate GroupedRows(rows: seq<Row>, b: nat, ids: seq<string>)
    requires 1 <= b
  {
    forall i {:trigger rows[i]} :: 0 <= i < |rows| ==> 0 <= i / b < |ids| && rows[i].groupId == ids[i / b]
  }

  /** Row i carries the name of item i. */
  ghost predicate NamedRows(rows: seq<Row>) {
    forall i {:trigger rows[i]} :: 0 <= i < |rows| ==> rows[i].name == ItemName(i)
  }

  /** The rows written for n items in batches of b: n of them, row i
      carrying item i's name and the group id of batch i / b. */
  ghost predicate ItemRows(rows: seq<Row>, n: nat, b: nat, ids: seq<string>)
    requires 1 <= b
  {
    |rows| == n && GroupedRows(rows, b, ids) && NamedRows(rows)
  }

  /** The insert loop over the batches of n generated items writes exactly
      the item rows. */
  lemma InsertRowsOfItems(n: nat, b: nat, ids: seq<string>)
    requires 1 <= b
    requires |ids| == CeilDiv(n, b)
    ensures ItemRows(InsertRows(Batches(MakeItems(n), b), ids), n, b, ids)
  {
    var items := MakeItems(n);
    var batches := Batches(items, b);
    BatchSizes(items, b);
    BatchesFlatten(items, b);
    FlattenLengths(RowGroups(batches, ids), batches);
    var rows := InsertRows(batches, ids);
    forall i | 0 <= i < n
      ensures 0 <= i / b < |ids| && rows[i] == Row(ids[i / b], ItemName(i))
    {
      InsertRowsIndex(batches, ids, b, i);
    }
    assert GroupedRows(rows, b, ids);
    assert NamedRows(rows);
  }

  /** The batched insert for a given item count n and batch size b.
      The statements run inside one transaction; a fault anywhere leaves
      the table as it was. The outcome is only logged by the app, so
      the caller sees no error either way. */
  function InsertItems(t: Table, n: nat, b: nat, ids: seq<string>, fault: Option<nat>): (r: TxResult)
    requires 1 <= b
    requires |ids| == CeilDiv(n, b)
    ensures r.outcome == Committed <==> fault.None?
    ensures r.outcome == RolledBack ==> r.table == t
    ensures r.outcome == Committed ==>
              |r.table| == |t| + n && r.table[..|t|] == t && ItemRows(r.table[|t|..], n, b, ids)
  {
    var rows := InsertRows(Batches(MakeItems(n), b), ids);
    InsertRowsOfItems(n, b, ids);
    ExecInserts(t, rows);
    assert (t + rows)[|t|..] == rows;
    Transaction(t, Inserts(rows), fault)
  }

  /** Each item row carries one of the batch ids. */
  lemma RowsGroupIdsWithin(rows: seq<Row>, b: nat, ids: seq<string>)
    requires 1 <= b
    requires GroupedRows(rows, b, ids)
    ensures GroupIds(rows) <= Elements(ids)
  {
    forall g | g in GroupIds(rows) ensures g in Elements(ids) {
      var i :| 0 <= i < |rows| && GroupColumn(rows)[i] == g;
      var q := i / b;
      assert q < |ids| && rows[i].groupId == ids[q];
    }
  }

  /** Each batch holds an item, so each batch id is carried by a row. */
  lemma RowsGroupIdsCover(rows: seq<Row>, b: nat, ids: seq<string>)
    requires 1 <= b
    requires |ids| == CeilDiv(|rows|, b)
    requires GroupedRows(rows, b, ids)
    ensures Elements(ids) <= GroupIds(rows)
  {
    forall j | 0 <= j < |ids| ensures ids[j] in GroupIds(rows) {
      var i := FirstOfBatch(|rows|, b, j);
      assert GroupColumn(rows)[i] == ids[j];
    }
  }

  /** A fault after k of the insert statements: by then the working copy
      holds the first k new rows, possibly a partial batch, yet the table
      keeps none of them. */
  lemma InsertFaultDiscardsWork(t: Table, n: nat, b: nat, ids: seq<string>, k: nat)
    requires 1 <= b
    requires |ids| == CeilDiv(n, b)
    requires k <= n
    ensures var rows := InsertRows(Batches(MakeItems(n), b), ids);
            k <= |rows| && ExecAll(t, Inserts(rows)[..k]) == t + rows[..k]
    ensures InsertItems(t, n, b, ids, Some(k)).table == t
  {
    var rows := InsertRows(Batches(MakeItems(n), b), ids);
    InsertRowsOfItems(n, b, ids);
    assert Inserts(rows)[..k] == Inserts(rows[..k]);
    ExecInserts(t, rows[..k]);
  }

  /** Every batch id reaches the table: the group ids after the insert are
      those before plus exactly the ids handed out, one per batch. */
  lemma InsertGroupIds(t: Table, n: nat, b: nat, ids: seq<string>, fault: Option<nat>)
    requires 1 <= b
    requires |ids| == CeilDiv(n, b)
    ensures var r := InsertItems(t, n, b, ids, fault);
            r.outcome == Committed ==> GroupIds(r.table) == GroupIds(t) + Elements(ids)
  {
    var r := InsertItems(t, n, b, ids, fault);
    if r.outcome == Committed {
      var rows := r.table[|t|..];
      assert r.table == t + rows;
      GroupIdsAppend(t, rows);
      RowsGroupIdsWithin(rows, b, ids);
      RowsGroupIdsCover(rows, b, ids);
    }
  }

  /** The first item of batch j: an index below n that lies in batch j. */
  function FirstOfBatch(n: nat, b: nat, j: nat): (i: nat)
    requires 1 <= b
    requires j < CeilDiv(n, b)
    ensures i < n && i / b == j
  {
    CeilDivBounds(n, b);
    MulMono(j, CeilDiv(n, b) - 1, b);
    assert (j + 1) * b == j * b + b;
    DivBounds(j * b, b, j, j + 1);
    j * b
  }

  /** With pairwise distinct ids that are new to the table, the number of
      distinct groups rises by exactly the number of batches; in every case
      it rises by at most that many. */
  lemma InsertGroupCount(t: Table, n: nat, b: nat, ids: seq<string>, fault: Option<nat>)
    requires 1 <= b
    requires |ids| == CeilDiv(n, b)
    ensures var r := InsertItems(t, n, b, ids, fault);
            r.outcome == Committed ==> |GroupIds(r.table)| <= |GroupIds(t)| + CeilDiv(n, b)
    ensures var r := InsertItems(t, n, b, ids, fault);
            r.outcome == Committed && Distinct(ids) && GroupIds(t) !! Elements(ids) ==>
              |GroupIds(r.table)| == |GroupIds(t)| + CeilDiv(n, b)
  {
    InsertGroupIds(t, n, b, ids, fault);
    ElementsCard(ids);
  }

  /** The item count `insertRandomItems` draws, in [8, 16]. */
  function DrawnItemCount(u: Draw.Unit): (n: nat)
    requires u.Valid()
    ensures MinItems <= n <= MaxItems
  {
    Draw.RandInt(MinItems, MaxItems, u)
  }

  /** The batch size `insertRandomItems` draws, in [3, 6]. */
  function DrawnBatchSize(u: Draw.Unit): (b: nat)
    requires u.Valid()
    ensures MinBatch <= b <= MaxBatch
  {
    Draw.RandInt(MinBatch, MaxBatch, u)
  }

  /** With 8 to 16 items in batches of 3 to 6, there are 2 to 6 batches. */
  lemma BatchCountRange(n: nat, b: nat)
    requires MinItems <= n <= MaxItems && MinBatch <= b <= MaxBatch
    ensures 2 <= CeilDiv(n, b) <= 6
  {
    CeilDivBounds(n, b);
    var k: int := CeilDiv(n, b);
    MulMono(k, 1, b);
    MulMono(MinBatch, b, k - 1);
  }

  /** `insertRandomItems`: draw the item count, then the batch size, then
      insert in batches. */
  function InsertRandomItems(t: Table, itemDraw: Draw.Unit, batchDraw: Draw.Unit,
                             ids: seq<string>, fault: Option<nat>): (r: TxResult)
    requires itemDraw.Valid() && batchDraw.Valid()
    requires |ids| == CeilDiv(DrawnItemCount(itemDraw), DrawnBatchSize(batchDraw))
    ensures r.outcome == Committed <==> fault.None?
    ensures r.outcome == RolledBack ==> r.table == t
    ensures r.outcome == Committed ==>
              && |r.table| == |t| + DrawnItemCount(itemDraw)
              && MinItems <= |r.table| - |t| <= MaxItems && r.table[..|t|] == t
              && ItemRows(r.table[|t|..], DrawnItemCount(itemDraw), DrawnBatchSize(batchDraw), ids)
  {
    var n := DrawnItemCount(itemDraw);
    var b := DrawnBatchSize(batchDraw);
    BatchCountRange(n, b);
    InsertItems(t, n, b, ids, fault)
  }

  /** A committed random insert with distinct fresh ids adds one group per
      batch of the drawn pair, which makes between 2 and 6. */
  lemma RandomInsertGroupCount(t: Table, itemDraw: Draw.Unit, batchDraw: Draw.Unit,
                               ids: seq<string>, fault: Option<nat>)
    requires itemDraw.Valid() && batchDraw.Valid()
    requires |ids| == CeilDiv(DrawnItemCount(itemDraw), DrawnBatchSize(batchDraw))
    requires Distinct(ids) && GroupIds(t) !! Elements(ids)
    ensures var r := InsertRandomItems(t, itemDraw, batchDraw, ids, fault);
            r.outcome == Committed ==>
              && |GroupIds(r.table)| - |GroupIds(t)|
                 == CeilDiv(DrawnItemCount(itemDraw), DrawnBatchSize(batchDraw))
              && 2 <= |GroupIds(r.table)| - |GroupIds(t)| <= 6
  {
    var n := DrawnItemCount(itemDraw);
    var b := DrawnBatchSize(batchDraw);
    BatchCountRange(n, b);
    InsertGroupCount(t, n, b, ids, fault);
  }

  /** `clearAllItems`: one transaction deleting every row. */
  function ClearAllItems(t: Table, fault: Option<nat>): (r: TxResult)
    ensures r.outcome == Committed <==> fault.None?
    ensures r.outcome == Committed ==> r.table == []
    ensures r.outcome == RolledBack ==> r.table == t
  {
    Transaction(t, [DeleteAll], fault)
  }

  /** After a committed clear both subscribers are handed 0; after a failed
      one they are handed the counts from before. */
  lemma ClearReports(t: Table, fault: Option<nat>)
    ensures var r := ClearAllItems(t, fault);
            r.outcome == Committed ==>
              Reported(CountAll, r.table) == 0 && Reported(CountDistinctGroups, r.table) == 0
    ensures var r := ClearAllItems(t, fault);
            r.outcome == RolledBack ==>
              Reported(CountAll, r.table) == |t| && Reported(CountDistinctGroups, r.table) == |GroupIds(t)|
  {
    var r := ClearAllItems(t, fault);
    if r.outcome == Committed {
      GroupCountBounds(r.table);
    }
  }

  /** Inserting into an empty table with distinct ids: the subscribers are
      handed n items and one group per batch. */
  lemma InsertIntoEmptyReports(n: nat, b: nat, ids: seq<string>)
    requires 1 <= b
    requires |ids| == CeilDiv(n, b)
    requires Distinct(ids)
    ensures var r := InsertItems([], n, b, ids, None);
            Reported(CountAll, r.table) == n && Reported(CountDistinctGroups, r.table) == CeilDiv(n, b)
  {
    InsertGroupCount([], n, b, ids, None);
    GroupCountBounds([]);
  }

  /** Ten items in batches of four: batches of 4, 4 and 2, so ten rows in
      three groups. */
  lemma TenItemsInBatchesOfFour()
    ensures var bs := Batches(MakeItems(10), 4);
            |bs| == 3 && |bs[0]| == 4 && |bs[1]| == 4 && |bs[2]| == 2
    ensures var r := InsertItems([], 10, 4, ["a", "b", "c"], None);
            Reported(CountAll, r.table) == 10 && Reported(CountDistinctGroups, r.table) == 3
  {
    CeilDivUnique(10, 4, 3);
    InsertIntoEmptyReports(10, 4, ["a", "b", "c"]);
  }
}
