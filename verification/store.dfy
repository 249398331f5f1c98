/** The `test` table, the statements the app sends to the engine, the
    engine's atomic transaction, and the two aggregate count queries with
    the app's coalescing of a missing result to zero.

    The engine itself is not modelled: a transaction is taken as an
    all-or-nothing primitive, and a count query as returning the single
    aggregate row SQL defines for it. */
module Store {

  datatype Option<T> = None | Some(value: T)

  /** A row of `test`. The engine-assigned `id` column is left implicit:
      rows are kept in insertion order, so the position stands for it. */
  datatype Row = Row(groupId: string, name: string)

  type Table = seq<Row>

  /** `INSERT INTO test (groupId, name) VALUES (?, ?)` and `DELETE FROM test`. */
  datatype Stmt = InsertRow(row: Row) | DeleteAll

  function Exec(t: Table, s: Stmt): Table {
    match s
    case InsertRow(row) => t + [row]
    case DeleteAll => []
  }

  /** Running statements one after another inside a transaction. */
  function ExecAll(t: Table, stmts: seq<Stmt>): Table
    decreases |stmts|
  {
    if |stmts| == 0 then t else ExecAll(Exec(t, stmts[0]), stmts[1..])
  }

  /** One insert statement per row, in order. */
  function Inserts(rows: seq<Row>): (stmts: seq<Stmt>)
    ensures |stmts| == |rows|
    ensures forall i :: 0 <= i < |rows| ==> stmts[i] == InsertRow(rows[i])
  {
    seq(|rows|, i requires 0 <= i < |rows| => InsertRow(rows[i]))
  }

  /** Executing the inserts of some rows appends exactly those rows. */
  lemma {:induction false} ExecInserts(t: Table, rows: seq<Row>)
    ensures ExecAll(t, Inserts(rows)) == t + rows
    decreases |rows|
  {
    if |rows| == 0 {
      assert t + rows == t;
    } else {
      assert Inserts(rows)[1..] == Inserts(rows[1..]);
      ExecInserts(t + [rows[0]], rows[1..]);
      assert t + [rows[0]] + rows[1..] == t + rows;
    }
  }

  /** What the transaction reports: committed, or rolled back after the
      engine raised. */
  datatype Outcome = Committed | RolledBack

  datatype TxResult = TxResult(table: Table, outcome: Outcome)

  /** The engine's atomic transaction over `stmts`. `fault` is where the
      engine raises, if anywhere: Some(k) for the k-th statement, or for
      the commit itself when k >= |stmts|. On a fault the statements
      already run on the working copy are discarded and the table before
      the transaction is kept; otherwise all of them take effect. */
  function Transaction(t: Table, stmts: seq<Stmt>, fault: Option<nat>): TxResult {
    match fault
    case None => TxResult(ExecAll(t, stmts), Committed)
    case Some(_) => TxResult(t, RolledBack)
  }

  /** The distinct values of a sequence of strings. */
  function Elements(s: seq<string>): set<string> {
    set i | 0 <= i < |s| :: s[i]
  }

  predicate Distinct(s: seq<string>) {
    forall i, j :: 0 <= i < j < |s| ==> s[i] != s[j]
  }

  /** A sequence has at most as many distinct values as entries, exactly as
      many when its entries are pairwise distinct, and none only when empty. */
  lemma {:induction false} ElementsCard(s: seq<string>)
    ensures |Elements(s)| <= |s|
    ensures Distinct(s) ==> |Elements(s)| == |s|
    ensures |Elements(s)| == 0 <==> |s| == 0
    decreases |s|
  {
    if |s| > 0 {
      var init, last := s[..|s| - 1], s[|s| - 1];
      ElementsCard(init);
      assert Elements(s) == Elements(init) + {last} by {
        forall g | g in Elements(s) ensures g in Elements(init) + {last} {
          var i :| 0 <= i < |s| && s[i] == g;
          if i < |s| - 1 {
            assert init[i] == s[i];
          }
        }
        forall g | g in Elements(init) ensures g in Elements(s) {
          var i :| 0 <= i < |init| && init[i] == g;
          assert s[i] == init[i];
        }
      }
      assert last in Elements(s);
      if Distinct(s) {
        assert Distinct(init);
        assert last !in Elements(init);
      }
    }
  }

  /** The `groupId` column, row by row. */
  function GroupColumn(t: Table): (c: seq<string>)
    ensures |c| == |t|
    ensures forall i :: 0 <= i < |t| ==> c[i] == t[i].groupId
  {
    seq(|t|, i requires 0 <= i < |t| => t[i].groupId)
  }

  /** The set of group ids present in a table. */
  function GroupIds(t: Table): (gs: set<string>)
    ensures forall i :: 0 <= i < |t| ==> t[i].groupId in gs
    ensures forall g :: g in gs ==> exists i :: 0 <= i < |t| && t[i].groupId == g
  {
    var c := GroupColumn(t);
    assert forall i :: 0 <= i < |t| ==> c[i] in Elements(c);
    Elements(c)
  }

  /** The group ids of two tables appended are those of both. */
  lemma GroupIdsAppend(t: Table, u: Table)
    ensures GroupIds(t + u) == GroupIds(t) + GroupIds(u)
  {
    var tu := t + u;
    forall g | g in GroupIds(tu) ensures g in GroupIds(t) + GroupIds(u) {
      var i :| 0 <= i < |tu| && GroupColumn(tu)[i] == g;
      if i < |t| {
        assert GroupColumn(t)[i] == g;
      } else {
        assert GroupColumn(u)[i - |t|] == g;
      }
    }
    forall g | g in GroupIds(t) + GroupIds(u) ensures g in GroupIds(tu) {
      if g in GroupIds(t) {
        var i :| 0 <= i < |t| && GroupColumn(t)[i] == g;
        assert GroupColumn(tu)[i] == g;
      } else {
        var i :| 0 <= i < |u| && GroupColumn(u)[i] == g;
        assert GroupColumn(tu)[i + |t|] == g;
      }
    }
  }

  /** `SELECT COUNT(*)` and `SELECT COUNT(DISTINCT groupId)` over `test`. */
  datatype Query = CountAll | CountDistinctGroups

  /** A result row `{ count }`; None stands for a null or absent value. */
  datatype QueryRow = QueryRow(count: Option<int>)

  /** The engine's answer to an aggregate query: one row holding the
      aggregate over the committed table. */
  function Execute(q: Query, t: Table): (rows: seq<QueryRow>)
    ensures |rows| == 1 && rows[0].count.Some?
    ensures 0 <= rows[0].count.value <= |t|
    ensures rows[0].count.value == 0 <==> |t| == 0
    ensures q == CountAll ==> rows[0].count.value == |t|
  {
    GroupCountBounds(t);
    match q
    case CountAll => [QueryRow(Some(|t|))]
    case CountDistinctGroups => [QueryRow(Some(|GroupIds(t)|))]
  }

  /** `res.rows[0]?.count ?? 0`: the first row's count when there is a
      first row and its count is present, and 0 in every other case. */
  function Coalesce(rows: seq<QueryRow>): (c: int)
    ensures |rows| == 0 ==> c == 0
    ensures |rows| > 0 && rows[0].count.None? ==> c == 0
    ensures |rows| > 0 && rows[0].count.Some? ==> c == rows[0].count.value
  {
    if |rows| > 0 then
      match rows[0].count
      case Some(v) => v
      case None => 0
    else 0
  }

  /** The value a reactive subscriber is handed for query q: the count over
      the committed table. */
  function Reported(q: Query, t: Table): (c: int)
    ensures q == CountAll ==> c == |t|
    ensures q == CountDistinctGroups ==> c == |GroupIds(t)|
  {
    Coalesce(Execute(q, t))
  }

  /** A table never holds more groups than rows, and holds no group
      exactly when it holds no row. */
  lemma GroupCountBounds(t: Table)
    ensures |GroupIds(t)| <= |t|
    ensures |GroupIds(t)| == 0 <==> |t| == 0
  {
    ElementsCard(GroupColumn(t));
  }
}
