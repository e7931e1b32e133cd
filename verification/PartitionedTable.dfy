/**
 A table split over partitions by the value of one column, against the one flat table it stands
 for. Routing is a parameter: the identity for VALUE tables, a stable hash modulo the
 number of partitions for HASH tables. Result order within a stored table is the engine's business,
 so tables are compared as multisets of rows.
 */
module PartitionedTable {
  import opened Sequences

  type Row = map<string, string>

  /** The partition column and the partition each of its values belongs to. */
  datatype Layout<P> = Layout(column: string, route: string -> P)

  function CellOf(row: Row, column: string): string {
    if column in row then row[column] else ""
  }

  function RouteOf<P>(row: Row, layout: Layout<P>): P {
    (layout.route)(CellOf(row, layout.column))
  }

  function KeyOf(row: Row, columns: seq<string>): seq<string> {
    seq(|columns|, i requires 0 <= i < |columns| => CellOf(row, columns[i]))
  }

  /** The rows that belong to partition `p`. */
  function Only<P(==)>(rows: seq<Row>, layout: Layout<P>, p: P): seq<Row> {
    if rows == [] then []
    else (if RouteOf(rows[0], layout) == p then [rows[0]] else []) + Only(rows[1..], layout, p)
  }

  /** The rows with the given key. */
  function WithKey(rows: seq<Row>, columns: seq<string>, key: seq<string>): seq<Row> {
    if rows == [] then []
    else (if KeyOf(rows[0], columns) == key then [rows[0]] else []) + WithKey(rows[1..], columns, key)
  }

  lemma {:induction false} OnlyCount<P>(rows: seq<Row>, layout: Layout<P>, p: P, row: Row)
    ensures multiset(Only(rows, layout, p))[row] == if RouteOf(row, layout) == p then multiset(rows)[row] else 0
  {
    if rows != [] {
      OnlyCount(rows[1..], layout, p, row);
      CountHead(rows, row);
      CountCons(rows[0], Only(rows[1..], layout, p), row);
    }
  }

  lemma {:induction false} WithKeyCount(rows: seq<Row>, columns: seq<string>, key: seq<string>, row: Row)
    ensures multiset(WithKey(rows, columns, key))[row] == if KeyOf(row, columns) == key then multiset(rows)[row] else 0
  {
    if rows != [] {
      WithKeyCount(rows[1..], columns, key, row);
      CountHead(rows, row);
      CountCons(rows[0], WithKey(rows[1..], columns, key), row);
    }
  }

  // ---- Merge-insert on one stored table ----

  predicate UniqueKeys(source: seq<Row>, columns: seq<string>) {
    forall i, j :: 0 <= i < j < |source| ==> KeyOf(source[i], columns) != KeyOf(source[j], columns)
  }

  /** The row as the merge leaves it: a source row with its key if there is one, else itself. */
  function Updated(row: Row, source: seq<Row>, columns: seq<string>): Row {
    if source == [] then row
    else if KeyOf(source[0], columns) == KeyOf(row, columns) then source[0]
    else Updated(row, source[1..], columns)
  }

  function UpdateAll(target: seq<Row>, source: seq<Row>, columns: seq<string>): seq<Row> {
    if target == [] then [] else [Updated(target[0], source, columns)] + UpdateAll(target[1..], source, columns)
  }

  function Unmatched(target: seq<Row>, source: seq<Row>, columns: seq<string>): seq<Row> {
    if source == [] then []
    else (if WithKey(target, columns, KeyOf(source[0], columns)) == [] then [source[0]] else [])
         + Unmatched(target, source[1..], columns)
  }

  /** When matched update all, when not matched insert all. */
  function Merge(target: seq<Row>, source: seq<Row>, columns: seq<string>): seq<Row> {
    UpdateAll(target, source, columns) + Unmatched(target, source, columns)
  }

  predicate Matched(row: Row, source: seq<Row>, columns: seq<string>) {
    exists i :: 0 <= i < |source| && KeyOf(source[i], columns) == KeyOf(row, columns)
  }

  lemma {:induction false} UpdatedIsSource(row: Row, source: seq<Row>, columns: seq<string>)
    ensures !Matched(row, source, columns) ==> Updated(row, source, columns) == row
    ensures Matched(row, source, columns) ==>
              && Updated(row, source, columns) in source
              && KeyOf(Updated(row, source, columns), columns) == KeyOf(row, columns)
  {
    if source != [] {
      UpdatedIsSource(row, source[1..], columns);
      if Matched(row, source, columns) && KeyOf(source[0], columns) != KeyOf(row, columns) {
        var i :| 0 <= i < |source| && KeyOf(source[i], columns) == KeyOf(row, columns);
        assert source[1..][i - 1] == source[i];
      } else if Matched(row, source[1..], columns) {
        var i :| 0 <= i < |source[1..]| && KeyOf(source[1..][i], columns) == KeyOf(row, columns);
        assert source[i + 1] == source[1..][i];
      }
    }
  }

  lemma SameKeySameRow(source: seq<Row>, columns: seq<string>, a: Row, b: Row)
    requires UniqueKeys(source, columns) && a in source && b in source
    requires KeyOf(a, columns) == KeyOf(b, columns)
    ensures a == b
  {
    var i :| 0 <= i < |source| && source[i] == a;
    var j :| 0 <= j < |source| && source[j] == b;
  }

  lemma UpdatedEquals(target: Row, source: seq<Row>, columns: seq<string>, row: Row)
    requires UniqueKeys(source, columns)
    ensures Updated(target, source, columns) == row <==>
            || (row in source && KeyOf(target, columns) == KeyOf(row, columns))
            || (!Matched(row, source, columns) && target == row)
  {
    UpdatedIsSource(target, source, columns);
    if row in source && KeyOf(target, columns) == KeyOf(row, columns) {
      assert Matched(target, source, columns);
      SameKeySameRow(source, columns, Updated(target, source, columns), row);
    }
  }

  lemma {:induction false} UpdateAllCount(target: seq<Row>, source: seq<Row>, columns: seq<string>, row: Row)
    requires UniqueKeys(source, columns)
    ensures multiset(UpdateAll(target, source, columns))[row] ==
            (if row in source then |WithKey(target, columns, KeyOf(row, columns))| else 0)
            + if Matched(row, source, columns) then 0 else multiset(target)[row]
  {
    if target != [] {
      UpdateAllCount(target[1..], source, columns, row);
      UpdatedEquals(target[0], source, columns, row);
      CountHead(target, row);
      CountCons(Updated(target[0], source, columns), UpdateAll(target[1..], source, columns), row);
      if row in source {
        assert Matched(row, source, columns);
      }
    }
  }

  lemma {:induction false} UnmatchedCount(target: seq<Row>, source: seq<Row>, columns: seq<string>, row: Row)
    ensures multiset(Unmatched(target, source, columns))[row] ==
            if WithKey(target, columns, KeyOf(row, columns)) == [] then multiset(source)[row] else 0
  {
    if source != [] {
      UnmatchedCount(target, source[1..], columns, row);
      CountHead(source, row);
      CountCons(source[0], Unmatched(target, source[1..], columns), row);
    }
  }

  lemma {:induction false} UniqueCount(source: seq<Row>, columns: seq<string>, row: Row)
    requires UniqueKeys(source, columns)
    ensures multiset(source)[row] == if row in source then 1 else 0
  {
    if source != [] {
      UniqueCount(source[1..], columns, row);
      assert source == [source[0]] + source[1..];
    }
  }

  /**
   What a merge amounts to, order aside: a stored row whose key the source has is gone, every other stored
   row stays, and a source row appears once for each stored row it replaced, or once if there was none.
   */
  function MergedCount(target: seq<Row>, source: seq<Row>, columns: seq<string>, row: Row): nat {
    var replaced := |WithKey(target, columns, KeyOf(row, columns))|;
    (if row in source then (if replaced == 0 then 1 else replaced) else 0)
    + if Matched(row, source, columns) then 0 else multiset(target)[row]
  }

  lemma MergeCount(target: seq<Row>, source: seq<Row>, columns: seq<string>, row: Row)
    requires UniqueKeys(source, columns)
    ensures multiset(Merge(target, source, columns))[row] == MergedCount(target, source, columns, row)
  {
    UpdateAllCount(target, source, columns, row);
    UnmatchedCount(target, source, columns, row);
    UniqueCount(source, columns, row);
  }

  // ---- Partitions against the flat table ----

  function Part<P(==)>(db: map<P, seq<Row>>, p: P): seq<Row> {
    if p in db then db[p] else []
  }

  /**
   Each partition holds exactly the flat rows that belong to it. So every stored row sits where it is
   routed, and all partitions together are the flat table.
   */
  ghost predicate Represents<P(!new)>(db: map<P, seq<Row>>, layout: Layout<P>, flat: seq<Row>) {
    forall p :: multiset(Part(db, p)) == multiset(Only(flat, layout, p))
  }

  /** No source row has the key of a flat row that belongs to another partition. */
  predicate NoCrossMatch<P(==)>(flat: seq<Row>, source: seq<Row>, columns: seq<string>, layout: Layout<P>) {
    forall s, t :: s in source && t in flat && KeyOf(s, columns) == KeyOf(t, columns) ==>
      RouteOf(s, layout) == RouteOf(t, layout)
  }

  /** What the partitioned upsert leaves in every partition. */
  ghost predicate UpsertedParts<P(!new)>(before: map<P, seq<Row>>, after: map<P, seq<Row>>, layout: Layout<P>,
                                         source: seq<Row>, columns: seq<string>)
  {
    forall p :: Part(after, p) == Merge(Part(before, p), Only(source, layout, p), columns)
  }

  lemma OnlyMembers<P>(rows: seq<Row>, layout: Layout<P>, p: P, row: Row)
    ensures row in Only(rows, layout, p) <==> row in rows && RouteOf(row, layout) == p
  {
    OnlyCount(rows, layout, p, row);
    assert row in Only(rows, layout, p) <==> row in multiset(Only(rows, layout, p));
    assert row in rows <==> row in multiset(rows);
  }

  lemma {:induction false} OnlyUnique<P>(source: seq<Row>, columns: seq<string>, layout: Layout<P>, p: P)
    requires UniqueKeys(source, columns)
    ensures UniqueKeys(Only(source, layout, p), columns)
  {
    if source != [] {
      OnlyUnique(source[1..], columns, layout, p);
      var rest := Only(source[1..], layout, p);
      forall j | 0 <= j < |rest|
        ensures KeyOf(source[0], columns) != KeyOf(rest[j], columns)
      {
        OnlyMembers(source[1..], layout, p, rest[j]);
        var i :| 0 <= i < |source[1..]| && source[1..][i] == rest[j];
        assert source[i + 1] == rest[j];
      }
    }
  }

  lemma SameMultisetSameKeyRows(a: seq<Row>, b: seq<Row>, columns: seq<string>, key: seq<string>)
    requires forall row :: KeyOf(row, columns) == key ==> multiset(a)[row] == multiset(b)[row]
    ensures |WithKey(a, columns, key)| == |WithKey(b, columns, key)|
  {
    forall row
      ensures multiset(WithKey(a, columns, key))[row] == multiset(WithKey(b, columns, key))[row]
    {
      WithKeyCount(a, columns, key, row);
      WithKeyCount(b, columns, key, row);
    }
    assert multiset(WithKey(a, columns, key)) == multiset(WithKey(b, columns, key));
    assert |multiset(WithKey(a, columns, key))| == |WithKey(a, columns, key)|;
    assert |multiset(WithKey(b, columns, key))| == |WithKey(b, columns, key)|;
  }

  /** Counts agree in the partition a row belongs to, when nothing matches across partitions. */
  lemma HomeCountAgrees<P>(part: seq<Row>, flat: seq<Row>, source: seq<Row>, columns: seq<string>,
                           layout: Layout<P>, row: Row)
    requires multiset(part) == multiset(Only(flat, layout, RouteOf(row, layout)))
    requires NoCrossMatch(flat, source, columns, layout)
    ensures MergedCount(part, Only(source, layout, RouteOf(row, layout)), columns, row)
            == MergedCount(flat, source, columns, row)
  {
    var p := RouteOf(row, layout);
    var home := Only(source, layout, p);
    OnlyMembers(source, layout, p, row);
    OnlyCount(flat, layout, p, row);
    if row in source {
      forall t | KeyOf(t, columns) == KeyOf(row, columns)
        ensures multiset(part)[t] == multiset(flat)[t]
      {
        OnlyCount(flat, layout, p, t);
        assert t in flat <==> t in multiset(flat);
      }
      SameMultisetSameKeyRows(part, flat, columns, KeyOf(row, columns));
    }
    if Matched(row, home, columns) {
      var i :| 0 <= i < |home| && KeyOf(home[i], columns) == KeyOf(row, columns);
      OnlyMembers(source, layout, p, home[i]);
      var k :| 0 <= k < |source| && source[k] == home[i];
    } else if Matched(row, source, columns) && row in flat {
      var i :| 0 <= i < |source| && KeyOf(source[i], columns) == KeyOf(row, columns);
      OnlyMembers(source, layout, p, source[i]);
    }
    assert row in flat <==> row in multiset(flat);
  }

  /** Rows of other partitions never appear in a partition. */
  lemma AwayCountIsZero<P>(part: seq<Row>, flat: seq<Row>, source: seq<Row>, columns: seq<string>,
                           layout: Layout<P>, p: P, row: Row)
    requires multiset(part) == multiset(Only(flat, layout, p)) && RouteOf(row, layout) != p
    ensures MergedCount(part, Only(source, layout, p), columns, row) == 0
  {
    OnlyMembers(source, layout, p, row);
    OnlyCount(flat, layout, p, row);
  }

  lemma UpsertAgreesIn<P>(part: seq<Row>, flat: seq<Row>, source: seq<Row>, columns: seq<string>, layout: Layout<P>,
                          p: P)
    requires UniqueKeys(source, columns) && NoCrossMatch(flat, source, columns, layout)
    requires multiset(part) == multiset(Only(flat, layout, p))
    ensures multiset(Merge(part, Only(source, layout, p), columns))
            == multiset(Only(Merge(flat, source, columns), layout, p))
  {
    OnlyUnique(source, columns, layout, p);
    forall row
      ensures multiset(Merge(part, Only(source, layout, p), columns))[row] ==
              multiset(Only(Merge(flat, source, columns), layout, p))[row]
    {
      MergeCount(part, Only(source, layout, p), columns, row);
      MergeCount(flat, source, columns, row);
      OnlyCount(Merge(flat, source, columns), layout, p, row);
      if RouteOf(row, layout) == p {
        HomeCountAgrees(part, flat, source, columns, layout, row);
      } else {
        AwayCountIsZero(part, flat, source, columns, layout, p, row);
      }
    }
  }

  /** A match across partitions shows: the flat upsert replaces the stored row, the partitioned one keeps it. */
  lemma CrossMatchDiffers<P>(part: seq<Row>, flat: seq<Row>, source: seq<Row>, columns: seq<string>,
                             layout: Layout<P>, s: Row, t: Row)
    requires UniqueKeys(source, columns)
    requires s in source && t in flat && KeyOf(s, columns) == KeyOf(t, columns)
             && RouteOf(s, layout) != RouteOf(t, layout)
    requires multiset(part) == multiset(Only(flat, layout, RouteOf(t, layout)))
    ensures multiset(Merge(part, Only(source, layout, RouteOf(t, layout)), columns)) !=
            multiset(Only(Merge(flat, source, columns), layout, RouteOf(t, layout)))
  {
    var p := RouteOf(t, layout);
    var home := Only(source, layout, p);
    OnlyUnique(source, columns, layout, p);
    MergeCount(part, home, columns, t);
    MergeCount(flat, source, columns, t);
    OnlyCount(Merge(flat, source, columns), layout, p, t);
    OnlyCount(flat, layout, p, t);
    if t in source {
      SameKeySameRow(source, columns, s, t);
    }
    var k :| 0 <= k < |source| && source[k] == s;
    assert Matched(t, source, columns);
    if Matched(t, home, columns) {
      var i :| 0 <= i < |home| && KeyOf(home[i], columns) == KeyOf(t, columns);
      OnlyMembers(source, layout, p, home[i]);
      SameKeySameRow(source, columns, s, home[i]);
    }
    assert t in multiset(flat);
  }

  /**
   The per-partition upsert leaves the rows that one upsert on the flat table would leave, each in its
   partition, exactly when no source row matches a stored row of another partition.
   */
  lemma UpsertAgreesExactly<P(!new)>(before: map<P, seq<Row>>, after: map<P, seq<Row>>, flat: seq<Row>,
                                     source: seq<Row>, columns: seq<string>, layout: Layout<P>)
    requires UniqueKeys(source, columns)
    requires Represents(before, layout, flat)
    requires UpsertedParts(before, after, layout, source, columns)
    ensures Represents(after, layout, Merge(flat, source, columns)) <==> NoCrossMatch(flat, source, columns, layout)
  {
    if NoCrossMatch(flat, source, columns, layout) {
      forall p
        ensures multiset(Part(after, p)) == multiset(Only(Merge(flat, source, columns), layout, p))
      {
        UpsertAgreesIn(Part(before, p), flat, source, columns, layout, p);
      }
    } else {
      var s, t :| s in source && t in flat && KeyOf(s, columns) == KeyOf(t, columns)
                  && RouteOf(s, layout) != RouteOf(t, layout);
      CrossMatchDiffers(Part(before, RouteOf(t, layout)), flat, source, columns, layout, s, t);
      assert Part(after, RouteOf(t, layout)) ==
             Merge(Part(before, RouteOf(t, layout)), Only(source, layout, RouteOf(t, layout)), columns);
    }
  }

  /** Joining on the partition column, among others, rules matches across partitions out. */
  lemma JoinOnPartitionColumn<P>(flat: seq<Row>, source: seq<Row>, columns: seq<string>, layout: Layout<P>)
    requires layout.column in columns
    ensures NoCrossMatch(flat, source, columns, layout)
  {
    var i :| 0 <= i < |columns| && columns[i] == layout.column;
    forall s, t | s in source && t in flat && KeyOf(s, columns) == KeyOf(t, columns)
      ensures RouteOf(s, layout) == RouteOf(t, layout)
    {
      assert KeyOf(s, columns)[i] == KeyOf(t, columns)[i];
    }
  }

  /** A row with a value in the partition column and one and the same value in every join column. */
  function FilledRow(columns: seq<string>, cell: string, column: string, value: string): Row {
    map c | c in columns + [column] :: if c == column then value else cell
  }

  lemma FilledKey(columns: seq<string>, cell: string, column: string, value: string)
    requires column !in columns
    ensures var row := FilledRow(columns, cell, column, value);
            && column in row && row[column] == value
            && (forall c :: c in columns ==> c in row && row[c] == cell)
            && KeyOf(row, columns) == seq(|columns|, _ => cell)
  {
    var row := FilledRow(columns, cell, column, value);
    forall c | c in columns
      ensures c in row && row[c] == cell
    {
      assert c in columns + [column];
    }
    assert column in columns + [column];
    forall i | 0 <= i < |columns|
      ensures KeyOf(row, columns)[i] == cell
    {
      assert columns[i] in columns;
    }
  }

  lemma OnlyOne<P>(row: Row, layout: Layout<P>, p: P)
    ensures Only([row], layout, p) == if RouteOf(row, layout) == p then [row] else []
  {
    assert [row][1..] == [];
  }

  lemma MergeOne(row: Row, columns: seq<string>)
    ensures Merge([], [row], columns) == [row] && Merge([row], [], columns) == [row] && Merge([], [], columns) == []
  {
    var tail := [row][1..];
    assert tail == [];
    assert Unmatched([], [row], columns) == [row] + Unmatched([], tail, columns);
    assert UpdateAll([row], [], columns) == [Updated(row, [], columns)] + UpdateAll(tail, [], columns);
  }

  /**
   Joining on other columns only, a row that changes partition is duplicated instead of updated: the stored and
   the given row agree in every join column, the flat upsert replaces one by the other, and the partitions keep both.
   */
  lemma JoinElsewhereCanFail<P(!new)>(layout: Layout<P>, columns: seq<string>, cell: string, a: string, b: string)
    requires layout.column !in columns && (layout.route)(a) != (layout.route)(b)
    ensures var t, s := FilledRow(columns, cell, layout.column, a), FilledRow(columns, cell, layout.column, b);
            var before := map[(layout.route)(a) := [t]];
            var after := map[(layout.route)(a) := [t], (layout.route)(b) := [s]];
            && UniqueKeys([s], columns) && Represents(before, layout, [t])
            && UpsertedParts(before, after, layout, [s], columns)
            && !Represents(after, layout, Merge([t], [s], columns))
  {
    var t, s := FilledRow(columns, cell, layout.column, a), FilledRow(columns, cell, layout.column, b);
    var before := map[(layout.route)(a) := [t]];
    var after := map[(layout.route)(a) := [t], (layout.route)(b) := [s]];
    FilledKey(columns, cell, layout.column, a);
    FilledKey(columns, cell, layout.column, b);
    forall p
      ensures multiset(Part(before, p)) == multiset(Only([t], layout, p))
      ensures Part(after, p) == Merge(Part(before, p), Only([s], layout, p), columns)
    {
      OnlyOne(t, layout, p);
      OnlyOne(s, layout, p);
      MergeOne(t, columns);
      MergeOne(s, columns);
    }
    assert s in [s] && t in [t];
    UpsertAgreesExactly(before, after, [t], [s], columns, layout);
  }
}
