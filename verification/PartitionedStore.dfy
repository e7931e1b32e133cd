/**
 The partitioned table object: adds, upserts, deletes, counts and limited filters over
 partitions that are opened or created on demand, proved against the flat table.
 */
module PartitionedStore {
  import opened Basics
  import opened Sequences
  import opened Sorting
  import opened PartitionedTable

  datatype TableError = BadPartition | MissingPartition | OffsetNeedsOnePartition

  // ---- Grouping a data frame by partition ----

  /** The partitions of a data frame, in order of first appearance. */
  function GroupsOf<P(==)>(rows: seq<Row>, layout: Layout<P>): seq<P> {
    if rows == [] then []
    else
      var before := GroupsOf(rows[..|rows| - 1], layout);
      var p := RouteOf(rows[|rows| - 1], layout);
      if p in before then before else before + [p]
  }

  lemma {:induction false} GroupsCover<P>(rows: seq<Row>, layout: Layout<P>)
    ensures forall p :: p in GroupsOf(rows, layout) <==> exists i :: 0 <= i < |rows| && RouteOf(rows[i], layout) == p
    ensures Distinct(GroupsOf(rows, layout))
  {
    if rows != [] {
      GroupsCover(rows[..|rows| - 1], layout);
    }
  }

  lemma GroupsDistinct<P>(rows: seq<Row>, layout: Layout<P>)
    ensures Distinct(GroupsOf(rows, layout))
  {
    GroupsCover(rows, layout);
  }

  lemma {:induction false} NotGroupedIsEmpty<P>(rows: seq<Row>, layout: Layout<P>, p: P)
    requires p !in GroupsOf(rows, layout)
    ensures Only(rows, layout, p) == []
  {
    GroupsCover(rows, layout);
    if Only(rows, layout, p) != [] {
      var row := Only(rows, layout, p)[0];
      OnlyMembers(rows, layout, p, row);
    }
  }

  // ---- Runs ----

  datatype Op =
    | Add(rows: seq<Row>)
    | Upsert(columns: seq<string>, rows: seq<Row>)
    | Delete(where: Row -> bool)

  function Kept(rows: seq<Row>, where: Row -> bool): seq<Row> {
    if rows == [] then [] else (if where(rows[0]) then [] else [rows[0]]) + Kept(rows[1..], where)
  }

  lemma {:induction false} KeptCount(rows: seq<Row>, where: Row -> bool, row: Row)
    ensures multiset(Kept(rows, where))[row] == if where(row) then 0 else multiset(rows)[row]
  {
    if rows != [] {
      KeptCount(rows[1..], where, row);
      CountHead(rows, row);
      CountCons(rows[0], Kept(rows[1..], where), row);
    }
  }

  /** The operation on one stored table; `mine` are the given rows that belong to it. */
  function Apply(rows: seq<Row>, op: Op, mine: seq<Row>): seq<Row> {
    match op
    case Add(_) => rows + mine
    case Upsert(columns, _) => Merge(rows, mine, columns)
    case Delete(where) => Kept(rows, where)
  }

  /**
   How often a row is there after an operation: an add brings its rows, an upsert replaces the stored rows whose key
   it has and brings the others, a delete leaves no row that satisfies its condition.
   */
  function CountAfter(rows: seq<Row>, op: Op, mine: seq<Row>, row: Row): nat {
    match op
    case Add(_) => multiset(rows)[row] + multiset(mine)[row]
    case Upsert(columns, _) => MergedCount(rows, mine, columns, row)
    case Delete(where) => if where(row) then 0 else multiset(rows)[row]
  }

  lemma ApplyCounts(rows: seq<Row>, op: Op, mine: seq<Row>, row: Row)
    requires op.Upsert? ==> UniqueKeys(mine, op.columns)
    ensures multiset(Apply(rows, op, mine))[row] == CountAfter(rows, op, mine, row)
  {
    match op
    case Add(_) => CountConcat(rows, mine, row);
    case Upsert(columns, _) => MergeCount(rows, mine, columns, row);
    case Delete(where) => KeptCount(rows, where, row);
  }

  function Given(op: Op): seq<Row> {
    if op.Delete? then [] else op.rows
  }

  /** Upserts join on the partition column and carry each key once. */
  predicate WellKeyed<P>(op: Op, layout: Layout<P>) {
    op.Upsert? ==> layout.column in op.columns && UniqueKeys(op.rows, op.columns)
  }

  function FlatAfter(flat: seq<Row>, ops: seq<Op>): seq<Row>
    decreases |ops|
  {
    if ops == [] then flat else FlatAfter(Apply(flat, ops[0], Given(ops[0])), ops[1..])
  }

  /** Every partition went through the operation with the rows that belong to it. */
  ghost predicate Applied<P(!new)>(before: map<P, seq<Row>>, after: map<P, seq<Row>>, layout: Layout<P>, op: Op) {
    forall p :: Part(after, p) == Apply(Part(before, p), op, Only(Given(op), layout, p))
  }

  lemma {:induction false} OnlyConcat<P>(a: seq<Row>, b: seq<Row>, layout: Layout<P>, p: P)
    ensures Only(a + b, layout, p) == Only(a, layout, p) + Only(b, layout, p)
  {
    if a == [] {
      assert a + b == b;
    } else {
      OnlyConcat(a[1..], b, layout, p);
      TailOfConcat(a, b);
      Assoc(if RouteOf(a[0], layout) == p then [a[0]] else [], Only(a[1..], layout, p), Only(b, layout, p));
    }
  }

  lemma DeleteAgreesIn<P>(part: seq<Row>, flat: seq<Row>, where: Row -> bool, layout: Layout<P>, p: P)
    requires multiset(part) == multiset(Only(flat, layout, p))
    ensures multiset(Kept(part, where)) == multiset(Only(Kept(flat, where), layout, p))
  {
    forall row
      ensures multiset(Kept(part, where))[row] == multiset(Only(Kept(flat, where), layout, p))[row]
    {
      KeptCount(part, where, row);
      KeptCount(flat, where, row);
      OnlyCount(flat, layout, p, row);
      OnlyCount(Kept(flat, where), layout, p, row);
    }
  }

  lemma StepAgrees<P(!new)>(before: map<P, seq<Row>>, after: map<P, seq<Row>>, flat: seq<Row>, layout: Layout<P>,
                            op: Op)
    requires Represents(before, layout, flat) && WellKeyed(op, layout) && Applied(before, after, layout, op)
    ensures Represents(after, layout, Apply(flat, op, Given(op)))
  {
    match op
    case Add(rows) =>
      forall p
        ensures multiset(Part(after, p)) == multiset(Only(flat + rows, layout, p))
      {
        OnlyConcat(flat, rows, layout, p);
      }
    case Upsert(columns, rows) =>
      JoinOnPartitionColumn(flat, rows, columns, layout);
      UpsertAgreesExactly(before, after, flat, rows, columns, layout);
    case Delete(where) =>
      forall p
        ensures multiset(Part(after, p)) == multiset(Only(Kept(flat, where), layout, p))
      {
        DeleteAgreesIn(Part(before, p), flat, where, layout, p);
      }
  }

  lemma {:induction false} MergeNothing(rows: seq<Row>, columns: seq<string>)
    ensures Merge(rows, [], columns) == rows
  {
    if rows != [] {
      MergeNothing(rows[1..], columns);
      assert UpdateAll(rows, [], columns) == [rows[0]] + UpdateAll(rows[1..], [], columns);
      assert rows == [rows[0]] + rows[1..];
    }
  }

  /** The partitions after an operation; those it names are created. */
  function DbNext<P(==)>(db: map<P, seq<Row>>, layout: Layout<P>, op: Op): map<P, seq<Row>> {
    map p | p in db.Keys + (set g | g in GroupsOf(Given(op), layout)) ::
      Apply(Part(db, p), op, Only(Given(op), layout, p))
  }

  lemma DbNextApplied<P(!new)>(db: map<P, seq<Row>>, layout: Layout<P>, op: Op)
    ensures Applied(db, DbNext(db, layout, op), layout, op)
  {
    forall p
      ensures Part(DbNext(db, layout, op), p) == Apply(Part(db, p), op, Only(Given(op), layout, p))
    {
      if p !in DbNext(db, layout, op) {
        NotGroupedIsEmpty(Given(op), layout, p);
      }
    }
  }

  /** The partitions when only those in `done` have been written yet. */
  function WrittenTo<P(==)>(db: map<P, seq<Row>>, layout: Layout<P>, op: Op, done: seq<P>): (r: map<P, seq<Row>>)
    ensures r.Keys == db.Keys
  {
    map p | p in db :: if p in done then Apply(db[p], op, Only(Given(op), layout, p)) else db[p]
  }

  lemma WriteOne<P>(db: map<P, seq<Row>>, layout: Layout<P>, op: Op, done: seq<P>, p: P)
    requires p in db && p !in done
    ensures var before := WrittenTo(db, layout, op, done);
            WrittenTo(db, layout, op, done + [p]) == before[p := Apply(before[p], op, Only(Given(op), layout, p))]
  {
  }

  lemma OneMore<P>(ps: seq<P>, k: nat)
    requires k < |ps| && Distinct(ps)
    ensures ps[k] in ps && ps[k] !in ps[..k] && ps[..k + 1] == ps[..k] + [ps[k]]
  {
  }

  /** An operation has nothing to do where it brings no rows. */
  lemma NothingToWrite<P>(rows: seq<Row>, layout: Layout<P>, op: Op, p: P)
    requires !op.Delete? && p !in GroupsOf(Given(op), layout)
    ensures Apply(rows, op, Only(Given(op), layout, p)) == rows
  {
    NotGroupedIsEmpty(Given(op), layout, p);
    if op.Upsert? {
      MergeNothing(rows, op.columns);
    }
  }

  /** Writing every group, or for a delete every partition, is the whole operation. */
  lemma AllWritten<P>(db: map<P, seq<Row>>, layout: Layout<P>, op: Op, done: seq<P>)
    requires forall p :: p in GroupsOf(Given(op), layout) ==> p in db
    requires if op.Delete? then forall p :: p in db ==> p in done else done == GroupsOf(Given(op), layout)
    ensures WrittenTo(db, layout, op, done) == DbNext(db, layout, op)
  {
    var a, b := WrittenTo(db, layout, op, done), DbNext(db, layout, op);
    assert a.Keys == db.Keys == b.Keys;
    forall p | p in db
      ensures a[p] == b[p]
    {
      if p !in done {
        NothingToWrite(db[p], layout, op, p);
      }
    }
  }

  function DbAfter<P(==)>(db: map<P, seq<Row>>, layout: Layout<P>, ops: seq<Op>): map<P, seq<Row>>
    decreases |ops|
  {
    if ops == [] then db else DbAfter(DbNext(db, layout, ops[0]), layout, ops[1..])
  }

  lemma DbStepAgrees<P(!new)>(db: map<P, seq<Row>>, flat: seq<Row>, layout: Layout<P>, op: Op)
    requires Represents(db, layout, flat) && WellKeyed(op, layout)
    ensures Represents(DbNext(db, layout, op), layout, Apply(flat, op, Given(op)))
  {
    DbNextApplied(db, layout, op);
    StepAgrees(db, DbNext(db, layout, op), flat, layout, op);
  }

  /** Every partition after an operation holds each row as often as the operation says. */
  ghost predicate Counts<P(!new)>(before: map<P, seq<Row>>, after: map<P, seq<Row>>, layout: Layout<P>, op: Op) {
    forall p, row :: multiset(Part(after, p))[row] == CountAfter(Part(before, p), op, Only(Given(op), layout, p), row)
  }

  lemma DbNextCounts<P(!new)>(db: map<P, seq<Row>>, layout: Layout<P>, op: Op)
    ensures (op.Upsert? ==> UniqueKeys(op.rows, op.columns)) ==> Counts(db, DbNext(db, layout, op), layout, op)
  {
    DbNextApplied(db, layout, op);
    forall p, row | op.Upsert? ==> UniqueKeys(op.rows, op.columns)
      ensures multiset(Part(DbNext(db, layout, op), p))[row]
           == CountAfter(Part(db, p), op, Only(Given(op), layout, p), row)
    {
      if op.Upsert? {
        OnlyUnique(op.rows, op.columns, layout, p);
      }
      ApplyCounts(Part(db, p), op, Only(Given(op), layout, p), row);
    }
  }

  /** So an operation on the partitions leaves the rows that it says of the flat table. */
  lemma FlatCounts<P(!new)>(db: map<P, seq<Row>>, flat: seq<Row>, layout: Layout<P>, op: Op, row: Row)
    requires Represents(db, layout, flat) && WellKeyed(op, layout)
    ensures multiset(Part(DbNext(db, layout, op), RouteOf(row, layout)))[row] == CountAfter(flat, op, Given(op), row)
  {
    var p, result := RouteOf(row, layout), Apply(flat, op, Given(op));
    DbStepAgrees(db, flat, layout, op);
    assert multiset(Part(DbNext(db, layout, op), p)) == multiset(Only(result, layout, p));
    OnlyCount(result, layout, p, row);
    ApplyCounts(flat, op, Given(op), row);
  }

  /** Any run of adds, well-keyed upserts and deletes leaves the partitions of the flat run. */
  lemma {:induction false} RunAgrees<P(!new)>(db: map<P, seq<Row>>, flat: seq<Row>, layout: Layout<P>, ops: seq<Op>)
    requires Represents(db, layout, flat)
    requires forall i :: 0 <= i < |ops| ==> WellKeyed(ops[i], layout)
    ensures Represents(DbAfter(db, layout, ops), layout, FlatAfter(flat, ops))
    decreases |ops|
  {
    if ops != [] {
      DbStepAgrees(db, flat, layout, ops[0]);
      RunAgrees(DbNext(db, layout, ops[0]), Apply(flat, ops[0], Given(ops[0])), layout, ops[1..]);
    }
  }

  // ---- Counting ----

  function InAny<P(==)>(rows: seq<Row>, layout: Layout<P>, ps: set<P>): seq<Row> {
    if rows == [] then []
    else (if RouteOf(rows[0], layout) in ps then [rows[0]] else []) + InAny(rows[1..], layout, ps)
  }

  lemma {:induction false} InAnyAdds<P>(rows: seq<Row>, layout: Layout<P>, ps: set<P>, p: P)
    requires p !in ps
    ensures |InAny(rows, layout, ps + {p})| == |InAny(rows, layout, ps)| + |Only(rows, layout, p)|
  {
    if rows != [] {
      InAnyAdds(rows[1..], layout, ps, p);
    }
  }

  lemma {:induction false} InNoneOrAll<P>(rows: seq<Row>, layout: Layout<P>, ps: set<P>)
    ensures InAny(rows, layout, {}) == []
    ensures (forall i :: 0 <= i < |rows| ==> RouteOf(rows[i], layout) in ps) ==> InAny(rows, layout, ps) == rows
  {
    if rows != [] {
      InNoneOrAll(rows[1..], layout, ps);
      assert rows == [rows[0]] + rows[1..];
    }
  }

  // ---- Limited filters ----

  /** A limit of the query engine: the first rows only. */
  function Limited(rows: seq<Row>, limit: Option<nat>): seq<Row> {
    if limit.Some? then rows[..Min(limit.value, |rows|)] else rows
  }

  /** An offset of the query engine: all but the first rows. */
  function Skipped(rows: seq<Row>, offset: Option<nat>): seq<Row> {
    if offset.Some? then rows[Min(offset.value, |rows|)..] else rows
  }

  /** A page of rows: those from the offset on, up to the limit. */
  lemma PageIs(rows: seq<Row>, offset: Option<nat>, limit: Option<nat>, i: nat)
    ensures var page := Limited(Skipped(rows, offset), limit);
            var from := if offset.Some? then offset.value else 0;
            var left := if from < |rows| then |rows| - from else 0;
            && |page| == (if limit.Some? then Min(limit.value, left) else left)
            && (i < |page| ==> page[i] == rows[from + i])
  {
  }

  /** A query over one stored table: the matching rows, in the order asked for. */
  datatype Query = Query(answer: seq<Row> -> seq<Row>)

  /** The full answers of the given partitions, in order. */
  function Answers<P(==)>(db: map<P, seq<Row>>, partitions: seq<P>, query: Query): seq<Row> {
    if partitions == [] then []
    else (query.answer)(Part(db, partitions[0])) + Answers(db, partitions[1..], query)
  }

  /** A partition that does not exist stops the filter, unless the limit is used up before it is reached. */
  predicate MissingReached<P(==)>(db: map<P, seq<Row>>, partitions: seq<P>, query: Query, limit: Option<nat>) {
    exists i :: 0 <= i < |partitions| && partitions[i] !in db &&
      (i == 0 || limit.None? || |Answers(db, partitions[..i], query)| < limit.value)
  }

  lemma {:induction false} AnswersSnoc<P>(db: map<P, seq<Row>>, partitions: seq<P>, p: P, query: Query)
    ensures Answers(db, partitions + [p], query) == Answers(db, partitions, query) + (query.answer)(Part(db, p))
  {
    if partitions == [] {
      assert [p][1..] == [];
    } else {
      AnswersSnoc(db, partitions[1..], p, query);
      TailOfConcat(partitions, [p]);
      Assoc((query.answer)(Part(db, partitions[0])), Answers(db, partitions[1..], query), (query.answer)(Part(db, p)));
    }
  }

  lemma AnswersNext<P>(db: map<P, seq<Row>>, partitions: seq<P>, k: nat, query: Query)
    requires k < |partitions|
    ensures Answers(db, partitions[..k + 1], query)
         == Answers(db, partitions[..k], query) + (query.answer)(Part(db, partitions[k]))
  {
    AnswersSnoc(db, partitions[..k], partitions[k], query);
    assert partitions[..k] + [partitions[k]] == partitions[..k + 1];
  }

  lemma {:induction false} AnswersPrefix<P>(db: map<P, seq<Row>>, partitions: seq<P>, i: nat, query: Query)
    requires i <= |partitions|
    ensures Answers(db, partitions[..i], query) <= Answers(db, partitions, query)
    decreases |partitions| - i
  {
    if i < |partitions| {
      AnswersPrefix(db, partitions, i + 1, query);
      AnswersNext(db, partitions, i, query);
    } else {
      assert partitions[..i] == partitions;
    }
  }

  /** What is left of a limit after some rows. */
  predicate Budget(limit: Option<nat>, left: Option<nat>, result: seq<Row>) {
    if limit.None? then left.None? else left.Some? && left.value + |result| == limit.value
  }

  /** A part cut to what is left is either whole or fills the limit. */
  lemma Spend(limit: Option<nat>, left: Option<nat>, result: seq<Row>, answer: seq<Row>)
    requires Budget(limit, left, result)
    ensures var part := Limited(answer, left);
            && (left.None? ==> part == answer)
            && (left.Some? ==> |part| <= left.value)
            && (left.Some? && |part| < left.value ==> part == answer)
            && (left.Some? && |part| == left.value ==>
                  |result + answer| >= limit.value && result + part == Limited(result + answer, limit))
  {
  }

  lemma SortedNames<P(!new)>(names: seq<P>, leq: (P, P) -> bool)
    ensures var sorted := SortedBy(names, leq);
            && multiset(sorted) == multiset(names) && |sorted| == |names|
            && (forall p :: p in sorted <==> p in names)
            && (Distinct(names) ==> Distinct(sorted))
            && (IsTotal(leq) ==> AscendingBy(sorted, leq))
  {
    var sorted := SortedBy(names, leq);
    SortedPermutes(names, leq);
    assert |multiset(sorted)| == |sorted| && |multiset(names)| == |names|;
    SameMembers(sorted, names);
    if Distinct(names) {
      DistinctPermutes(names, sorted);
    }
    if IsTotal(leq) {
      SortedAscends(names, leq);
    }
  }

  // ---- Filters against the flat table ----

  function Matching(rows: seq<Row>, where: Row -> bool): seq<Row> {
    if rows == [] then [] else (if where(rows[0]) then [rows[0]] else []) + Matching(rows[1..], where)
  }

  /** The query answers with the rows that satisfy a condition, in whatever order. */
  ghost predicate Selects(query: Query, where: Row -> bool) {
    forall rows :: multiset((query.answer)(rows)) == multiset(Matching(rows, where))
  }

  lemma {:induction false} MatchingCount(rows: seq<Row>, where: Row -> bool, row: Row)
    ensures multiset(Matching(rows, where))[row] == if where(row) then multiset(rows)[row] else 0
  {
    if rows != [] {
      MatchingCount(rows[1..], where, row);
      CountHead(rows, row);
      CountCons(rows[0], Matching(rows[1..], where), row);
    }
  }

  lemma PartAnswerCount<P(!new)>(db: map<P, seq<Row>>, layout: Layout<P>, flat: seq<Row>, p: P, query: Query,
                                 where: Row -> bool, row: Row)
    requires Represents(db, layout, flat) && Selects(query, where)
    ensures multiset((query.answer)(Part(db, p)))[row]
         == if where(row) && RouteOf(row, layout) == p then multiset(flat)[row] else 0
  {
    assert multiset((query.answer)(Part(db, p))) == multiset(Matching(Part(db, p), where));
    MatchingCount(Part(db, p), where, row);
    assert multiset(Part(db, p)) == multiset(Only(flat, layout, p));
    OnlyCount(flat, layout, p, row);
  }

  lemma {:induction false} AnswersCount<P(!new)>(db: map<P, seq<Row>>, layout: Layout<P>, flat: seq<Row>, ps: seq<P>,
                                                 query: Query, where: Row -> bool, row: Row)
    requires Represents(db, layout, flat) && Selects(query, where) && Distinct(ps)
    ensures multiset(Answers(db, ps, query))[row]
         == if where(row) && RouteOf(row, layout) in ps then multiset(flat)[row] else 0
    decreases |ps|
  {
    if ps != [] {
      AnswersCount(db, layout, flat, ps[1..], query, where, row);
      PartAnswerCount(db, layout, flat, ps[0], query, where, row);
      CountConcat((query.answer)(Part(db, ps[0])), Answers(db, ps[1..], query), row);
      assert ps[0] !in ps[1..];
      assert RouteOf(row, layout) in ps <==> RouteOf(row, layout) == ps[0] || RouteOf(row, layout) in ps[1..];
    }
  }

  /** Over all partitions, the answers are those of the flat table, order aside. */
  lemma FilterIsFlat<P(!new)>(db: map<P, seq<Row>>, layout: Layout<P>, flat: seq<Row>, partitions: seq<P>,
                              query: Query, where: Row -> bool)
    requires Represents(db, layout, flat) && Selects(query, where)
    requires Distinct(partitions) && forall p :: p in partitions <==> p in db
    ensures multiset(Answers(db, partitions, query)) == multiset(Matching(flat, where))
  {
    forall row
      ensures multiset(Answers(db, partitions, query))[row] == multiset(Matching(flat, where))[row]
    {
      AnswersCount(db, layout, flat, partitions, query, where, row);
      MatchingCount(flat, where, row);
      var p := RouteOf(row, layout);
      if p !in partitions {
        assert multiset(Part(db, p)) == multiset(Only(flat, layout, p));
        OnlyCount(flat, layout, p, row);
      }
    }
  }

  /** With a limit, they are as many of them as the limit admits. */
  lemma LimitedFilterIsFlat<P(!new)>(db: map<P, seq<Row>>, layout: Layout<P>, flat: seq<Row>, partitions: seq<P>,
                                     query: Query, where: Row -> bool, limit: Option<nat>)
    requires Represents(db, layout, flat) && Selects(query, where)
    requires Distinct(partitions) && forall p :: p in partitions <==> p in db
    ensures !MissingReached(db, partitions, query, limit)
    ensures var rows, all := Limited(Answers(db, partitions, query), limit), Matching(flat, where);
            && multiset(rows) <= multiset(all)
            && |rows| == if limit.Some? then Min(limit.value, |all|) else |all|
  {
    FilterIsFlat(db, layout, flat, partitions, query, where);
    LimitedSize(Answers(db, partitions, query), Matching(flat, where), limit);
    forall i | 0 <= i < |partitions|
      ensures partitions[i] in db
    {
      assert partitions[i] in partitions;
    }
  }

  lemma LimitedSize(answers: seq<Row>, all: seq<Row>, limit: Option<nat>)
    requires multiset(answers) == multiset(all)
    ensures multiset(Limited(answers, limit)) <= multiset(all)
    ensures |Limited(answers, limit)| == if limit.Some? then Min(limit.value, |all|) else |all|
  {
    assert |multiset(answers)| == |answers| && |multiset(all)| == |all|;
    var rows := Limited(answers, limit);
    assert answers == rows + answers[|rows|..];
    forall row
      ensures multiset(rows)[row] <= multiset(all)[row]
    {
      CountConcat(rows, answers[|rows|..], row);
    }
  }

  // ---- The table object ----

  class Table<P(==, !new)> {
    const layout: Layout<P>
    /** Partition names a table can be opened for. */
    const admits: P -> bool
    /** The order in which partition names sort. */
    const leq: (P, P) -> bool
    var db: map<P, seq<Row>>
    var tables: set<P>

    ghost predicate Valid()
      reads this
    {
      && tables <= db.Keys
      && forall p :: p in db ==> admits(p)
    }

    /** The rows of the partitions, without regard to which partitions exist. */
    ghost predicate SameRows(before: map<P, seq<Row>>)
      reads this
    {
      forall p :: Part(db, p) == Part(before, p)
    }

    constructor (layout: Layout<P>, admits: P -> bool, leq: (P, P) -> bool, existing: map<P, seq<Row>>)
      requires forall p :: p in existing ==> admits(p)
      ensures Valid() && db == existing && tables == {}
      ensures this.layout == layout && this.admits == admits && this.leq == leq
    {
      this.layout, this.admits, this.leq := layout, admits, leq;
      db, tables := existing, {};
    }

    method OpenOne(p: P, createWhenMissing: bool) returns (r: Result<(), TableError>)
      requires Valid()
      modifies this
      ensures Valid()
      ensures r.Ok? <==> admits(p) && (createWhenMissing || p in old(db))
      ensures r.Err? ==> r.error == if admits(p) then MissingPartition else BadPartition
      ensures db == if r.Ok? && p !in old(db) then old(db)[p := []] else old(db)
      ensures tables == if r.Ok? then old(tables) + {p} else old(tables)
    {
      if !admits(p) {
        return Err(BadPartition);
      }
      if p in tables {
        assert tables == tables + {p};
        return Ok(());
      }
      if p !in db {
        if !createWhenMissing {
          return Err(MissingPartition);
        }
        db := db[p := []];
      }
      tables := tables + {p};
      return Ok(());
    }

    /** Opens the given partitions in turn, stopping at the first that cannot be opened. */
    method OpenTable(partitions: seq<P>, createWhenMissing: bool) returns (r: Result<(), TableError>)
      requires Valid()
      modifies this
      ensures Valid() && SameRows(old(db))
      ensures r.Ok? <==> forall p :: p in partitions ==> admits(p) && (createWhenMissing || p in old(db))
      ensures r.Ok? ==> forall p :: p in tables <==> p in old(tables) || p in partitions
      ensures r.Ok? ==> forall p :: p in partitions ==> p in db
      ensures forall p :: p in old(db) ==> p in db
      ensures forall p :: p in db ==> p in old(db) || p in partitions
      ensures !createWhenMissing ==> db == old(db)
    {
      for k := 0 to |partitions|
        invariant Valid() && SameRows(old(db))
        invariant forall p :: p in tables <==> p in old(tables) || p in partitions[..k]
        invariant forall p :: p in old(db) ==> p in db
        invariant forall p :: p in db ==> p in old(db) || p in partitions[..k]
        invariant !createWhenMissing ==> db == old(db)
        invariant forall p :: p in partitions[..k] ==> admits(p) && (createWhenMissing || p in old(db))
      {
        assert partitions[..k + 1] == partitions[..k] + [partitions[k]];
        var one := OpenOne(partitions[k], createWhenMissing);
        if one.Err? {
          assert partitions[k] in partitions;
          return one;
        }
      }
      assert partitions[..|partitions|] == partitions;
      return Ok(());
    }

    /** The write to one partition, with the rows that belong to it. */
    method WriteTo(op: Op, p: P, ghost before: map<P, seq<Row>>, ghost done: seq<P>)
      requires db == WrittenTo(before, layout, op, done) && p in db && p !in done
      modifies this`db
      ensures db == WrittenTo(before, layout, op, done + [p])
    {
      WriteOne(before, layout, op, done, p);
      var mine := Only(Given(op), layout, p);
      db := db[p := Apply(db[p], op, mine)];
    }

    /** The writes of one operation, partition by partition; no other partition is touched. */
    method ApplyTo(op: Op, partitions: seq<P>)
      requires Distinct(partitions)
      requires forall p :: p in partitions ==> p in db
      modifies this`db
      ensures db == WrittenTo(old(db), layout, op, partitions) && db.Keys == old(db).Keys
    {
      for k := 0 to |partitions|
        invariant db == WrittenTo(old(db), layout, op, partitions[..k])
      {
        OneMore(partitions, k);
        WriteTo(op, partitions[k], old(db), partitions[..k]);
      }
      assert partitions[..|partitions|] == partitions;
    }

    /** `add` and `upsert`: group, open or create every group's table, then write group by group. */
    method Write(op: Op, partition: Option<P>) returns (r: Result<(), TableError>)
      requires Valid() && !op.Delete?
      modifies this
      ensures Valid()
      ensures r.Ok? <==>
              && (partition.Some? ==> GroupsOf(op.rows, layout) == [partition.value])
              && forall p :: p in GroupsOf(op.rows, layout) ==> admits(p)
      ensures r.Ok? ==> db == DbNext(old(db), layout, op)
      ensures r.Ok? && (op.Upsert? ==> UniqueKeys(op.rows, op.columns)) ==> Counts(old(db), db, layout, op)
      ensures r.Err? ==> SameRows(old(db))
    {
      var groups := GroupsOf(op.rows, layout);
      if partition.Some? && groups != [partition.value] {
        return Err(BadPartition);
      }
      r := WriteGroups(op, groups);
      DbNextCounts(old(db), layout, op);
    }

    method WriteGroups(op: Op, groups: seq<P>) returns (r: Result<(), TableError>)
      requires Valid() && !op.Delete? && groups == GroupsOf(op.rows, layout)
      modifies this
      ensures Valid()
      ensures r.Ok? <==> forall p :: p in groups ==> admits(p)
      ensures r.Ok? ==> db == DbNext(old(db), layout, op)
      ensures r.Err? ==> SameRows(old(db))
    {
      r := OpenTable(groups, true);
      if r.Ok? {
        GroupsDistinct(op.rows, layout);
        WholeWrite(old(db), db, layout, op, groups);
        ApplyTo(op, groups);
      }
    }

    /** `delete`, in one partition or in all of them. */
    method DeleteRows(where: Row -> bool, partition: Option<P>) returns (r: Result<(), TableError>)
      requires Valid()
      modifies this
      ensures Valid()
      ensures partition.None? ==> r.Ok? && db == DbNext(old(db), layout, Delete(where))
      ensures partition.None? ==> Counts(old(db), db, layout, Delete(where))
      ensures partition.Some? ==>
                && (r.Ok? <==> partition.value in old(db))
                && db == if r.Ok? then old(db)[partition.value := Kept(old(db)[partition.value], where)] else old(db)
    {
      if partition.Some? {
        r := OpenOne(partition.value, false);
        if r.Ok? {
          db := db[partition.value := Kept(db[partition.value], where)];
        }
        return;
      }
      var partitions := ListPartitions();
      r := OpenTable(partitions, false);
      AllWritten(db, layout, Delete(where), partitions);
      ApplyTo(Delete(where), partitions);
      DbNextCounts(old(db), layout, Delete(where));
    }

    /** The existing partitions, in no particular order. */
    method ListPartitions() returns (partitions: seq<P>)
      ensures Distinct(partitions) && forall p :: p in partitions <==> p in db
    {
      partitions := [];
      var rest := db.Keys;
      while rest != {}
        invariant rest <= db.Keys
        invariant Distinct(partitions) && forall p :: p in partitions <==> p in db && p !in rest
        decreases rest
      {
        var p :| p in rest;
        partitions := partitions + [p];
        rest := rest - {p};
      }
    }

    /** `count_rows`: the rows of the flat table, or those of it that belong to one partition. */
    method CountRows(partition: Option<P>, ghost flat: seq<Row>) returns (r: Result<nat, TableError>)
      requires Valid() && Represents(db, layout, flat)
      modifies this
      ensures Valid() && db == old(db)
      ensures partition.None? ==> r == Ok(|flat|)
      ensures partition.Some? ==>
                r.Ok? == (partition.value in db) && (r.Ok? ==> r.value == |Only(flat, layout, partition.value)|)
    {
      if partition.Some? {
        var one := OpenOne(partition.value, false);
        if one.Err? {
          return Err(one.error);
        }
        PartSize(db, layout, flat, partition.value);
        return Ok(|db[partition.value]|);
      }
      var partitions := ListPartitions();
      var _ := OpenTable(partitions, false);
      var count := SumOpened(flat);
      return Ok(count);
    }

    /** The sum over the opened tables, which are all there are. */
    method SumOpened(ghost flat: seq<Row>) returns (count: nat)
      requires Valid() && Represents(db, layout, flat) && tables == db.Keys
      ensures count == |flat|
    {
      count := 0;
      var rest := tables;
      InNoneOrAll(flat, layout, db.Keys);
      assert tables - rest == {};
      while rest != {}
        invariant rest <= tables
        invariant count == |InAny(flat, layout, tables - rest)|
        decreases rest
      {
        var p :| p in rest;
        InAnyAdds(flat, layout, tables - rest, p);
        assert tables - (rest - {p}) == tables - rest + {p};
        PartSize(db, layout, flat, p);
        count := count + |db[p]|;
        rest := rest - {p};
      }
      assert tables - rest == db.Keys;
      forall i | 0 <= i < |flat|
        ensures RouteOf(flat[i], layout) in db
      {
        PartSize(db, layout, flat, RouteOf(flat[i], layout));
        OnlyMembers(flat, layout, RouteOf(flat[i], layout), flat[i]);
      }
    }

    /** The query on one partition, which is opened for it. */
    method QueryOne(p: P, query: Query, limit: Option<nat>, offset: Option<nat>)
      returns (r: Result<seq<Row>, TableError>)
      requires Valid()
      modifies this
      ensures Valid() && db == old(db)
      ensures r.Ok? <==> p in db
      ensures r.Ok? ==> r.value == Limited(Skipped((query.answer)(Part(db, p)), offset), limit)
    {
      var one := OpenOne(p, false);
      if one.Err? {
        return Err(one.error);
      }
      return Ok(Limited(Skipped((query.answer)(db[p]), offset), limit));
    }

    /** `filter` over the given partitions, or over all there are, in sorted order. */
    method Filter(given: Option<seq<P>>, query: Query, limit: Option<nat>, offset: Option<nat>)
      returns (r: Result<seq<Row>, TableError>, ghost partitions: seq<P>)
      requires Valid()
      modifies this
      ensures Valid() && db == old(db)
      ensures IsTotal(leq) ==> AscendingBy(partitions, leq)
      ensures given.Some? ==> multiset(partitions) == multiset(given.value)
      ensures given.None? ==> Distinct(partitions) && forall p :: p in partitions <==> p in db
      ensures offset.Some? && |partitions| != 1 ==> r == Err(OffsetNeedsOnePartition)
      ensures offset.Some? && |partitions| == 1 ==>
                r.Ok? == (partitions[0] in db) &&
                (r.Ok? ==> r.value == Limited(Skipped((query.answer)(Part(db, partitions[0])), offset), limit))
      ensures offset.None? ==>
                r.Ok? == !MissingReached(db, partitions, query, limit) &&
                (r.Ok? ==> r.value == Limited(Answers(db, partitions, query), limit))
    {
      var names := [];
      if given.Some? {
        names := given.value;
      } else {
        names := ListPartitions();
      }
      var sorted := SortedBy(names, leq);
      SortedNames(names, leq);
      partitions := sorted;
      if offset.None? {
        r := FilterAll(sorted, query, limit);
      } else if |names| != 1 {
        r := Err(OffsetNeedsOnePartition);
      } else {
        r := QueryOne(sorted[0], query, limit, offset);
      }
    }

    method FilterAll(partitions: seq<P>, query: Query, limit: Option<nat>) returns (r: Result<seq<Row>, TableError>)
      requires Valid()
      modifies this
      ensures Valid() && db == old(db)
      ensures r.Ok? == !MissingReached(db, partitions, query, limit)
      ensures r.Ok? ==> r.value == Limited(Answers(db, partitions, query), limit)
    {
      var result: seq<Row> := [];
      var left: Option<nat> := limit;
      for k := 0 to |partitions|
        invariant Valid() && db == old(db)
        invariant Filtering(db, partitions, query, limit, k, left, result)
      {
        var part := QueryOne(partitions[k], query, left, None);
        if part.Err? {
          FilterMisses(db, partitions, query, limit, k, left, result);
          return part;
        }
        FilterMoves(db, partitions, query, limit, k, left, result, part.value);
        result := result + part.value;
        left := Rest(left, part.value);
        if left == Some(0) {
          return Ok(result);
        }
      }
      FilterEnds(db, partitions, query, limit, left, result);
      return Ok(result);
    }
  }

  /** What is left of a limit after some more rows. */
  function Rest(left: Option<nat>, part: seq<Row>): Option<nat> {
    if left.None? then None else if |part| >= left.value then Some(0) else Some(left.value - |part|)
  }

  /** The filter has gone through `k` partitions and has room for more. */
  ghost predicate Filtering<P>(db: map<P, seq<Row>>, partitions: seq<P>, query: Query, limit: Option<nat>, k: nat,
                               left: Option<nat>, result: seq<Row>)
  {
    && k <= |partitions| && result == Answers(db, partitions[..k], query) && Budget(limit, left, result)
    && (left.Some? && k > 0 ==> left.value > 0)
    && forall i :: 0 <= i < k ==> partitions[i] in db
  }

  lemma FilterMisses<P>(db: map<P, seq<Row>>, partitions: seq<P>, query: Query, limit: Option<nat>, k: nat,
                        left: Option<nat>, result: seq<Row>)
    requires k < |partitions| && Filtering(db, partitions, query, limit, k, left, result) && partitions[k] !in db
    ensures MissingReached(db, partitions, query, limit)
  {
  }

  lemma FilterMoves<P>(db: map<P, seq<Row>>, partitions: seq<P>, query: Query, limit: Option<nat>, k: nat,
                       left: Option<nat>, result: seq<Row>, part: seq<Row>)
    requires k < |partitions| && Filtering(db, partitions, query, limit, k, left, result) && partitions[k] in db
    requires part == Limited((query.answer)(Part(db, partitions[k])), left)
    ensures if Rest(left, part) == Some(0)
            then && !MissingReached(db, partitions, query, limit)
                 && result + part == Limited(Answers(db, partitions, query), limit)
            else Filtering(db, partitions, query, limit, k + 1, Rest(left, part), result + part)
  {
    AnswersNext(db, partitions, k, query);
    Spend(limit, left, result, (query.answer)(Part(db, partitions[k])));
    if Rest(left, part) == Some(0) {
      EnoughFound(db, partitions, query, limit, k + 1);
    }
  }

  lemma FilterEnds<P>(db: map<P, seq<Row>>, partitions: seq<P>, query: Query, limit: Option<nat>,
                      left: Option<nat>, result: seq<Row>)
    requires Filtering(db, partitions, query, limit, |partitions|, left, result)
    ensures !MissingReached(db, partitions, query, limit)
    ensures result == Limited(Answers(db, partitions, query), limit)
  {
    assert partitions[..|partitions|] == partitions;
  }

  lemma NotReached<P>(db: map<P, seq<Row>>, partitions: seq<P>, query: Query, limit: Option<nat>, k: nat)
    requires 0 < k <= |partitions| && limit.Some?
    requires forall i :: 0 <= i < k ==> partitions[i] in db
    requires |Answers(db, partitions[..k], query)| >= limit.value
    ensures !MissingReached(db, partitions, query, limit)
  {
    forall i | k <= i < |partitions|
      ensures |Answers(db, partitions[..i], query)| >= limit.value
    {
      AnswersPrefix(db, partitions[..i], k, query);
      assert partitions[..i][..k] == partitions[..k];
    }
  }

  /** A prefix of the partitions that fills the limit gives the whole answer. */
  lemma EnoughFound<P>(db: map<P, seq<Row>>, partitions: seq<P>, query: Query, limit: Option<nat>, k: nat)
    requires 0 < k <= |partitions| && limit.Some?
    requires forall i :: 0 <= i < k ==> partitions[i] in db
    requires |Answers(db, partitions[..k], query)| >= limit.value
    ensures !MissingReached(db, partitions, query, limit)
    ensures Limited(Answers(db, partitions, query), limit) == Limited(Answers(db, partitions[..k], query), limit)
  {
    AnswersPrefix(db, partitions, k, query);
    NotReached(db, partitions, query, limit, k);
  }

  lemma PartSize<P(!new)>(db: map<P, seq<Row>>, layout: Layout<P>, flat: seq<Row>, p: P)
    requires Represents(db, layout, flat)
    ensures |Part(db, p)| == |Only(flat, layout, p)|
  {
    assert |multiset(Part(db, p))| == |Part(db, p)|;
    assert |multiset(Only(flat, layout, p))| == |Only(flat, layout, p)|;
  }

  /** Writing the groups, once their tables are open, is the whole operation. */
  lemma WholeWrite<P(!new)>(before: map<P, seq<Row>>, made: map<P, seq<Row>>, layout: Layout<P>, op: Op, groups: seq<P>)
    requires !op.Delete? && groups == GroupsOf(op.rows, layout)
    requires forall p :: Part(made, p) == Part(before, p)
    requires forall p :: p in before ==> p in made
    requires forall p :: p in groups ==> p in made
    requires forall p :: p in made ==> p in before || p in groups
    ensures WrittenTo(made, layout, op, groups) == DbNext(before, layout, op)
  {
    OpenedForGroups(before, made, layout, op, groups);
    AllWritten(made, layout, op, groups);
  }

  /** Creating empty tables for the groups of an operation does not change what the operation leads to. */
  lemma OpenedForGroups<P(!new)>(before: map<P, seq<Row>>, made: map<P, seq<Row>>, layout: Layout<P>, op: Op,
                                 groups: seq<P>)
    requires groups == GroupsOf(Given(op), layout)
    requires forall p :: Part(made, p) == Part(before, p)
    requires forall p :: p in before ==> p in made
    requires forall p :: p in made ==> p in before || p in groups
    ensures DbNext(made, layout, op) == DbNext(before, layout, op)
  {
    var named := set g | g in groups;
    assert made.Keys + named == before.Keys + named;
    var a, b := DbNext(made, layout, op), DbNext(before, layout, op);
    assert a.Keys == b.Keys;
    forall p | p in a
      ensures a[p] == b[p]
    {
      assert Part(made, p) == Part(before, p);
    }
    assert a == b;
  }
}
