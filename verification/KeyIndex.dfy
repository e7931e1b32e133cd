/**
 Key-value access on top of the queue: each key of a partition points at the row of its most
 recent successful put, and the row itself stays in the log.
 */
module KeyIndex {
  import opened Basics
  import opened Sequences
  import F = FlushProtocol
  import L = LanceLog
  import R = FlightReads

  /** A stored sample: its tensor field names in order, and the stored cells. */
  datatype Row = Row(names: seq<string>, cells: map<string, string>)

  /** Plain dicts go through `put`, which reports no indexes; tensor batches report theirs. */
  datatype Data = Plain(rows: seq<Row>) | Tensor(rows: seq<Row>)

  datatype Slot = Slot(partition: string, key: string)

  datatype State = State(log: seq<Row>, index: map<Slot, nat>, fields: map<Slot, seq<string>>, tags: map<Slot, string>)

  datatype Op =
    | Put(slot: Slot, data: Data, tag: string)
    | BatchPut(partition: string, keys: seq<string>, data: Data, tags: seq<string>)
    | Append(rows: seq<Row>)

  /** What a put leaves behind: without an index report of the right size it fails, after the rows were appended. */
  predicate Reports(data: Data, size: nat) {
    data.Tensor? && |data.rows| == size
  }

  function FieldNames(data: Data): seq<string> {
    if data.rows == [] then [] else data.rows[0].names
  }

  predicate Accepted(op: Op) {
    match op
    case Put(_, data, _) => Reports(data, 1)
    case BatchPut(_, keys, data, tags) =>
      Distinct(keys) && Reports(data, |keys|) && (tags == [] || |tags| == |keys|)
    case Append(_) => true
  }

  function RowsOf(op: Op): seq<Row> {
    match op
    case Put(_, data, _) => data.rows
    case BatchPut(_, keys, data, _) => if Distinct(keys) then data.rows else []
    case Append(rows) => rows
  }

  /** Points the keys at consecutive rows from `start` on. */
  function Register(s: State, partition: string, keys: seq<string>, start: nat, names: seq<string>,
                    tags: seq<string>): State
    requires tags == [] || |tags| == |keys|
  {
    if keys == [] then s
    else
      var last := |keys| - 1;
      var t := Register(s, partition, keys[..last], start, names, if tags == [] then [] else tags[..last]);
      var slot := Slot(partition, keys[last]);
      t.(index := t.index[slot := start + last],
         fields := t.fields[slot := names],
         tags := t.tags[slot := if tags == [] then "" else tags[last]])
  }

  function Next(s: State, op: Op): State {
    var appended := s.(log := s.log + RowsOf(op));
    if !Accepted(op) then appended
    else match op
      case Put(slot, data, tag) =>
        appended.(index := s.index[slot := |s.log|],
                  fields := s.fields[slot := FieldNames(data)],
                  tags := s.tags[slot := tag])
      case BatchPut(partition, keys, data, tags) =>
        Register(appended, partition, keys, |s.log|, FieldNames(data), tags)
      case Append(_) => appended
  }

  function StateAfter(ops: seq<Op>, n: nat): State
    requires n <= |ops|
  {
    if n == 0 then State([], map[], map[], map[]) else Next(StateAfter(ops, n - 1), ops[n - 1])
  }

  // ---- The reference: search the history backwards ----

  function PositionOf(keys: seq<string>, key: string): Option<nat> {
    if keys == [] then None
    else if keys[|keys| - 1] == key then Some(|keys| - 1)
    else PositionOf(keys[..|keys| - 1], key)
  }

  lemma {:induction false} PositionIsThere(keys: seq<string>, key: string)
    ensures PositionOf(keys, key).Some? ==>
            PositionOf(keys, key).value < |keys| && keys[PositionOf(keys, key).value] == key
    ensures PositionOf(keys, key).None? ==> key !in keys
  {
    if keys != [] {
      PositionIsThere(keys[..|keys| - 1], key);
      assert keys == keys[..|keys| - 1] + [keys[|keys| - 1]];
    }
  }

  /** A stored sample, and what is registered for its key: its tag, and the field names of its batch's first sample. */
  datatype Entry = Entry(row: Row, names: seq<string>, tag: string)

  /** The entry an operation stores under a slot, if it does. */
  function Stored(op: Op, slot: Slot): Option<Entry> {
    if !Accepted(op) then None
    else match op
      case Put(s, data, tag) => if s == slot then Some(Entry(data.rows[0], data.rows[0].names, tag)) else None
      case BatchPut(partition, keys, data, tags) =>
        var at := PositionOf(keys, slot.key);
        if partition == slot.partition && at.Some? && at.value < |data.rows| && (tags == [] || at.value < |tags|)
        then Some(Entry(data.rows[at.value], data.rows[0].names, if tags == [] then "" else tags[at.value]))
        else None
      case Append(_) => None
  }

  /** The entry of the most recent put under a slot. */
  function Latest(ops: seq<Op>, n: nat, slot: Slot): Option<Entry>
    requires n <= |ops|
  {
    if n == 0 then None
    else if Stored(ops[n - 1], slot).Some? then Stored(ops[n - 1], slot)
    else Latest(ops, n - 1, slot)
  }

  /** A slot is known exactly when it was put, and it points at the row of its latest put. */
  predicate Points(s: State, slot: Slot, entry: Option<Entry>) {
    && (slot in s.index <==> entry.Some?)
    && (slot in s.fields <==> entry.Some?)
    && (slot in s.tags <==> entry.Some?)
    && (entry.Some? ==>
          && s.index[slot] < |s.log|
          && s.log[s.index[slot]] == entry.value.row
          && s.fields[slot] == entry.value.names
          && s.tags[slot] == entry.value.tag)
  }

  lemma {:induction false} RegisterPoints(s: State, partition: string, keys: seq<string>, start: nat,
                                          names: seq<string>, tags: seq<string>, slot: Slot)
    requires tags == [] || |tags| == |keys|
    ensures var t := Register(s, partition, keys, start, names, tags);
            var at := PositionOf(keys, slot.key);
            && t.log == s.log
            && if slot.partition == partition && at.Some?
               then && slot in t.index && t.index[slot] == start + at.value
                    && slot in t.fields && t.fields[slot] == names
               else && (slot in t.index <==> slot in s.index) && (slot in s.index ==> t.index[slot] == s.index[slot])
                    && (slot in t.fields <==> slot in s.fields)
                    && (slot in s.fields ==> t.fields[slot] == s.fields[slot])
  {
    if keys != [] {
      var last := |keys| - 1;
      RegisterPoints(s, partition, keys[..last], start, names, if tags == [] then [] else tags[..last], slot);
    }
  }

  lemma {:induction false} RegisterTags(s: State, partition: string, keys: seq<string>, start: nat,
                                        names: seq<string>, tags: seq<string>, slot: Slot)
    requires tags == [] || |tags| == |keys|
    ensures var t := Register(s, partition, keys, start, names, tags);
            var at := PositionOf(keys, slot.key);
            if slot.partition == partition && at.Some?
            then && slot in t.tags && (tags == [] || at.value < |tags|)
                 && t.tags[slot] == if tags == [] then "" else tags[at.value]
            else && (slot in t.tags <==> slot in s.tags) && (slot in s.tags ==> t.tags[slot] == s.tags[slot])
  {
    if keys != [] {
      var last := |keys| - 1;
      RegisterTags(s, partition, keys[..last], start, names, if tags == [] then [] else tags[..last], slot);
    }
  }

  lemma StepPoints(s: State, op: Op, slot: Slot, entry: Option<Entry>)
    requires Points(s, slot, entry)
    ensures Points(Next(s, op), slot, if Stored(op, slot).Some? then Stored(op, slot) else entry)
  {
    if op.BatchPut? && Accepted(op) {
      var appended := s.(log := s.log + RowsOf(op));
      RegisterPoints(appended, op.partition, op.keys, |s.log|, FieldNames(op.data), op.tags, slot);
      RegisterTags(appended, op.partition, op.keys, |s.log|, FieldNames(op.data), op.tags, slot);
      PositionIsThere(op.keys, slot.key);
    }
  }

  /** After any operations, failing ones included, every slot points at its latest row. */
  lemma {:induction false} IndexFollowsHistory(ops: seq<Op>, n: nat, slot: Slot)
    requires n <= |ops|
    ensures Points(StateAfter(ops, n), slot, Latest(ops, n, slot))
  {
    if n > 0 {
      IndexFollowsHistory(ops, n - 1, slot);
      StepPoints(StateAfter(ops, n - 1), ops[n - 1], slot, Latest(ops, n - 1, slot));
    }
  }

  // ---- Reading ----

  function Resolve(index: map<Slot, nat>, partition: string, keys: seq<string>): seq<nat> {
    if keys == [] then []
    else
      var slot := Slot(partition, keys[0]);
      (if slot in index then [index[slot]] else []) + Resolve(index, partition, keys[1..])
  }

  /** The field names of the first known key that has any. */
  function InferFields(fields: map<Slot, seq<string>>, partition: string, keys: seq<string>): seq<string> {
    if keys == [] then []
    else
      var slot := Slot(partition, keys[0]);
      if slot in fields && fields[slot] != [] then fields[slot] else InferFields(fields, partition, keys[1..])
  }

  /** The chosen fields of a row; an empty choice means the fields the row was stored with. */
  function Project(row: Row, names: seq<string>): map<string, string> {
    var chosen := if names == [] then row.names else names;
    map name | name in chosen && name in row.cells :: row.cells[name]
  }

  function ProjectAll(rows: seq<Row>, names: seq<string>): seq<map<string, string>> {
    seq(|rows|, i requires 0 <= i < |rows| => Project(rows[i], names))
  }

  function BatchGet(s: State, partition: string, keys: seq<string>, fields: seq<string>): seq<map<string, string>> {
    var names := if fields != [] then fields else InferFields(s.fields, partition, keys);
    ProjectAll(L.Gather(s.log, Resolve(s.index, partition, keys)), names)
  }

  /** The latest rows of the known keys, in request order. */
  function LatestRows(ops: seq<Op>, n: nat, partition: string, keys: seq<string>): seq<Row>
    requires n <= |ops|
  {
    if keys == [] then []
    else
      var entry := Latest(ops, n, Slot(partition, keys[0]));
      (if entry.Some? then [entry.value.row] else []) + LatestRows(ops, n, partition, keys[1..])
  }

  /** The registered field names of the first requested key that has any. */
  function LatestNames(ops: seq<Op>, n: nat, partition: string, keys: seq<string>): seq<string>
    requires n <= |ops|
  {
    if keys == [] then []
    else
      var entry := Latest(ops, n, Slot(partition, keys[0]));
      if entry.Some? && entry.value.names != [] then entry.value.names else LatestNames(ops, n, partition, keys[1..])
  }

  lemma {:induction false} ResolvedRowsAreLatest(ops: seq<Op>, n: nat, partition: string, keys: seq<string>)
    requires n <= |ops|
    ensures var s := StateAfter(ops, n);
            && L.Gather(s.log, Resolve(s.index, partition, keys)) == LatestRows(ops, n, partition, keys)
            && InferFields(s.fields, partition, keys) == LatestNames(ops, n, partition, keys)
  {
    if keys != [] {
      var s, slot := StateAfter(ops, n), Slot(partition, keys[0]);
      ResolvedRowsAreLatest(ops, n, partition, keys[1..]);
      IndexFollowsHistory(ops, n, slot);
      var head := if slot in s.index then [s.index[slot]] else [];
      L.GatherConcat(s.log, head, Resolve(s.index, partition, keys[1..]));
      assert head != [] ==> head[1..] == [];
    }
  }

  /**
   After any operations, a batch get returns, for each known key in request order, the latest row put
   under that key and partition, restricted to the chosen fields.
   */
  lemma BatchGetReturnsLatest(ops: seq<Op>, n: nat, partition: string, keys: seq<string>, fields: seq<string>)
    requires n <= |ops|
    ensures BatchGet(StateAfter(ops, n), partition, keys, fields) ==
            ProjectAll(LatestRows(ops, n, partition, keys),
                       if fields != [] then fields else LatestNames(ops, n, partition, keys))
  {
    ResolvedRowsAreLatest(ops, n, partition, keys);
  }

  /** The item holds the cells of the row that go by one of the names, and no others. */
  ghost predicate Restricts(item: map<string, string>, row: Row, names: seq<string>) {
    && (forall name :: name in item <==> name in names && name in row.cells)
    && (forall name :: name in item ==> item[name] == row.cells[name])
  }

  /** The names a batch get goes by for one row: those asked for, else those inferred, else the row's own. */
  function NamesFor(row: Row, fields: seq<string>, inferred: seq<string>): seq<string> {
    if fields != [] then fields else if inferred != [] then inferred else row.names
  }

  /** The inferred names are those registered with the first requested key that has any. */
  lemma {:induction false} InferredFromFirst(ops: seq<Op>, n: nat, partition: string, keys: seq<string>)
    returns (first: nat)
    requires n <= |ops|
    ensures first <= |keys| && (first < |keys| <==> LatestNames(ops, n, partition, keys) != [])
    ensures forall i :: 0 <= i < first ==>
              var entry := Latest(ops, n, Slot(partition, keys[i])); entry.None? || entry.value.names == []
    ensures first < |keys| ==>
              Latest(ops, n, Slot(partition, keys[first])).Some? &&
              LatestNames(ops, n, partition, keys) == Latest(ops, n, Slot(partition, keys[first])).value.names
  {
    first := 0;
    if keys != [] {
      var entry := Latest(ops, n, Slot(partition, keys[0]));
      if entry.None? || entry.value.names == [] {
        var rest := InferredFromFirst(ops, n, partition, keys[1..]);
        first := rest + 1;
      }
    }
  }

  /** Each item of a batch get is the latest row of its key, restricted to the names it goes by. */
  lemma BatchGetRestricts(ops: seq<Op>, n: nat, partition: string, keys: seq<string>, fields: seq<string>, i: nat)
    requires n <= |ops| && i < |LatestRows(ops, n, partition, keys)|
    ensures var items := BatchGet(StateAfter(ops, n), partition, keys, fields);
            var row := LatestRows(ops, n, partition, keys)[i];
            && |items| == |LatestRows(ops, n, partition, keys)|
            && Restricts(items[i], row, NamesFor(row, fields, LatestNames(ops, n, partition, keys)))
  {
    BatchGetReturnsLatest(ops, n, partition, keys, fields);
  }

  // ---- Puts that fail ----

  /** A put fails without a trace exactly when it brings no rows or is refused for its keys before the append. */
  predicate LeavesNoTrace(op: Op) {
    match op
    case Put(_, data, _) => data.rows == []
    case BatchPut(_, keys, data, _) => data.rows == [] || !Distinct(keys)
    case Append(rows) => rows == []
  }

  /** A put that fails leaves the key tables alone, but its rows stay in the log unless it had none to append. */
  lemma FailedPut(s: State, op: Op)
    requires !Accepted(op)
    ensures var after := Next(s, op);
            && after.index == s.index && after.fields == s.fields && after.tags == s.tags
            && after.log == s.log + RowsOf(op)
            && (after == s <==> LeavesNoTrace(op))
  {
    var after := Next(s, op);
    assert RowsOf(op) == [] <==> LeavesNoTrace(op);
    if RowsOf(op) == [] {
      assert s.log + [] == s.log;
    } else {
      assert |after.log| > |s.log|;
    }
  }

  /** Three puts that raise after their row was appended: plain data, a wrong size, tags that do not match. */
  lemma FailedPutsAppend(s: State, slot: Slot, row: Row, tag: string)
    ensures forall op :: op in [Put(slot, Plain([row]), tag),
                                BatchPut(slot.partition, [], Tensor([row]), []),
                                BatchPut(slot.partition, [slot.key], Tensor([row]), [tag, tag])] ==>
              !Accepted(op) && Next(s, op).log == s.log + [row] && Next(s, op) != s
  {
    forall op | op in [Put(slot, Plain([row]), tag),
                       BatchPut(slot.partition, [], Tensor([row]), []),
                       BatchPut(slot.partition, [slot.key], Tensor([row]), [tag, tag])]
      ensures !Accepted(op) && Next(s, op).log == s.log + [row] && Next(s, op) != s
    {
      FailedPut(s, op);
    }
  }

  /** Position `at` of the log is not what the slot points at. */
  predicate Misses(s: State, slot: Slot, at: nat) {
    slot in s.index ==> s.index[slot] != at
  }

  lemma {:induction false} LogGrows(ops: seq<Op>, m: nat, n: nat)
    requires m <= n <= |ops|
    ensures StateAfter(ops, m).log <= StateAfter(ops, n).log
    decreases n - m
  {
    if m < n {
      LogGrows(ops, m, n - 1);
      StepAppends(StateAfter(ops, n - 1), ops[n - 1]);
    }
  }

  lemma StepAppends(s: State, op: Op)
    ensures Next(s, op).log == s.log + RowsOf(op)
  {
    if op.BatchPut? && Accepted(op) {
      RegisterPoints(s.(log := s.log + RowsOf(op)), op.partition, op.keys, |s.log|, FieldNames(op.data), op.tags,
                     Slot("", ""));
    }
  }

  /** An operation never points a slot at a position that was in the log before. */
  lemma StepMisses(s: State, op: Op, slot: Slot, at: nat)
    requires at < |s.log| && Misses(s, slot, at)
    ensures Misses(Next(s, op), slot, at)
  {
    if op.BatchPut? && Accepted(op) {
      RegisterPoints(s.(log := s.log + RowsOf(op)), op.partition, op.keys, |s.log|, FieldNames(op.data), op.tags, slot);
    }
  }

  /**
   The rows of a put that failed, or of a plain append, are never reached by any key: at no later time does any
   slot of any partition point at one of their positions.
   */
  lemma {:induction false} StrandedRowsStayUnreachable(ops: seq<Op>, k: nat, n: nat, slot: Slot, at: nat)
    requires k < n <= |ops| && (!Accepted(ops[k]) || ops[k].Append?)
    requires |StateAfter(ops, k).log| <= at < |StateAfter(ops, k + 1).log|
    ensures at < |StateAfter(ops, n).log| && Misses(StateAfter(ops, n), slot, at)
    decreases n - k
  {
    LogGrows(ops, k + 1, n);
    if n == k + 1 {
      IndexFollowsHistory(ops, k, slot);
    } else {
      StrandedRowsStayUnreachable(ops, k, n - 1, slot, at);
      LogGrows(ops, k + 1, n - 1);
      StepMisses(StateAfter(ops, n - 1), ops[n - 1], slot, at);
    }
  }

  lemma {:induction false} ResolveMisses(s: State, partition: string, keys: seq<string>, at: nat)
    requires forall key :: key in keys ==> Misses(s, Slot(partition, key), at)
    ensures at !in Resolve(s.index, partition, keys)
  {
    if keys != [] {
      ResolveMisses(s, partition, keys[1..], at);
      assert keys[0] in keys;
    }
  }

  /** So no later batch get reads a position at which a failed put left a row. */
  lemma BatchGetSkipsStranded(ops: seq<Op>, k: nat, n: nat, partition: string, keys: seq<string>, at: nat)
    requires k < n <= |ops| && (!Accepted(ops[k]) || ops[k].Append?)
    requires |StateAfter(ops, k).log| <= at < |StateAfter(ops, k + 1).log|
    ensures at !in Resolve(StateAfter(ops, n).index, partition, keys)
  {
    forall key | key in keys
      ensures Misses(StateAfter(ops, n), Slot(partition, key), at)
    {
      StrandedRowsStayUnreachable(ops, k, n, Slot(partition, key), at);
    }
    ResolveMisses(StateAfter(ops, n), partition, keys, at);
  }

  // ---- Keys while flushes come and go ----

  /** A put made with nothing in flight is numbered as the operations number it. */
  lemma PutsAreNumbered(ops: seq<Op>, k: nat, steps: seq<F.Step<Row>>, m: nat)
    requires k <= |ops| && m <= |steps| && F.OrderlyRun([], steps, m)
    requires F.Puts([], steps, m) == StateAfter(ops, k).log && F.StoreAfter([], steps, m).flights == []
    ensures F.TotalCount(F.StoreAfter([], steps, m)) == |StateAfter(ops, k).log|
  {
    F.OrderKept([], steps, m);
    F.FlightsStayNonEmpty([], steps, m);
    F.CountMissesFlights(F.StoreAfter([], steps, m));
  }

  /**
   Keys stay right through any orderly run of the queue that puts the rows of the operations: at whatever moment it
   is read, a row that is readable is the latest one put under its slot.
   */
  lemma KeysStayRight(ops: seq<Op>, k: nat, steps: seq<F.Step<Row>>, m: nat, n: nat, slot: Slot)
    requires k <= |ops| && m <= n <= |steps| && F.OrderlyRun([], steps, n)
    requires F.Puts([], steps, n) == StateAfter(ops, k).log
    requires slot in StateAfter(ops, k).index
    requires R.Readable(F.StoreAfter([], steps, m), StateAfter(ops, k).index[slot])
    ensures Latest(ops, k, slot).Some?
    ensures R.Visible(F.StoreAfter([], steps, m))[StateAfter(ops, k).index[slot]] == Latest(ops, k, slot).value.row
  {
    IndexFollowsHistory(ops, k, slot);
    R.ReadableIsPut([], steps, m, n, StateAfter(ops, k).index[slot]);
  }

  // ---- The interface object ----

  function TagsUpTo(tags: seq<string>, i: nat): (r: seq<string>)
    requires tags == [] || i <= |tags|
  {
    if tags == [] then [] else tags[..i]
  }

  lemma RegisterOne(s: State, partition: string, keys: seq<string>, start: nat, names: seq<string>,
                    tags: seq<string>, i: nat)
    requires (tags == [] || |tags| == |keys|) && i < |keys|
    ensures var t := Register(s, partition, keys[..i], start, names, TagsUpTo(tags, i));
            var slot := Slot(partition, keys[i]);
            Register(s, partition, keys[..i + 1], start, names, TagsUpTo(tags, i + 1))
            == State(t.log, t.index[slot := start + i], t.fields[slot := names],
                     t.tags[slot := if tags == [] then "" else tags[i]])
  {
    assert keys[..i + 1][..i] == keys[..i];
    assert tags != [] ==> tags[..i + 1][..i] == tags[..i];
  }

  datatype KvError = NotSingleSample | DuplicateKeys | SizeMismatch | TagMismatch

  class KVInterface {
    const queue: L.LanceBackend<Row>
    var keyToIndex: map<Slot, nat>
    var keyFields: map<Slot, seq<string>>
    var keyTags: map<Slot, string>

    ghost function Snapshot(): State
      reads this, queue
    {
      State(queue.Log(), keyToIndex, keyFields, keyTags)
    }

    constructor (queue: L.LanceBackend<Row>)
      requires queue.Valid()
      ensures this.queue == queue && Snapshot() == State(queue.Log(), map[], map[], map[])
    {
      this.queue := queue;
      keyToIndex, keyFields, keyTags := map[], map[], map[];
    }

    /** `Queue.put` in local mode. */
    method QueuePut(data: Data, stored: bool) returns (indexes: Option<seq<nat>>)
      requires queue.Valid()
      modifies queue
      ensures queue.Valid() && queue.Log() == old(queue.Log()) + data.rows
      ensures indexes == if data.Tensor? then Some(L.Range(|old(queue.Log())|, |data.rows|)) else None
    {
      if data.Plain? {
        queue.PutBatch(data.rows, stored);
        return None;
      }
      var range := queue.PutTensor(data.rows, stored);
      return Some(range);
    }

    method KvPut(key: string, data: Data, partition: string, tag: string, stored: bool)
      returns (r: Result<(), KvError>)
      requires queue.Valid()
      modifies this, queue
      ensures queue.Valid()
      ensures Snapshot() == Next(old(Snapshot()), Put(Slot(partition, key), data, tag))
      ensures r.Ok? <==> Accepted(Put(Slot(partition, key), data, tag))
      ensures r.Ok? <==> data.Tensor? && |data.rows| == 1
      ensures r.Err? ==> r.error == NotSingleSample
    {
      var indexes := QueuePut(data, stored);
      if indexes.None? || |indexes.value| != 1 {
        return Err(NotSingleSample);
      }
      var slot := Slot(partition, key);
      keyToIndex := keyToIndex[slot := indexes.value[0]];
      keyFields := keyFields[slot := FieldNames(data)];
      keyTags := keyTags[slot := tag];
      return Ok(());
    }

    /** Points each key at its index, with the field names of the batch and its own tag. */
    method RegisterKeys(keys: seq<string>, partition: string, ghost start: nat, indexes: seq<nat>,
                        names: seq<string>, tags: seq<string>)
      requires tags == [] || |tags| == |keys|
      requires indexes == L.Range(start, |keys|)
      modifies this
      ensures Snapshot() == Register(old(Snapshot()), partition, keys, start, names, tags)
    {
      for i := 0 to |keys|
        invariant Snapshot() == Register(old(Snapshot()), partition, keys[..i], start, names, TagsUpTo(tags, i))
      {
        var slot := Slot(partition, keys[i]);
        RegisterOne(old(Snapshot()), partition, keys, start, names, tags, i);
        keyToIndex := keyToIndex[slot := indexes[i]];
        keyFields := keyFields[slot := names];
        keyTags := keyTags[slot := if tags == [] then "" else tags[i]];
      }
      assert keys[..|keys|] == keys && TagsUpTo(tags, |keys|) == tags;
    }

    method KvBatchPut(keys: seq<string>, data: Data, partition: string, tags: seq<string>, stored: bool)
      returns (r: Result<(), KvError>)
      requires queue.Valid()
      modifies this, queue
      ensures queue.Valid()
      ensures Snapshot() == Next(old(Snapshot()), BatchPut(partition, keys, data, tags))
      ensures r.Ok? <==> Accepted(BatchPut(partition, keys, data, tags))
      ensures r.Ok? <==> && Distinct(keys) && data.Tensor? && |data.rows| == |keys|
                         && (tags == [] || |tags| == |keys|)
      ensures r.Err? ==> r.error == if !Distinct(keys) then DuplicateKeys
                                    else if data.Plain? || |data.rows| != |keys| then SizeMismatch else TagMismatch
    {
      if !Distinct(keys) {
        assert queue.Log() + [] == queue.Log();
        return Err(DuplicateKeys);
      }
      var indexes := QueuePut(data, stored);
      if indexes.None? || |indexes.value| != |keys| {
        return Err(SizeMismatch);
      }
      if tags != [] && |tags| != |keys| {
        return Err(TagMismatch);
      }
      RegisterKeys(keys, partition, |old(queue.Log())|, indexes.value, FieldNames(data), tags);
      return Ok(());
    }

    method KvBatchGet(keys: seq<string>, partition: string, fields: seq<string>)
      returns (items: seq<map<string, string>>)
      requires queue.Valid()
      ensures items == BatchGet(Snapshot(), partition, keys, fields)
      ensures fields != [] ==> forall item, name :: item in items && name in item ==> name in fields
    {
      var indexes := Resolve(keyToIndex, partition, keys);
      if indexes == [] {
        return [];
      }
      var names := if fields != [] then fields else InferFields(keyFields, partition, keys);
      var rows := queue.GetByIndices(indexes);
      items := ProjectAll(rows, names);
    }
  }
}
