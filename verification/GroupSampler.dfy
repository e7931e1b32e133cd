/**
 Greedy selection of complete groups of `n` consecutive ready indexes, with a cache so that
 every rank of a data-parallel group replays the same batch.
 */
module GroupSampler {
  import opened Basics
  import opened Sequences
  import opened Sorting

  // ---- Groups ----

  /** Consecutive integers, ascending by one. */
  predicate Adjacent(s: seq<int>, j: nat)
    requires j + 1 < |s|
  {
    s[j + 1] - s[j] == 1
  }

  predicate IsGroup(s: seq<int>) {
    forall j :: 0 <= j < |s| - 1 ==> Adjacent(s, j)
  }

  /** `count` integers from `start` on. */
  function Block(start: int, count: nat): seq<int> {
    seq(count, j requires 0 <= j => start + j)
  }

  function Blocks(starts: seq<int>, n: nat): seq<int> {
    if starts == [] then [] else Block(starts[0], n) + Blocks(starts[1..], n)
  }

  predicate AllReady(start: int, n: nat, ready: seq<int>) {
    forall x :: start <= x < start + n ==> x in ready
  }

  /** Pairwise disjoint blocks of `n` consecutive ready indexes, listed by their first members. */
  predicate DisjointBlocks(starts: seq<int>, n: nat, ready: seq<int>) {
    && (forall i, j :: 0 <= i < j < |starts| ==> starts[i] + n <= starts[j])
    && (forall i :: 0 <= i < |starts| ==> AllReady(starts[i], n, ready))
  }

  /** The first members of the groups that a left-to-right scan picks when it never has enough. */
  function GreedyStarts(s: seq<int>, n: nat): seq<int>
    requires n > 0
  {
    if |s| < n then []
    else if IsGroup(s[..n]) then [s[0]] + GreedyStarts(s[n..], n)
    else GreedyStarts(s[1..], n)
  }

  lemma {:induction false} GroupIsBlock(s: seq<int>, j: nat)
    requires IsGroup(s) && j < |s|
    ensures s[j] == s[0] + j
  {
    if j > 0 {
      GroupIsBlock(s, j - 1);
      assert Adjacent(s, j - 1);
    }
  }

  lemma GroupEqualsBlock(s: seq<int>)
    requires IsGroup(s) && s != []
    ensures s == Block(s[0], |s|)
  {
    forall j | 0 <= j < |s|
      ensures s[j] == Block(s[0], |s|)[j]
    {
      GroupIsBlock(s, j);
    }
  }

  lemma GroupIsReady(s: seq<int>, n: nat)
    requires 0 < n <= |s| && IsGroup(s[..n])
    ensures AllReady(s[0], n, s)
    ensures s[n - 1] == s[0] + n - 1
  {
    forall j | 0 <= j < n
      ensures s[j] == s[0] + j
    {
      GroupIsBlock(s[..n], j);
    }
    forall x | s[0] <= x < s[0] + n
      ensures x in s
    {
      assert s[x - s[0]] == x;
    }
  }

  lemma ReadyInSuffix(start: int, n: nat, s: seq<int>, k: nat)
    requires k <= |s| && AllReady(start, n, s[k..])
    ensures AllReady(start, n, s)
  {
    forall x | start <= x < start + n
      ensures x in s
    {
      assert x in s[k..];
    }
  }

  /** What the scan picks is a disjoint family of ready blocks. */
  lemma {:induction false} GreedyIsSound(s: seq<int>, n: nat)
    requires n > 0 && StrictlyAscending(s)
    ensures DisjointBlocks(GreedyStarts(s, n), n, s)
  {
    if |s| < n {
    } else if IsGroup(s[..n]) {
      GreedyIsSound(s[n..], n);
      GroupIsReady(s, n);
      var rest := GreedyStarts(s[n..], n);
      forall j | 0 <= j < |rest|
        ensures s[0] + n <= rest[j] && AllReady(rest[j], n, s)
      {
        assert AllReady(rest[j], n, s[n..]);
        ReadyInSuffix(rest[j], n, s, n);
        assert rest[j] in s[n..];
      }
    } else {
      GreedyIsSound(s[1..], n);
      forall j | 0 <= j < |GreedyStarts(s, n)|
        ensures AllReady(GreedyStarts(s, n)[j], n, s)
      {
        ReadyInSuffix(GreedyStarts(s, n)[j], n, s, 1);
      }
    }
  }

  /** In an ascending list, a ready block that starts with the first element comes first. */
  lemma {:induction false} BlockIsContiguous(s: seq<int>, n: nat, j: nat)
    requires n > 0 && StrictlyAscending(s) && s != []
    requires AllReady(s[0], n, s)
    requires j < n
    ensures j < |s| && s[j] == s[0] + j
  {
    if j > 0 {
      BlockIsContiguous(s, n, j - 1);
      assert s[0] + j in s;
      var k :| 0 <= k < |s| && s[k] == s[0] + j;
      assert k >= j;
      assert s[j - 1] < s[j] <= s[k];
    }
  }

  lemma BlockAtHeadIsGroup(s: seq<int>, n: nat)
    requires n > 0 && StrictlyAscending(s) && s != []
    requires AllReady(s[0], n, s)
    ensures |s| >= n && IsGroup(s[..n])
  {
    BlockIsContiguous(s, n, n - 1);
    forall j: nat | j < n
      ensures s[j] == s[0] + j
    {
      BlockIsContiguous(s, n, j);
    }
  }

  /** No disjoint family of ready blocks is larger than the one the scan picks. */
  lemma {:induction false} GreedyIsOptimal(s: seq<int>, n: nat, starts: seq<int>)
    requires n > 0 && StrictlyAscending(s) && DisjointBlocks(starts, n, s)
    ensures |starts| <= |GreedyStarts(s, n)|
    decreases |s|
  {
    if starts != [] {
      assert AllReady(starts[0], n, s);
      assert starts[0] in s;
      if |s| >= n && IsGroup(s[..n]) {
        GroupIsReady(s, n);
        RestAvoids(s, n, starts[1..], n);
        GreedyIsOptimal(s[n..], n, starts[1..]);
      } else {
        if starts[0] == s[0] {
          BlockAtHeadIsGroup(s, n);
        }
        RestAvoids(s, n, starts, 1);
        GreedyIsOptimal(s[1..], n, starts);
      }
    }
  }

  /** Blocks that start after the first `k` elements lie in the rest of the list. */
  lemma RestAvoids(s: seq<int>, n: nat, starts: seq<int>, k: nat)
    requires n > 0 && 0 < k <= |s| && StrictlyAscending(s) && DisjointBlocks(starts, n, s)
    requires forall i :: 0 <= i < |starts| ==> starts[i] > s[k - 1]
    ensures DisjointBlocks(starts, n, s[k..])
  {
    forall i, x | 0 <= i < |starts| && starts[i] <= x < starts[i] + n
      ensures x in s[k..]
    {
      assert AllReady(starts[i], n, s);
      assert x in s;
      var j :| 0 <= j < |s| && s[j] == x;
      assert j >= k;
      assert s[k..][j - k] == x;
    }
    forall i | 0 <= i < |starts|
      ensures AllReady(starts[i], n, s[k..])
    {
    }
  }

  lemma {:induction false} BlocksSnoc(starts: seq<int>, start: int, n: nat)
    ensures Blocks(starts + [start], n) == Blocks(starts, n) + Block(start, n)
  {
    if starts == [] {
      assert [start][1..] == [];
    } else {
      BlocksSnoc(starts[1..], start, n);
      assert (starts + [start])[1..] == starts[1..] + [start];
    }
  }

  lemma {:induction false} BlocksSize(starts: seq<int>, n: nat)
    ensures |Blocks(starts, n)| == |starts| * n
  {
    if starts != [] {
      BlocksSize(starts[1..], n);
      assert |starts| * n == n + (|starts| - 1) * n;
    }
  }

  lemma {:induction false} BlocksShape(starts: seq<int>, n: nat, ready: seq<int>)
    requires DisjointBlocks(starts, n, ready)
    ensures StrictlyAscending(Blocks(starts, n))
    ensures forall x :: x in Blocks(starts, n) ==> x in ready && starts != [] && starts[0] <= x
  {
    if starts != [] {
      BlocksShape(starts[1..], n, ready);
      var head, tail := Block(starts[0], n), Blocks(starts[1..], n);
      assert AllReady(starts[0], n, ready);
      forall i | 0 <= i < |tail|
        ensures starts[0] + n <= tail[i]
      {
        assert tail[i] in tail;
        assert starts[0] + n <= starts[1];
      }
    }
  }

  // ---- The sampler ----

  /** `k` disjoint blocks of ready indexes can be picked. */
  ghost predicate Feasible(k: int, n: nat, ready: seq<int>) {
    exists starts: seq<int> :: |starts| == k && DisjointBlocks(starts, n, ready)
  }

  /** The scan finds at least `required` groups. */
  predicate Enough(ready: seq<int>, n: nat, required: int)
    requires n > 0
  {
    required <= |GreedyStarts(Sorted(ready), n)|
  }

  /** The batch a scan returns: the first groups found, or nothing when there are too few. */
  function Batch(ready: seq<int>, n: nat, required: int): seq<int>
    requires n > 0
  {
    if required <= 0 || !Enough(ready, n, required) then []
    else Blocks(GreedyStarts(Sorted(ready), n)[..required], n)
  }

  /** A batch is whole groups of distinct ready indexes in ascending order. */
  ghost predicate IsBatch(batch: seq<int>, n: nat, ready: seq<int>) {
    && StrictlyAscending(batch)
    && (forall x :: x in batch ==> x in ready)
    && exists starts :: DisjointBlocks(starts, n, ready) && batch == Blocks(starts, n)
  }

  /**
   For a list without repeats the scan returns a full batch of whole groups whenever any choice of
   disjoint groups would fill one, and nothing otherwise.
   */
  lemma BatchIsBest(ready: seq<int>, n: nat, required: int)
    requires n > 0 && required > 0 && Distinct(ready)
    ensures IsBatch(Batch(ready, n, required), n, ready)
    ensures |Batch(ready, n, required)| == if Feasible(required, n, ready) then required * n else 0
  {
    var sorted := Sorted(ready);
    SortedStrictly(ready);
    SortedSorts(ready);
    SameMembers(sorted, ready);
    GreedyIsSound(sorted, n);
    var all := GreedyStarts(sorted, n);
    forall i | 0 <= i < |all|
      ensures AllReady(all[i], n, ready)
    {
      assert AllReady(all[i], n, sorted);
    }
    if |all| >= required {
      var starts := all[..required];
      assert DisjointBlocks(starts, n, ready);
      BlocksShape(starts, n, ready);
      BlocksSize(starts, n);
    } else {
      assert DisjointBlocks([], n, ready) && Blocks([], n) == [];
      if Feasible(required, n, ready) {
        var family: seq<int> :| |family| == required && DisjointBlocks(family, n, ready);
        forall i | 0 <= i < |family|
          ensures AllReady(family[i], n, sorted)
        {
          assert AllReady(family[i], n, ready);
        }
        GreedyIsOptimal(sorted, n, family);
      }
    }
  }

  datatype SampleError = NotPositive | NotAMultiple

  datatype CacheKey = CacheKey(partition: string, task: string, rank: int, batch: int)

  /** The scan stands at `i` with the first `found` of all the greedy groups selected. */
  ghost predicate Scanning(sorted: seq<int>, n: nat, i: nat, found: nat, selected: seq<int>)
    requires n > 0 && i <= |sorted|
  {
    var all := GreedyStarts(sorted, n);
    found <= |all| && all[found..] == GreedyStarts(sorted[i..], n) && selected == Blocks(all[..found], n)
  }

  lemma ScanStarts(sorted: seq<int>, n: nat)
    requires n > 0
    ensures Scanning(sorted, n, 0, 0, [])
  {
    assert sorted[0..] == sorted;
  }

  /** The scan takes the group it stands at. */
  lemma ScanTakes(sorted: seq<int>, n: nat, i: nat, found: nat, selected: seq<int>)
    requires n > 0 && i + n <= |sorted| && Scanning(sorted, n, i, found, selected)
    requires IsGroup(sorted[i..i + n])
    ensures Scanning(sorted, n, i + n, found + 1, selected + sorted[i..i + n])
  {
    var all, group, rest := GreedyStarts(sorted, n), sorted[i..i + n], sorted[i..];
    assert rest[..n] == group && rest[n..] == sorted[i + n..];
    GroupEqualsBlock(group);
    assert all[found..][0] == group[0] && all[found..][1..] == all[found + 1..];
    BlocksSnoc(all[..found], all[found], n);
    assert all[..found] + [all[found]] == all[..found + 1];
  }

  /** The scan steps over an index that starts no group. */
  lemma ScanSkips(sorted: seq<int>, n: nat, i: nat, found: nat, selected: seq<int>)
    requires n > 0 && i + n <= |sorted| && Scanning(sorted, n, i, found, selected)
    requires !IsGroup(sorted[i..i + n])
    ensures Scanning(sorted, n, i + 1, found, selected)
  {
    assert sorted[i..][..n] == sorted[i..i + n] && sorted[i..][1..] == sorted[i + 1..];
  }

  /** The scan stops with enough groups, or with all there are. */
  lemma ScanEnds(ready: seq<int>, n: nat, required: int, i: nat, found: nat, selected: seq<int>)
    requires n > 0 && i <= |Sorted(ready)| && Scanning(Sorted(ready), n, i, found, selected)
    requires i + n > |Sorted(ready)| || found >= required
    requires found == 0 || found <= required
    ensures found >= required <==> Enough(ready, n, required)
    ensures found >= required ==> selected == Batch(ready, n, required)
  {
  }

  type Positive = x: int | x > 0 witness 1

  class GroupNSampler {
    const n: Positive
    var cache: map<CacheKey, seq<int>>

    constructor (n: Positive)
      ensures this.n == n && cache == map[]
    {
      this.n := n;
      cache := map[];
    }

    /** One turn of the scan: take the group that starts at `i`, or step over `i`. */
    method Visit(sorted: seq<int>, i: nat, found: nat, selected: seq<int>)
      returns (next: nat, count: nat, taken: seq<int>)
      requires i + n <= |sorted| && Scanning(sorted, n, i, found, selected)
      ensures i < next <= |sorted| && found <= count <= found + 1
      ensures Scanning(sorted, n, next, count, taken)
    {
      var group := sorted[i..i + n];
      if IsGroup(group) {
        ScanTakes(sorted, n, i, found, selected);
        return i + n, found + 1, selected + group;
      }
      ScanSkips(sorted, n, i, found, selected);
      return i + 1, found, selected;
    }

    method Scan(ready: seq<int>, required: int) returns (selected: seq<int>, found: nat)
      ensures found >= required <==> Enough(ready, n, required)
      ensures found >= required ==> selected == Batch(ready, n, required)
    {
      var sorted := Sorted(ready);
      selected, found := [], 0;
      var i := 0;
      ScanStarts(sorted, n);
      while i <= |sorted| - n && found < required
        invariant 0 <= i <= |sorted| && (found == 0 || found <= required)
        invariant Scanning(sorted, n, i, found, selected)
        decreases |sorted| - i
      {
        i, found, selected := Visit(sorted, i, found, selected);
      }
      ScanEnds(ready, n, required, i, found, selected);
    }

    /** A cached batch is replayed as it is; an uncached one is scanned for and, if a rank asked, kept. */
    method Sample(ready: seq<int>, batchSize: int, key: Option<CacheKey>) returns (r: Result<seq<int>, SampleError>)
      modifies this`cache
      ensures r == if batchSize % n != 0 then Err(NotAMultiple)
                   else if key.Some? && key.value in old(cache) then Ok(old(cache)[key.value])
                   else Ok(Batch(ready, n, batchSize / n))
      ensures cache == if && batchSize % n == 0 && key.Some? && key.value !in old(cache)
                          && Enough(ready, n, batchSize / n)
                       then old(cache)[key.value := r.value] else old(cache)
    {
      if batchSize % n != 0 {
        return Err(NotAMultiple);
      }
      if key.Some? && key.value in cache {
        return Ok(cache[key.value]);
      }
      var required := batchSize / n;
      var selected, found := Scan(ready, required);
      if found < required {
        return Ok([]);
      }
      if key.Some? {
        cache := cache[key.value := selected];
      }
      return Ok(selected);
    }
  }

  /** Group sizes that are not positive are refused. */
  method MakeSampler(n: int) returns (r: Result<GroupNSampler, SampleError>)
    ensures r.Ok? <==> n > 0
    ensures r.Ok? ==> fresh(r.value) && r.value.n == n && r.value.cache == map[]
    ensures r.Err? ==> r.error == NotPositive
  {
    if n <= 0 {
      return Err(NotPositive);
    }
    var sampler := new GroupNSampler(n);
    return Ok(sampler);
  }

  // ---- Repeats ----

  /** The sampler's promise: a batch in the full size if one exists, and otherwise nothing. */
  ghost predicate ServesBest(ready: seq<int>, n: nat, required: int)
    requires n > 0
  {
    && IsBatch(Batch(ready, n, required), n, ready)
    && |Batch(ready, n, required)| == if Feasible(required, n, ready) then required * n else 0
  }

  lemma {:induction false} SinglesAreAll(s: seq<int>)
    ensures GreedyStarts(s, 1) == s && Blocks(s, 1) == s
  {
    if s != [] {
      SinglesAreAll(s[1..]);
      assert s == [s[0]] + s[1..] && s[..1] == [s[0]];
      assert IsGroup(s[..1]) && Block(s[0], 1) == [s[0]];
    }
  }

  /** With groups of one, asking for as many as there are hands the whole list out, repeats included. */
  lemma WholeListHandedOut(ready: seq<int>)
    requires ready != []
    ensures Batch(ready, 1, |ready|) == Sorted(ready)
  {
    var sorted := Sorted(ready);
    SortedSorts(ready);
    SinglesAreAll(sorted);
    assert |multiset(sorted)| == |sorted| && |multiset(ready)| == |ready|;
    assert sorted[..|ready|] == sorted;
  }

  /** The promise is kept for every group size and every request exactly when the ready list has no repeats. */
  lemma ServesBestExactly(ready: seq<int>)
    ensures Distinct(ready) <==>
            forall n: nat, required: int :: n > 0 && required > 0 ==> ServesBest(ready, n, required)
  {
    if Distinct(ready) {
      forall n: nat, required: int | n > 0 && required > 0
        ensures ServesBest(ready, n, required)
      {
        BatchIsBest(ready, n, required);
      }
    } else {
      WholeListHandedOut(ready);
      SortedStrictly(ready);
      assert !ServesBest(ready, 1, |ready|);
    }
  }

  /** One repeat hides a group that is there; another is handed out twice. */
  lemma RepeatsDefeatTheScan()
    ensures Feasible(1, 3, [0, 1, 1, 2]) && Batch([0, 1, 1, 2], 3, 1) == []
    ensures Batch([0, 0], 1, 2) == [0, 0]
  {
    GroupHidden();
    var s := [0, 0];
    WholeListHandedOut(s);
    assert s[1..] == [0] && [0][1..] == [];
    assert SortedBy([0], AtMost) == [0];
  }

  lemma GroupHidden()
    ensures Feasible(1, 3, [0, 1, 1, 2]) && Batch([0, 1, 1, 2], 3, 1) == []
  {
    var s := [0, 1, 1, 2];
    assert AllReady(0, 3, s) by {
      assert s[0] == 0 && s[1] == 1 && s[3] == 2;
    }
    assert DisjointBlocks([0], 3, s) && |[0]| == 1;
    SortedAlready();
    assert s[..3] == [0, 1, 1] && s[1..] == [1, 1, 2] && [1, 1, 2][..3] == [1, 1, 2];
    assert !Adjacent([0, 1, 1], 1) && !Adjacent([1, 1, 2], 0);
    assert [1, 1, 2][1..] == [1, 2];
  }

  lemma SortedAlready()
    ensures Sorted([0, 1, 1, 2]) == [0, 1, 1, 2]
  {
    var s := [0, 1, 1, 2];
    assert s[1..] == [1, 1, 2] && [1, 1, 2][1..] == [1, 2] && [1, 2][1..] == [2] && [2][1..] == [];
    assert SortedBy([2], AtMost) == [2] && SortedBy([1, 2], AtMost) == [1, 2];
    assert SortedBy([1, 1, 2], AtMost) == [1, 1, 2];
  }
}
