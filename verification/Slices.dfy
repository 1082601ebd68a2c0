/** The slice helpers FilterSlice, Partition, Unique, GroupBy and Chunk, and what they keep of a slice. */
module Slices {

  // ---------- filtering and partitioning ----------

  function Filter<M>(xs: seq<M>, p: M -> bool): seq<M> {
    if xs == [] then []
    else
      var front, last := Filter(xs[..|xs| - 1], p), xs[|xs| - 1];
      if p(last) then front + [last] else front
  }

  method FilterSlice<M>(models: seq<M>, predicate_: M -> bool) returns (results: seq<M>)
    ensures results == Filter(models, predicate_)
  {
    results := [];
    for i := 0 to |models|
      invariant results == Filter(models[..i], predicate_)
    {
      assert models[..i + 1][..i] == models[..i];
      if predicate_(models[i]) {
        results := results + [models[i]];
      }
    }
    assert models[..|models|] == models;
  }

  /** The two halves are the filters by the predicate and by its negation. */
  method Partition<M>(models: seq<M>, predicate_: M -> bool) returns (matching: seq<M>, nonMatching: seq<M>)
    ensures matching == Filter(models, predicate_)
    ensures nonMatching == Filter(models, x => !predicate_(x))
  {
    matching, nonMatching := [], [];
    ghost var negation := x => !predicate_(x);
    for i := 0 to |models|
      invariant matching == Filter(models[..i], predicate_)
      invariant nonMatching == Filter(models[..i], negation)
    {
      assert models[..i + 1][..i] == models[..i];
      if predicate_(models[i]) {
        matching := matching + [models[i]];
      } else {
        nonMatching := nonMatching + [models[i]];
      }
    }
    assert models[..|models|] == models;
  }

  /** A predicate and its negation split a slice without losing or repeating an element. */
  lemma {:induction false} PartitionConserves<M>(xs: seq<M>, p: M -> bool, q: M -> bool)
    requires forall x :: x in xs ==> q(x) == !p(x)
    ensures multiset(Filter(xs, p)) + multiset(Filter(xs, q)) == multiset(xs)
  {
    if xs != [] {
      var front, last := xs[..|xs| - 1], xs[|xs| - 1];
      assert xs == front + [last];
      PartitionConserves(front, p, q);
    }
  }

  /** The matching positions, in order. */
  function Positions<M>(xs: seq<M>, p: M -> bool): seq<nat> {
    if xs == [] then []
    else Positions(xs[..|xs| - 1], p) + if p(xs[|xs| - 1]) then [|xs| - 1] else []
  }

  /** They are all of the matching positions, each once. */
  lemma {:induction false} PositionsMatch<M>(xs: seq<M>, p: M -> bool)
    ensures forall i :: i in Positions(xs, p) <==> 0 <= i < |xs| && p(xs[i])
    ensures forall j, k :: 0 <= j < k < |Positions(xs, p)| ==> Positions(xs, p)[j] < Positions(xs, p)[k]
  {
    if xs != [] {
      var front := Positions(xs[..|xs| - 1], p);
      PositionsMatch(xs[..|xs| - 1], p);
      assert forall k :: 0 <= k < |front| ==> front[k] in front;
    }
  }

  /** The filter is what stands at the matching positions, in order. */
  lemma {:induction false} FilterIsPositions<M>(xs: seq<M>, p: M -> bool)
    ensures |Filter(xs, p)| == |Positions(xs, p)|
    ensures forall k :: 0 <= k < |Filter(xs, p)| ==>
              0 <= Positions(xs, p)[k] < |xs| && Filter(xs, p)[k] == xs[Positions(xs, p)[k]]
  {
    if xs != [] {
      FilterIsPositions(xs[..|xs| - 1], p);
    }
  }

  // ---------- first of each key ----------

  ghost function Keys<M, K>(xs: seq<M>, key: M -> K): set<K> {
    set x | x in xs :: key(x)
  }

  ghost function FirstPerKey<M, K>(xs: seq<M>, key: M -> K): seq<M> {
    if xs == [] then []
    else
      var front, last := xs[..|xs| - 1], xs[|xs| - 1];
      if key(last) in Keys(front, key) then FirstPerKey(front, key) else FirstPerKey(front, key) + [last]
  }

  method Unique<M, K(==)>(models: seq<M>, key: M -> K) returns (result: seq<M>)
    ensures result == FirstPerKey(models, key)
  {
    var seen: map<K, bool> := map[];
    result := [];
    for i := 0 to |models|
      invariant seen.Keys == Keys(models[..i], key)
      invariant result == FirstPerKey(models[..i], key)
    {
      assert models[..i + 1][..i] == models[..i];
      assert models[..i + 1] == models[..i] + [models[i]];
      var k := key(models[i]);
      if k !in seen {
        seen := seen[k := true];
        result := result + [models[i]];
      }
    }
    assert models[..|models|] == models;
  }

  /** No earlier element has the key of the one at i. */
  ghost predicate IsFirst<M, K>(xs: seq<M>, key: M -> K, i: nat)
    requires i < |xs|
  {
    forall j :: 0 <= j < i ==> key(xs[j]) != key(xs[i])
  }

  lemma FirstSnoc<M, K>(front: seq<M>, last: M, key: M -> K)
    ensures forall i :: 0 <= i < |front| ==> (IsFirst(front + [last], key, i) <==> IsFirst(front, key, i))
    ensures IsFirst(front + [last], key, |front|) <==> key(last) !in Keys(front, key)
  {
    var xs := front + [last];
    assert forall j :: 0 <= j < |front| ==> xs[j] == front[j] && front[j] in front;
    if key(last) in Keys(front, key) {
      var x :| x in front && key(x) == key(last);
      var j :| 0 <= j < |front| && front[j] == x;
      assert key(xs[j]) == key(xs[|front|]);
    } else {
      assert forall j :: 0 <= j < |front| ==> key(front[j]) in Keys(front, key);
    }
  }

  /** Unique keeps exactly the first element of every key, in the order of the slice. */
  lemma {:induction false} UniqueKeepsFirsts<M, K>(xs: seq<M>, key: M -> K) returns (at: seq<nat>)
    ensures |at| == |FirstPerKey(xs, key)|
    ensures forall k :: 0 <= k < |at| ==> at[k] < |xs| && FirstPerKey(xs, key)[k] == xs[at[k]]
    ensures forall j, k :: 0 <= j < k < |at| ==> at[j] < at[k]
    ensures forall i :: 0 <= i < |xs| ==> (i in at <==> IsFirst(xs, key, i))
  {
    hide IsFirst, Keys;
    at := [];
    if xs != [] {
      var front, last := xs[..|xs| - 1], xs[|xs| - 1];
      assert xs == front + [last];
      at := UniqueKeepsFirsts(front, key);
      FirstSnoc(front, last, key);
      if key(last) !in Keys(front, key) {
        at := at + [|front|];
      }
    }
  }

  lemma KeysSnoc<M, K>(front: seq<M>, last: M, key: M -> K)
    ensures Keys(front + [last], key) == Keys(front, key) + {key(last)}
  {
  }

  lemma {:induction false} UniqueKeys<M, K>(xs: seq<M>, key: M -> K)
    ensures Keys(FirstPerKey(xs, key), key) == Keys(xs, key)
  {
    if xs != [] {
      var front, last := xs[..|xs| - 1], xs[|xs| - 1];
      assert xs == front + [last];
      UniqueKeys(front, key);
      KeysSnoc(front, last, key);
      KeysSnoc(FirstPerKey(front, key), last, key);
    }
  }

  lemma {:induction false} UniqueIdempotent<M, K>(xs: seq<M>, key: M -> K)
    ensures FirstPerKey(FirstPerKey(xs, key), key) == FirstPerKey(xs, key)
  {
    if xs != [] {
      var front, last := xs[..|xs| - 1], xs[|xs| - 1];
      UniqueIdempotent(front, key);
      UniqueKeys(front, key);
      var once := FirstPerKey(front, key);
      assert (once + [last])[..|once|] == once;
    }
  }

  // ---------- grouping ----------

  /** The elements with key k, in order. */
  function Group<M, K(==)>(xs: seq<M>, key: M -> K, k: K): seq<M> {
    if xs == [] then []
    else
      var front, last := Group(xs[..|xs| - 1], key, k), xs[|xs| - 1];
      if key(last) == k then front + [last] else front
  }

  /** Each group is the order-preserving filter by its key, and there are groups for the occurring keys only. */
  method GroupBy<M, K(==)>(models: seq<M>, key: M -> K) returns (result: map<K, seq<M>>)
    ensures result.Keys == Keys(models, key)
    ensures forall k :: k in result ==> result[k] == Group(models, key, k)
  {
    result := map[];
    for i := 0 to |models|
      invariant result.Keys == Keys(models[..i], key)
      invariant forall k :: k in result ==> result[k] == Group(models[..i], key, k)
    {
      assert models[..i + 1][..i] == models[..i];
      assert models[..i + 1] == models[..i] + [models[i]];
      var k := key(models[i]);
      NoGroup(models[..i], key, k);
      result := result[k := (if k in result then result[k] else []) + [models[i]]];
    }
    assert models[..|models|] == models;
  }

  lemma {:induction false} NoGroup<M, K>(xs: seq<M>, key: M -> K, k: K)
    ensures k !in Keys(xs, key) ==> Group(xs, key, k) == []
  {
    if xs != [] {
      var front, last := xs[..|xs| - 1], xs[|xs| - 1];
      assert xs == front + [last];
      NoGroup(front, key, k);
    }
  }

  lemma {:induction false} GroupIsFilter<M, K>(xs: seq<M>, key: M -> K, k: K, p: M -> bool)
    requires forall x :: x in xs ==> p(x) == (key(x) == k)
    ensures Group(xs, key, k) == Filter(xs, p)
  {
    if xs != [] {
      assert xs == xs[..|xs| - 1] + [xs[|xs| - 1]];
      GroupIsFilter(xs[..|xs| - 1], key, k, p);
    }
  }

  /** The groups one after another, for the keys in the given order. */
  function Concatenated<M, K(==)>(xs: seq<M>, key: M -> K, keys: seq<K>): seq<M> {
    if keys == [] then []
    else Concatenated(xs, key, keys[..|keys| - 1]) + Group(xs, key, keys[|keys| - 1])
  }

  lemma {:induction false} GroupOfOthers<M, K>(xs: seq<M>, key: M -> K, k: K, other: K, p: M -> bool)
    requires k != other && forall x :: x in xs ==> p(x) == (key(x) != other)
    ensures Group(Filter(xs, p), key, k) == Group(xs, key, k)
  {
    if xs != [] {
      var front, last := xs[..|xs| - 1], xs[|xs| - 1];
      assert xs == front + [last];
      GroupOfOthers(front, key, k, other, p);
      var kept := Filter(front, p);
      assert (kept + [last])[..|kept|] == kept;
    }
  }

  lemma {:induction false} ConcatenatedOfOthers<M, K>(xs: seq<M>, key: M -> K, keys: seq<K>, other: K, p: M -> bool)
    requires other !in keys && forall x :: x in xs ==> p(x) == (key(x) != other)
    ensures Concatenated(Filter(xs, p), key, keys) == Concatenated(xs, key, keys)
  {
    if keys != [] {
      assert forall k :: k in keys[..|keys| - 1] ==> k in keys;
      ConcatenatedOfOthers(xs, key, keys[..|keys| - 1], other, p);
      GroupOfOthers(xs, key, keys[|keys| - 1], other, p);
    }
  }

  /** Whatever the order in which a map's keys come, its groups together hold exactly the elements of the slice. */
  lemma {:induction false} GroupsConserve<M(!new), K>(xs: seq<M>, key: M -> K, keys: seq<K>)
    requires forall i, j :: 0 <= i < j < |keys| ==> keys[i] != keys[j]
    requires forall x :: x in xs ==> key(x) in keys
    ensures multiset(Concatenated(xs, key, keys)) == multiset(xs)
    decreases |keys|
  {
    if xs == [] {
      GroupsOfNothing(key, keys);
    } else {
      assert xs[0] in xs;
      var front, last := keys[..|keys| - 1], keys[|keys| - 1];
      var same, others := x => key(x) == last, x => key(x) != last;
      var rest := Filter(xs, others);
      assert forall x :: x in rest ==> x in xs && key(x) != last by { FilterElements(xs, others); }
      assert keys == front + [last];
      GroupsConserve(rest, key, front);
      ConcatenatedOfOthers(xs, key, front, last, others);
      GroupIsFilter(xs, key, last, same);
      PartitionConserves(xs, same, others);
    }
  }

  lemma {:induction false} GroupsOfNothing<M, K>(key: M -> K, keys: seq<K>)
    ensures Concatenated([], key, keys) == []
  {
    if keys != [] {
      GroupsOfNothing(key, keys[..|keys| - 1]);
    }
  }

  lemma {:induction false} FilterElements<M(!new)>(xs: seq<M>, p: M -> bool)
    ensures forall x :: x in Filter(xs, p) <==> x in xs && p(x)
  {
    if xs != [] {
      assert xs == xs[..|xs| - 1] + [xs[|xs| - 1]];
      FilterElements(xs[..|xs| - 1], p);
    }
  }

  // ---------- chunks ----------

  function Min(a: int, b: int): int {
    if a < b then a else b
  }

  function Chunks<M>(xs: seq<M>, size: nat): seq<seq<M>>
    requires size >= 1
    decreases |xs|
  {
    if xs == [] then []
    else [xs[..Min(size, |xs|)]] + Chunks(xs[Min(size, |xs|)..], size)
  }

  /** One round of Chunk's loop: the next chunk moves from what is to come to what is done. */
  lemma ChunksStep<M>(xs: seq<M>, done: seq<seq<M>>, size: nat, i: nat)
    requires size >= 1 && i < |xs|
    ensures var end := Min(i + size, |xs|);
            done + Chunks(xs[i..], size) == (done + [xs[i..end]]) + Chunks(xs[end..], size)
  {
    var end := Min(i + size, |xs|);
    assert xs[i..][..Min(size, |xs| - i)] == xs[i..end];
    assert xs[i..][Min(size, |xs| - i)..] == xs[end..];
  }

  method Chunk<M>(models: seq<M>, size: int) returns (result: seq<seq<M>>)
    ensures result == if size <= 0 then [] else Chunks(models, size)
  {
    if size <= 0 {
      return [];
    }
    hide Chunks;
    result := [];
    var i := 0;
    assert models[0..] == models;
    while i < |models|
      invariant 0 <= i
      invariant result + Chunks(models[Min(i, |models|)..], size) == Chunks(models, size)
    {
      var end := i + size;
      if end > |models| {
        end := |models|;
      }
      assert end == Min(i + size, |models|);
      ChunksStep(models, result, size, i);
      result := result + [models[i..end]];
      i := i + size;
    }
    NoChunks<M>(size);
  }

  lemma NoChunks<M>(size: nat)
    requires size >= 1
    ensures Chunks<M>([], size) == []
  {
  }

  function Flatten<M>(xss: seq<seq<M>>): seq<M> {
    if xss == [] then [] else xss[0] + Flatten(xss[1..])
  }

  /** The chunks one after another are the slice. */
  lemma {:induction false} ChunksFlatten<M>(xs: seq<M>, size: nat)
    requires size >= 1
    ensures Flatten(Chunks(xs, size)) == xs
    decreases |xs|
  {
    if xs != [] {
      ChunksFlatten(xs[Min(size, |xs|)..], size);
    }
  }

  lemma SliceOfSlice<M>(xs: seq<M>, m: nat, a: nat, b: nat)
    requires a <= b && m + b <= |xs|
    ensures xs[m..][a..b] == xs[m + a..m + b]
  {
  }

  /** c * size, by repeated addition. */
  function Offset(c: nat, size: nat): nat {
    if c == 0 then 0 else Offset(c - 1, size) + size
  }

  lemma {:induction false} OffsetIsProduct(c: nat, size: nat)
    ensures Offset(c, size) == c * size
  {
    if c > 0 {
      OffsetIsProduct(c - 1, size);
      assert (c - 1) * size + size == c * size;
    }
  }

  lemma {:induction false} ChunkAtOffset<M>(xs: seq<M>, size: nat, c: nat)
    requires size >= 1 && c < |Chunks(xs, size)|
    ensures Offset(c, size) < |xs|
    ensures Chunks(xs, size)[c] == xs[Offset(c, size)..Min(Offset(c + 1, size), |xs|)]
    decreases |xs|
  {
    if c > 0 {
      ChunkAtOffset(xs[Min(size, |xs|)..], size, c - 1);
      SliceOfSlice(xs, size, Offset(c - 1, size), Min(Offset(c, size), |xs| - size));
    }
  }

  /** The chunk at position c is the slice of `size` elements from c * size, cut at the end. */
  lemma ChunkAt<M>(xs: seq<M>, size: nat, c: nat)
    requires size >= 1 && c < |Chunks(xs, size)|
    ensures c * size < |xs|
    ensures Chunks(xs, size)[c] == xs[c * size..Min((c + 1) * size, |xs|)]
  {
    hide Chunks, Offset;
    ChunkAtOffset(xs, size, c);
    OffsetIsProduct(c, size);
    OffsetIsProduct(c + 1, size);
  }

  lemma {:induction false} ChunksCount<M>(xs: seq<M>, size: nat)
    requires size >= 1
    ensures |Chunks(xs, size)| * size >= |xs| && (|xs| > 0 ==> (|Chunks(xs, size)| - 1) * size < |xs|)
    decreases |xs|
  {
    if xs != [] {
      var m := Min(size, |xs|);
      ChunksCount(xs[m..], size);
      var n := |Chunks(xs[m..], size)|;
      assert n * size + size == (n + 1) * size && (n - 1) * size + size == n * size;
    }
  }

  /** Every chunk but the last is full, and the last is not empty. */
  lemma ChunksFull<M>(xs: seq<M>, size: nat, c: nat)
    requires size >= 1 && c < |Chunks(xs, size)|
    ensures c < |Chunks(xs, size)| - 1 ==> |Chunks(xs, size)[c]| == size
    ensures 1 <= |Chunks(xs, size)[c]| <= size
  {
    ChunksCount(xs, size);
    ChunkAt(xs, size, c);
    var n := |Chunks(xs, size)|;
    assert (c + 1) * size == c * size + size;
    if c < n - 1 {
      ProductsOrdered(c + 1, n - 1, size);
    }
  }

  lemma {:induction false} ProductsOrdered(a: int, b: int, m: int)
    requires a <= b && m >= 0
    ensures a * m <= b * m
    decreases b - a
  {
  }
}
