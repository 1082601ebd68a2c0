/** What the pending list is: the unrecorded migrations, each once, in timestamp order. */
module PendingLaws {
  import opened Migrations
  import opened Migrator

  /** Registered migrations have distinct ids and distinct timestamps. */
  ghost predicate Distinct<D>(ms: seq<Migration<D>>) {
    forall i, j :: 0 <= i < j < |ms| ==> ms[i].id != ms[j].id && ms[i].timestamp != ms[j].timestamp
  }

  ghost predicate Ascending<D>(ms: seq<Migration<D>>) {
    forall i, j :: 0 <= i < j < |ms| ==> ms[i].timestamp < ms[j].timestamp
  }

  lemma {:induction false} UnrecordedElements<D(!new)>(ms: seq<Migration<D>>, ran: seq<string>)
    requires Distinct(ms)
    ensures forall m :: m in Unrecorded(ms, ran) <==> m in ms && m.id !in ran
    ensures Distinct(Unrecorded(ms, ran))
  {
    if ms != [] {
      var front, last := ms[..|ms| - 1], ms[|ms| - 1];
      assert ms == front + [last];
      UnrecordedElements(front, ran);
    }
  }

  lemma {:induction false} InsertElements<D(!new)>(m: Migration<D>, sorted: seq<Migration<D>>)
    requires Ascending(sorted) && forall x :: x in sorted ==> x.timestamp != m.timestamp
    ensures Ascending(Insert(m, sorted))
    ensures forall x :: x in Insert(m, sorted) <==> x == m || x in sorted
  {
    if sorted != [] && m.timestamp > sorted[0].timestamp {
      assert sorted == [sorted[0]] + sorted[1..];
      InsertElements(m, sorted[1..]);
      var rest := Insert(m, sorted[1..]);
      assert forall j :: 0 <= j < |rest| ==> rest[j] in rest;
    } else if sorted != [] {
      assert Insert(m, sorted) == [m] + sorted;
    }
  }

  lemma {:induction false} SortElements<D(!new)>(ms: seq<Migration<D>>)
    requires Distinct(ms)
    ensures Ascending(SortByTimestamp(ms))
    ensures forall x :: x in SortByTimestamp(ms) <==> x in ms
  {
    if ms != [] {
      assert ms == [ms[0]] + ms[1..];
      SortElements(ms[1..]);
      InsertElements(ms[0], SortByTimestamp(ms[1..]));
    }
  }

  /** Distinct timestamps leave one sorted order only, so sort.Slice need not be stable. */
  lemma {:induction false} SortedUnique<D(!new)>(a: seq<Migration<D>>, b: seq<Migration<D>>)
    requires Ascending(a) && Ascending(b)
    requires forall m :: m in a <==> m in b
    ensures a == b
  {
    if a == [] {
      assert forall j :: 0 <= j < |b| ==> b[j] in b;
    } else {
      assert a[0] in b && b[0] in a;
      var i :| 0 <= i < |b| && b[i] == a[0];
      var j :| 0 <= j < |a| && a[j] == b[0];
      assert i == 0 && j == 0;
      forall m ensures m in a[1..] <==> m in b[1..] {
        assert m in a <==> m in b;
        assert m in a[1..] ==> m != a[0];
        assert m in b[1..] ==> m != a[0];
        assert a == [a[0]] + a[1..] && b == [a[0]] + b[1..];
      }
      SortedUnique(a[1..], b[1..]);
    }
  }

  /** The pending list holds exactly the unrecorded migrations, in timestamp order. */
  lemma PendingExactly<D(!new)>(ms: seq<Migration<D>>, ran: seq<string>)
    requires Distinct(ms)
    ensures Ascending(Pending(ms, ran)) && Distinct(Pending(ms, ran))
    ensures forall m :: m in Pending(ms, ran) <==> m in ms && m.id !in ran
  {
    UnrecordedElements(ms, ran);
    var left := Unrecorded(ms, ran);
    SortElements(left);
    var p := Pending(ms, ran);
    forall i, j | 0 <= i < j < |p| ensures p[i].id != p[j].id {
      assert p[i] in ms && p[j] in ms && p[i].timestamp != p[j].timestamp;
    }
  }

  lemma SuffixById<D(!new)>(p: seq<Migration<D>>, k: nat, m: Migration<D>)
    requires Distinct(p) && k <= |p|
    ensures m in p[k..] <==> m in p && m.id !in MigrationIds(p[..k])
  {
  }

  /** Recording the first k pending migrations leaves the others pending, in the same order. */
  lemma PendingAfter<D(!new)>(ms: seq<Migration<D>>, ran: seq<string>, k: nat)
    requires Distinct(ms) && k <= |Pending(ms, ran)|
    ensures Pending(ms, ran + MigrationIds(Pending(ms, ran)[..k])) == Pending(ms, ran)[k..]
  {
    hide Pending, MigrationIds;
    var p := Pending(ms, ran);
    var ids := MigrationIds(p[..k]);
    PendingExactly(ms, ran);
    PendingExactly(ms, ran + ids);
    forall m ensures m in Pending(ms, ran + ids) <==> m in p[k..] {
      SuffixById(p, k, m);
    }
    SortedUnique(Pending(ms, ran + ids), p[k..]);
  }

  lemma {:induction false} IdsAppend(a: seq<Record>, b: seq<Record>)
    ensures Ids(a + b) == Ids(a) + Ids(b)
  {
    if a == [] {
      assert a + b == b;
    } else {
      IdsAppend(a[1..], b);
      assert (a + b)[1..] == a[1..] + b;
    }
  }
}
