/**
 * The watched-node map `validatorNodeData` across one tick: which entries it holds afterwards,
 * in which insertion order, and when the tick counts as having changed it.
 */
module WatchSet {
  import opened Types
  import opened Reconcile

  type Entries = map<string, ValidatorNodeDataItem>

  /**
   * The ids among the first `n` of `s` that are in `keys` (when `member`) or not in it
   * (otherwise), in order.
   */
  function FilterUpTo(s: seq<string>, n: nat, keys: set<string>, member: bool): seq<string>
    requires n <= |s|
  {
    if n == 0 then []
    else FilterUpTo(s, n - 1, keys, member) + (if (s[n - 1] in keys) == member then [s[n - 1]] else [])
  }

  /** The ids of `s` that are in `keys` (when `member`) or not in it (otherwise), in order. */
  function Filter(s: seq<string>, keys: set<string>, member: bool): seq<string>
  {
    FilterUpTo(s, |s|, keys, member)
  }

  /** Once every id has been visited, the filtered prefix is the whole filter and nothing is left. */
  lemma FilterUpToAll(s: seq<string>, keys: set<string>, member: bool)
    ensures FilterUpTo(s, |s|, keys, member) + s[|s|..] == Filter(s, keys, member)
  {
    assert s[|s|..] == [];
  }

  predicate Distinct(s: seq<string>)
  {
    forall i, j :: 0 <= i < j < |s| ==> s[i] != s[j]
  }

  /** A filtered prefix holds exactly the prefix's ids on the requested side of `keys`. */
  lemma {:induction false} FilterUpToMembers(s: seq<string>, n: nat, keys: set<string>, member: bool)
    requires n <= |s|
    ensures forall x :: x in FilterUpTo(s, n, keys, member) ==>
      (x in keys) == member && exists k :: 0 <= k < n && s[k] == x
    ensures forall k :: 0 <= k < n && (s[k] in keys) == member ==> s[k] in FilterUpTo(s, n, keys, member)
  {
    if n > 0 {
      FilterUpToMembers(s, n - 1, keys, member);
    }
  }

  /** The filtered sequence holds exactly the ids of `s` on the requested side of `keys`. */
  lemma FilterMembers(s: seq<string>, keys: set<string>, member: bool)
    ensures forall x :: x in Filter(s, keys, member) <==> x in s && (x in keys) == member
  {
    FilterUpToMembers(s, |s|, keys, member);
  }

  lemma {:induction false} FilterUpToDistinct(s: seq<string>, n: nat, keys: set<string>, member: bool)
    requires n <= |s| && Distinct(s)
    ensures Distinct(FilterUpTo(s, n, keys, member))
  {
    if n > 0 {
      FilterUpToDistinct(s, n - 1, keys, member);
      FilterUpToMembers(s, n - 1, keys, member);
    }
  }

  lemma FilterDistinct(s: seq<string>, keys: set<string>, member: bool)
    requires Distinct(s)
    ensures Distinct(Filter(s, keys, member))
  {
    FilterUpToDistinct(s, |s|, keys, member);
  }

  /** Filtering depends only on the filtered prefix. */
  lemma {:induction false} FilterUpToAgree(s: seq<string>, t: seq<string>, n: nat, keys: set<string>, member: bool)
    requires n <= |s| && n <= |t| && forall k :: 0 <= k < n ==> s[k] == t[k]
    ensures FilterUpTo(s, n, keys, member) == FilterUpTo(t, n, keys, member)
  {
    if n > 0 {
      FilterUpToAgree(s, t, n - 1, keys, member);
    }
  }

  lemma {:induction false} FilterUpToAppend(a: seq<string>, b: seq<string>, m: nat, keys: set<string>, member: bool)
    requires m <= |b|
    ensures FilterUpTo(a + b, |a| + m, keys, member) == Filter(a, keys, member) + FilterUpTo(b, m, keys, member)
  {
    if m == 0 {
      FilterUpToAgree(a + b, a, |a|, keys, member);
    } else {
      FilterUpToAppend(a, b, m - 1, keys, member);
      assert (a + b)[|a| + m - 1] == b[m - 1];
    }
  }

  lemma FilterAppend(a: seq<string>, b: seq<string>, keys: set<string>, member: bool)
    ensures Filter(a + b, keys, member) == Filter(a, keys, member) + Filter(b, keys, member)
  {
    FilterUpToAppend(a, b, |b|, keys, member);
  }

  lemma {:induction false} FilterUpToKeepsAll(s: seq<string>, n: nat, keys: set<string>, member: bool)
    requires n <= |s| && forall k :: 0 <= k < n ==> (s[k] in keys) == member
    ensures FilterUpTo(s, n, keys, member) == s[..n]
  {
    if n > 0 {
      FilterUpToKeepsAll(s, n - 1, keys, member);
      assert s[..n] == s[..n - 1] + [s[n - 1]];
    }
  }

  /** A filter that no element passes is empty. */
  lemma {:induction false} FilterUpToDropsAll(s: seq<string>, n: nat, keys: set<string>, member: bool)
    requires n <= |s|
    requires forall k :: 0 <= k < |s| ==> (s[k] in keys) != member
    ensures FilterUpTo(s, n, keys, member) == []
  {
    if n > 0 {
      FilterUpToDropsAll(s, n - 1, keys, member);
    }
  }

  lemma FilterKeepsAll(s: seq<string>, keys: set<string>, member: bool)
    requires forall x :: x in s ==> (x in keys) == member
    ensures Filter(s, keys, member) == s
  {
    FilterUpToKeepsAll(s, |s|, keys, member);
    assert s[..|s|] == s;
  }

  lemma SliceCons(s: seq<string>, j: nat)
    requires j < |s|
    ensures s[j..] == [s[j]] + s[j + 1..]
  {
  }

  /**
   * One step of deleting the unreported ids of a distinct sequence in place: the first `j` ids
   * are already filtered, and the `j`-th is kept or deleted.
   */
  lemma PruneOrderStep(ids: seq<string>, j: nat, keys: set<string>)
    requires Distinct(ids) && j < |ids|
    ensures FilterUpTo(ids, j + 1, keys, true) + ids[j + 1..]
      == if ids[j] in keys then FilterUpTo(ids, j, keys, true) + ids[j..]
         else Remove(FilterUpTo(ids, j, keys, true) + ids[j..], ids[j])
  {
    var kept := FilterUpTo(ids, j, keys, true);
    SliceCons(ids, j);
    if ids[j] !in keys {
      FilterUpToMembers(ids, j, keys, true);
      assert ids[j] !in ids[j + 1..];
      RemoveOnce(kept, ids[j], ids[j + 1..]);
      assert kept + [ids[j]] + ids[j + 1..] == kept + ids[j..];
    } else {
      assert kept + ids[j..] == (kept + [ids[j]]) + ids[j + 1..];
    }
  }

  /** Removing one id from a sequence: JavaScript's `Map.delete` on the insertion order. */
  function Remove(s: seq<string>, x: string): (r: seq<string>)
    ensures forall y :: y in r <==> y in s && y != x
  {
    if |s| == 0 then []
    else if s[0] == x then Remove(s[1..], x)
    else [s[0]] + Remove(s[1..], x)
  }

  lemma {:induction false} RemoveAbsent(s: seq<string>, x: string)
    requires x !in s
    ensures Remove(s, x) == s
  {
    if |s| > 0 {
      RemoveAbsent(s[1..], x);
    }
  }

  /** Deleting an id that occurs once drops exactly that occurrence. */
  lemma {:induction false} RemoveOnce(a: seq<string>, x: string, b: seq<string>)
    requires x !in a && x !in b
    ensures Remove(a + [x] + b, x) == a + b
  {
    if |a| == 0 {
      assert a + [x] + b == [x] + b;
      assert ([x] + b)[1..] == b;
      RemoveAbsent(b, x);
    } else {
      assert (a + [x] + b)[1..] == a[1..] + [x] + b;
      RemoveOnce(a[1..], x, b);
      assert [a[0]] + (a[1..] + b) == a + b;
    }
  }

  // ---------------------------------------------------------------------------------------------
  // Entries
  // ---------------------------------------------------------------------------------------------

  /**
   * A node's entry after the tick: a known entry keeps its name and takes the new times, in
   * milliseconds; a new entry has an empty name.
   */
  function Entry(before: Entries, id: string, md: MetricsData): ValidatorNodeDataItem
  {
    if id in before then before[id].(startTime := md.startTime * 1000, endTime := md.endTime * 1000)
    else ValidatorNodeDataItem(id, "", md.startTime * 1000, md.endTime * 1000)
  }

  /** The watched entries after a tick: exactly one per reported node. */
  function NextEntries(before: Entries, data: map<string, MetricsData>): (r: Entries)
    ensures forall id :: id in r <==> id in data
  {
    map id | id in data :: Entry(before, id, data[id])
  }

  /** The entries once every reported node has been added or re-timed, before any is removed. */
  function Upserted(before: Entries, data: map<string, MetricsData>): Entries
  {
    UpsertedWith(before, data, data.Keys)
  }

  /** The entries once the reported nodes in `done` have been added or re-timed. */
  function UpsertedWith(before: Entries, data: map<string, MetricsData>, done: set<string>): Entries
    requires done <= data.Keys
  {
    map id | id in before.Keys + done :: if id in done then Entry(before, id, data[id]) else before[id]
  }

  lemma UpsertedWithStep(before: Entries, data: map<string, MetricsData>, done: set<string>, id: string)
    requires done <= data.Keys && id in data && id !in done
    ensures UpsertedWith(before, data, done + {id}) == UpsertedWith(before, data, done)[id := Entry(before, id, data[id])]
  {
  }

  /** The watch set restricted to the nodes the tick reported. */
  function Pruned(upserted: Entries, data: map<string, MetricsData>): Entries
  {
    map id | id in upserted && id in data :: upserted[id]
  }

  /** The watch set after the delete loop has visited the first `j` ids of `ids`. */
  function PrunedUpTo(upserted: Entries, data: map<string, MetricsData>, ids: seq<string>, j: nat): Entries
    requires j <= |ids|
  {
    if j == 0 then upserted
    else
      var p := PrunedUpTo(upserted, data, ids, j - 1);
      if ids[j - 1] in data then p else p - {ids[j - 1]}
  }

  /** After `j` steps, exactly the unreported nodes among the first `j` ids are gone. */
  lemma {:induction false} PrunedUpToContents(upserted: Entries, data: map<string, MetricsData>, ids: seq<string>, j: nat)
    requires j <= |ids|
    ensures forall id :: id in PrunedUpTo(upserted, data, ids, j) <==>
      id in upserted && (id in data || forall k :: 0 <= k < j ==> ids[k] != id)
    ensures forall id :: id in PrunedUpTo(upserted, data, ids, j) ==> PrunedUpTo(upserted, data, ids, j)[id] == upserted[id]
  {
    if j > 0 {
      PrunedUpToContents(upserted, data, ids, j - 1);
    }
  }

  /** Whether any of the first `j` ids of `ids` went unreported. */
  predicate AnyUnreported(ids: seq<string>, j: nat, data: map<string, MetricsData>)
    requires j <= |ids|
  {
    j > 0 && (AnyUnreported(ids, j - 1, data) || ids[j - 1] !in data)
  }

  lemma {:induction false} AnyUnreportedIff(ids: seq<string>, j: nat, data: map<string, MetricsData>)
    requires j <= |ids|
    ensures AnyUnreported(ids, j, data) <==> exists k :: 0 <= k < j && ids[k] !in data
  {
    if j > 0 {
      AnyUnreportedIff(ids, j - 1, data);
    }
  }

  /** Visiting every watched id leaves exactly the reported nodes. */
  lemma PrunedAll(upserted: Entries, data: map<string, MetricsData>, ids: seq<string>)
    requires Consistent(ids, upserted)
    ensures PrunedUpTo(upserted, data, ids, |ids|) == Pruned(upserted, data)
  {
    PrunedUpToContents(upserted, data, ids, |ids|);
    forall id | id in upserted
      ensures (forall k :: 0 <= k < |ids| ==> ids[k] != id) == false
    {
      assert id in ids;
    }
  }

  /** Some node is deleted exactly when some watched node went unreported. */
  lemma UnreportedAll(upserted: Entries, data: map<string, MetricsData>, ids: seq<string>)
    requires Consistent(ids, upserted)
    ensures AnyUnreported(ids, |ids|, data) <==> exists id :: id in upserted && id !in data
  {
    AnyUnreportedIff(ids, |ids|, data);
    if exists id :: id in upserted && id !in data {
      var id :| id in upserted && id !in data;
      assert id in ids;
    }
  }

  /** Entries are keyed by their own id. */
  ghost predicate KeyedById(entries: Entries)
  {
    forall id :: id in entries ==> entries[id].nodeId == id
  }

  /**
   * After a tick every reported node is watched with its times in milliseconds, known nodes
   * keep their names, new ones have an empty name, and each entry is keyed by its id.
   */
  lemma NextEntriesContents(before: Entries, data: map<string, MetricsData>, id: string)
    requires KeyedById(before) && id in data
    ensures var e := NextEntries(before, data)[id];
      && e.nodeId == id
      && e.startTime == data[id].startTime * 1000 && e.endTime == data[id].endTime * 1000
      && e.name == (if id in before then before[id].name else "")
  {
  }

  /** Processing one reported node changes the map: it was not watched, or its times moved. */
  predicate StepChanges(entries: Entries, id: string, md: MetricsData)
  {
    id !in entries || entries[id].startTime != md.startTime * 1000 || entries[id].endTime != md.endTime * 1000
  }

  /** The tick changes the watch set: an entry is added, re-timed or removed. */
  predicate Changed(before: Entries, data: map<string, MetricsData>)
  {
    (exists id :: id in data && StepChanges(before, id, data[id])) || (exists id :: id in before && id !in data)
  }

  /** The tick counts as a change exactly when the watched entries come out different. */
  lemma ChangedIff(before: Entries, data: map<string, MetricsData>)
    ensures Changed(before, data) <==> NextEntries(before, data) != before
  {
    var next := NextEntries(before, data);
    if !Changed(before, data) {
      forall id | id in before ensures id in next && next[id] == before[id] {
        assert !StepChanges(before, id, data[id]);
      }
      assert next == before;
    } else if id :| id in data && StepChanges(before, id, data[id]) {
      if id in before {
        assert next[id].startTime != before[id].startTime || next[id].endTime != before[id].endTime;
      }
    } else {
      var id :| id in before && id !in data;
      assert id !in next;
    }
  }

  /** Replaying a tick on its own outcome changes nothing, so it triggers no dashboard update. */
  lemma NextEntriesIdempotent(before: Entries, data: map<string, MetricsData>)
    ensures NextEntries(NextEntries(before, data), data) == NextEntries(before, data)
    ensures !Changed(NextEntries(before, data), data)
  {
    var next := NextEntries(before, data);
    assert forall id :: id in data ==> !StepChanges(next, id, data[id]);
    ChangedIff(next, data);
  }

  // ---------------------------------------------------------------------------------------------
  // Insertion order
  // ---------------------------------------------------------------------------------------------

  /**
   * The order after a tick: surviving entries where they were, then the new nodes in the
   * order the tick first saw them.
   */
  function NextOrder(order: seq<string>, before: Entries, r: Reconciled): seq<string>
  {
    Filter(order, r.data.Keys, true) + Filter(r.order, before.Keys, false)
  }

  /** The order and the entries describe the same insertion-ordered map. */
  ghost predicate Consistent(order: seq<string>, entries: Entries)
  {
    Distinct(order) && forall id :: id in entries <==> id in order
  }

  /** The new order lists exactly the new entries, once each. */
  lemma NextOrderConsistent(order: seq<string>, before: Entries, r: Reconciled)
    requires Consistent(order, before) && WellFormed(r)
    ensures Consistent(NextOrder(order, before, r), NextEntries(before, r.data))
  {
    var kept := Filter(order, r.data.Keys, true);
    var added := Filter(r.order, before.Keys, false);
    FilterDistinct(order, r.data.Keys, true);
    FilterDistinct(r.order, before.Keys, false);
    FilterMembers(order, r.data.Keys, true);
    FilterMembers(r.order, before.Keys, false);
    var s := kept + added;
    forall i, j | 0 <= i < j < |s| ensures s[i] != s[j] {
      if i < |kept| && j >= |kept| {
        assert s[i] in kept && s[j] in added;
      }
    }
  }

  /** Replaying a tick on its own outcome leaves the watch order, and so the panel order, as it is. */
  lemma NextOrderIdempotent(order: seq<string>, before: Entries, r: Reconciled)
    requires Consistent(order, before) && WellFormed(r)
    ensures NextOrder(NextOrder(order, before, r), NextEntries(before, r.data), r) == NextOrder(order, before, r)
  {
    var next := NextOrder(order, before, r);
    FilterMembers(order, r.data.Keys, true);
    FilterMembers(r.order, before.Keys, false);
    FilterKeepsAll(next, r.data.Keys, true);
    FilterUpToDropsAll(r.order, |r.order|, r.data.Keys, false);
    assert NextEntries(before, r.data).Keys == r.data.Keys;
    assert next + [] == next;
  }

  /** The order after the insert-or-update loop lists exactly the upserted entries, once each. */
  lemma UpsertedConsistent(before: Entries, beforeOrder: seq<string>, r: Reconciled)
    requires Consistent(beforeOrder, before) && WellFormed(r)
    ensures Consistent(beforeOrder + Filter(r.order, before.Keys, false), Upserted(before, r.data))
  {
    var added := Filter(r.order, before.Keys, false);
    var order := beforeOrder + added;
    FilterDistinct(r.order, before.Keys, false);
    FilterMembers(r.order, before.Keys, false);
    forall i, j | 0 <= i < j < |order| ensures order[i] != order[j] {
      if i < |beforeOrder| && j >= |beforeOrder| {
        assert order[j] in added;
      }
    }
  }

  /** Upserting and then deleting the unreported nodes gives the watched entries of a tick. */
  lemma UpsertThenPrune(before: Entries, data: map<string, MetricsData>)
    ensures Pruned(Upserted(before, data), data) == NextEntries(before, data)
    ensures (exists id :: id in Upserted(before, data) && id !in data) <==> exists id :: id in before && id !in data
  {
  }

  /** Deleting the unreported ids from the upserted order gives the order of a tick. */
  lemma UpsertThenPruneOrder(beforeOrder: seq<string>, before: Entries, r: Reconciled)
    requires Consistent(beforeOrder, before) && WellFormed(r)
    ensures Filter(beforeOrder + Filter(r.order, before.Keys, false), r.data.Keys, true) == NextOrder(beforeOrder, before, r)
  {
    var added := Filter(r.order, before.Keys, false);
    FilterMembers(r.order, before.Keys, false);
    FilterAppend(beforeOrder, added, r.data.Keys, true);
    FilterKeepsAll(added, r.data.Keys, true);
  }


  /** The watched items in insertion order, as handed to the dashboard. */
  function Items(order: seq<string>, entries: Entries): (items: seq<ValidatorNodeDataItem>)
    requires forall id :: id in order ==> id in entries
    ensures |items| == |order|
  {
    seq(|order|, k requires 0 <= k < |order| => entries[order[k]])
  }
}
