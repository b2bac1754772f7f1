/** The change table of src/components/LogTable.tsx: which change records are
    shown, in what order, and the two counts above the table. */
module ChangeLog {
  import opened Translations

  /** The records of `cs` with status `st`, in their original order. */
  function WithStatus(cs: seq<ChangeRecord>, st: ChangeStatus): (r: seq<ChangeRecord>)
    ensures |r| <= |cs|
    ensures forall k :: 0 <= k < |r| ==> r[k].status == st
  {
    if cs == [] then []
    else (if cs[0].status == st then [cs[0]] else []) + WithStatus(cs[1..], st)
  }

  /** `.filter(c => c.status !== 'unchanged')`. */
  function Visible(cs: seq<ChangeRecord>): (r: seq<ChangeRecord>)
    ensures |r| <= |cs|
    ensures forall k :: 0 <= k < |r| ==> r[k].status != Unchanged
  {
    if cs == [] then []
    else (if cs[0].status != Unchanged then [cs[0]] else []) + Visible(cs[1..])
  }

  /** The comparator of the `.sort` call: updated before added, every other
      pair equal. */
  function Compare(a: ChangeRecord, b: ChangeRecord): int {
    if a.status == Updated && b.status == Added then -1
    else if a.status == Added && b.status == Updated then 1
    else 0
  }

  /** One step of a stable sort: `x`, which came before every element of
      `sorted`, goes in front of the first element it does not compare
      above. */
  function Insert(x: ChangeRecord, sorted: seq<ChangeRecord>): (r: seq<ChangeRecord>)
    ensures |r| == |sorted| + 1
  {
    if sorted == [] || Compare(x, sorted[0]) <= 0 then [x] + sorted
    else [sorted[0]] + Insert(x, sorted[1..])
  }

  /** `Array.prototype.sort` with that comparator. The sort is stable, and
      every stable sort orders a sequence the same way, so a stable insertion
      sort stands for it. */
  function StableSort(cs: seq<ChangeRecord>): (r: seq<ChangeRecord>)
    ensures |r| == |cs|
  {
    if cs == [] then [] else Insert(cs[0], StableSort(cs[1..]))
  }

  /** Inserting adds exactly the one record. */
  lemma {:induction false} InsertPermutes(x: ChangeRecord, sorted: seq<ChangeRecord>)
    ensures multiset(Insert(x, sorted)) == multiset(sorted) + multiset{x}
  {
    if sorted != [] && Compare(x, sorted[0]) > 0 {
      InsertPermutes(x, sorted[1..]);
      assert sorted == [sorted[0]] + sorted[1..];
    }
  }

  /** The sort is a permutation. */
  lemma {:induction false} SortPermutes(cs: seq<ChangeRecord>)
    ensures multiset(StableSort(cs)) == multiset(cs)
  {
    if cs != [] {
      SortPermutes(cs[1..]);
      InsertPermutes(cs[0], StableSort(cs[1..]));
      assert cs == [cs[0]] + cs[1..];
    }
  }

  /** `filteredChanges`: the records shown in the table. */
  function Shown(changes: seq<ChangeRecord>): seq<ChangeRecord> {
    StableSort(Visible(changes))
  }

  /** Every record of `u` is updated and every record of `a` is added. */
  predicate Grouped(u: seq<ChangeRecord>, a: seq<ChangeRecord>) {
    (forall k :: 0 <= k < |u| ==> u[k].status == Updated)
    && (forall k :: 0 <= k < |a| ==> a[k].status == Added)
  }

  /** An added record goes after the updated ones and before the added
      ones. */
  lemma {:induction false} InsertAdded(x: ChangeRecord, u: seq<ChangeRecord>, a: seq<ChangeRecord>)
    requires Grouped(u, a) && x.status == Added
    ensures Insert(x, u + a) == u + [x] + a
    decreases |u|
  {
    if u == [] {
      assert a == [] || Compare(x, a[0]) <= 0;
    } else {
      assert (u + a)[0] == u[0];
      assert (u + a)[1..] == u[1..] + a;
      InsertAdded(x, u[1..], a);
      assert u == [u[0]] + u[1..];
    }
  }

  /** An updated or added record inserted into grouped records joins the
      front of its own group. */
  lemma InsertGroups(x: ChangeRecord, u: seq<ChangeRecord>, a: seq<ChangeRecord>)
    requires Grouped(u, a) && x.status != Unchanged
    ensures Insert(x, u + a)
      == (if x.status == Updated then [x] + u else u) + (if x.status == Added then [x] + a else a)
  {
    if x.status == Added {
      InsertAdded(x, u, a);
      assert u + [x] + a == u + ([x] + a);
    } else {
      assert u + a == [] || Compare(x, (u + a)[0]) <= 0;
      assert [x] + (u + a) == ([x] + u) + a;
    }
  }

  /** Sorting records that are all updated or added yields the updated ones
      followed by the added ones, each group in its original order. */
  lemma {:induction false} SortGroups(cs: seq<ChangeRecord>)
    requires forall k :: 0 <= k < |cs| ==> cs[k].status != Unchanged
    ensures StableSort(cs) == WithStatus(cs, Updated) + WithStatus(cs, Added)
  {
    if cs != [] {
      var x := cs[0];
      var rest := cs[1..];
      SortGroups(rest);
      var u := WithStatus(rest, Updated);
      var a := WithStatus(rest, Added);
      InsertGroups(x, u, a);
    }
  }

  /** Filtering by a status after dropping the unchanged records is filtering
      by it directly. */
  lemma {:induction false} VisibleWithStatus(cs: seq<ChangeRecord>, st: ChangeStatus)
    requires st != Unchanged
    ensures WithStatus(Visible(cs), st) == WithStatus(cs, st)
  {
    if cs != [] {
      VisibleWithStatus(cs[1..], st);
      var v := Visible(cs[1..]);
      var c := cs[0];
      if c.status != Unchanged {
        assert ([c] + v)[0] == c && ([c] + v)[1..] == v;
        assert WithStatus([c] + v, st) == (if c.status == st then [c] else []) + WithStatus(v, st);
      } else {
        assert Visible(cs) == v;
      }
    }
  }

  /** A filter by status distributes over concatenation. */
  lemma {:induction false} WithStatusAppend(xs: seq<ChangeRecord>, ys: seq<ChangeRecord>, st: ChangeStatus)
    ensures WithStatus(xs + ys, st) == WithStatus(xs, st) + WithStatus(ys, st)
  {
    if xs != [] {
      var head := if xs[0].status == st then [xs[0]] else [];
      assert (xs + ys)[0] == xs[0];
      assert (xs + ys)[1..] == xs[1..] + ys;
      WithStatusAppend(xs[1..], ys, st);
      assert WithStatus(xs + ys, st) == head + WithStatus(xs[1..] + ys, st);
      assert WithStatus(xs, st) == head + WithStatus(xs[1..], st);
    } else {
      assert xs + ys == ys;
    }
  }

  /** A filter by one status keeps nothing of a sequence of another. */
  lemma {:induction false} WithStatusNone(cs: seq<ChangeRecord>, st: ChangeStatus)
    requires forall k :: 0 <= k < |cs| ==> cs[k].status != st
    ensures WithStatus(cs, st) == []
  {
    if cs != [] {
      WithStatusNone(cs[1..], st);
    }
  }

  /** The table lists exactly the updated records in their original order,
      then exactly the added ones in their original order; unchanged
      records are not shown. */
  lemma ShownIsUpdatedThenAdded(changes: seq<ChangeRecord>)
    ensures Shown(changes) == WithStatus(changes, Updated) + WithStatus(changes, Added)
  {
    SortGroups(Visible(changes));
    VisibleWithStatus(changes, Updated);
    VisibleWithStatus(changes, Added);
  }

  /** No unchanged record is shown, every shown record is one of the input,
      and no added record precedes an updated one. */
  lemma ShownOrder(changes: seq<ChangeRecord>)
    ensures forall k :: 0 <= k < |Shown(changes)| ==> Shown(changes)[k].status != Unchanged
    ensures multiset(Shown(changes)) <= multiset(changes)
    ensures forall i, j :: 0 <= i < j < |Shown(changes)| ==>
      !(Shown(changes)[i].status == Added && Shown(changes)[j].status == Updated)
  {
    ShownIsUpdatedThenAdded(changes);
    var u := WithStatus(changes, Updated);
    var a := WithStatus(changes, Added);
    GroupedOrder(u, a);
    assert multiset(u + a) == multiset(u) + multiset(a);
    MultisetDisjointSum(changes);
  }

  /** In grouped records nothing is unchanged and no added record precedes
      an updated one. */
  lemma GroupedOrder(u: seq<ChangeRecord>, a: seq<ChangeRecord>)
    requires Grouped(u, a)
    ensures forall k :: 0 <= k < |u + a| ==> (u + a)[k].status != Unchanged
    ensures forall i, j :: 0 <= i < j < |u + a| ==>
      !((u + a)[i].status == Added && (u + a)[j].status == Updated)
  {
    var s := u + a;
    forall k | 0 <= k < |s|
      ensures s[k].status == (if k < |u| then Updated else Added)
    {
      if k < |u| {
        assert s[k] == u[k];
      } else {
        assert s[k] == a[k - |u|];
      }
    }
  }

  /** The updated and the added records together are a sub-multiset of
      all records. */
  lemma {:induction false} MultisetDisjointSum(cs: seq<ChangeRecord>)
    ensures multiset(WithStatus(cs, Updated)) + multiset(WithStatus(cs, Added)) <= multiset(cs)
  {
    if cs != [] {
      var c := cs[0];
      var rest := cs[1..];
      MultisetDisjointSum(rest);
      var u := WithStatus(rest, Updated);
      var a := WithStatus(rest, Added);
      assert multiset(cs) == multiset{c} + multiset(rest) by {
        assert cs == [c] + rest;
      }
      if c.status == Updated {
        assert WithStatus(cs, Updated) == [c] + u;
        assert WithStatus(cs, Added) == a;
      } else if c.status == Added {
        assert WithStatus(cs, Updated) == u;
        assert WithStatus(cs, Added) == [c] + a;
      } else {
        assert WithStatus(cs, Updated) == u;
        assert WithStatus(cs, Added) == a;
      }
    }
  }

  /** A record is shown exactly as often as it occurs among the input with a
      status other than unchanged. */
  lemma ShownPermutesVisible(changes: seq<ChangeRecord>)
    ensures multiset(Shown(changes)) == multiset(Visible(changes))
  {
    SortPermutes(Visible(changes));
  }

  /** A filter by a status every record has keeps everything. */
  lemma {:induction false} WithStatusAll(cs: seq<ChangeRecord>, st: ChangeStatus)
    requires forall k :: 0 <= k < |cs| ==> cs[k].status == st
    ensures WithStatus(cs, st) == cs
  {
    if cs != [] {
      WithStatusAll(cs[1..], st);
      assert cs == [cs[0]] + cs[1..];
    }
  }

  /** Grouped records split back into their two groups. */
  lemma GroupedSplit(u: seq<ChangeRecord>, a: seq<ChangeRecord>)
    requires Grouped(u, a)
    ensures WithStatus(u + a, Updated) == u
    ensures WithStatus(u + a, Added) == a
  {
    WithStatusAppend(u, a, Updated);
    WithStatusAppend(u, a, Added);
    WithStatusAll(u, Updated);
    WithStatusAll(a, Added);
    WithStatusNone(a, Updated);
    WithStatusNone(u, Added);
  }

  /** Showing the shown records again changes nothing. */
  lemma ShownIdempotent(changes: seq<ChangeRecord>)
    ensures Shown(Shown(changes)) == Shown(changes)
  {
    var u := WithStatus(changes, Updated);
    var a := WithStatus(changes, Added);
    ShownIsUpdatedThenAdded(changes);
    ShownIsUpdatedThenAdded(u + a);
    GroupedSplit(u, a);
  }

  /** `addedCount` and `updatedCount`. */
  datatype Counts = Counts(added: nat, updated: nat)

  function CountShown(changes: seq<ChangeRecord>): (c: Counts)
    ensures c.added == |WithStatus(changes, Added)|
    ensures c.updated == |WithStatus(changes, Updated)|
    ensures c.added + c.updated == |Shown(changes)|
  {
    var shown := Shown(changes);
    ShownIsUpdatedThenAdded(changes);
    GroupedSplit(WithStatus(changes, Updated), WithStatus(changes, Added));
    Counts(|WithStatus(shown, Added)|, |WithStatus(shown, Updated)|)
  }
}
