/** `flattenKeys` of scripts/generate-translation-types.cjs: the dotted paths
    of every leaf of a parsed locale file, sorted. */
module FlattenKeys {
  import opened LexOrder

  /** A parsed JSON value, as far as `flattenKeys` tells values apart: only
      an object (not `null`, not an array) is descended into. */
  datatype Json =
    | Null
    | Scalar                          // a string, number or boolean
    | Array(items: seq<Json>)
    | Object(fields: seq<Field>)      // own properties in enumeration order

  datatype Field = Field(name: string, value: Json)

  /** `prefix ? `${prefix}.${key}` : key`: an empty prefix counts as none. */
  function FullKey(prefix: string, key: string): (r: string)
    ensures prefix == [] ==> r == key
    ensures prefix != [] ==> r == prefix + "." + key
  {
    if prefix == [] then key else prefix + "." + key
  }

  /** `flattenKeys(obj, prefix)`: the keys of the fields of `obj`, each
      nested object replaced by its own flattened keys, the whole sorted. */
  function Flatten(obj: Json, prefix: string): (keys: seq<string>)
    requires obj.Object?
    ensures Sorted(keys)
    decreases obj, |obj.fields| + 1
  {
    Sort(Collect(obj, 0, prefix))
  }

  /** The keys pushed for the fields from `i` on, before sorting. */
  function Collect(obj: Json, i: nat, prefix: string): seq<string>
    requires obj.Object? && i <= |obj.fields|
    decreases obj, |obj.fields| - i
  {
    if i == |obj.fields| then []
    else
      var f := obj.fields[i];
      assert f in obj.fields;
      var full := FullKey(prefix, f.name);
      (if f.value.Object? then Flatten(f.value, full) else [full])
        + Collect(obj, i + 1, prefix)
  }

  /** The reference definition: the path of every leaf under `obj`, in
      document order, with no sorting at any level. */
  function Leaves(obj: Json, prefix: string): seq<string>
    requires obj.Object?
    decreases obj, |obj.fields| + 1
  {
    LeavesFrom(obj, 0, prefix)
  }

  function LeavesFrom(obj: Json, i: nat, prefix: string): seq<string>
    requires obj.Object? && i <= |obj.fields|
    decreases obj, |obj.fields| - i
  {
    if i == |obj.fields| then []
    else
      var f := obj.fields[i];
      assert f in obj.fields;
      var full := FullKey(prefix, f.name);
      (if f.value.Object? then Leaves(f.value, full) else [full])
        + LeavesFrom(obj, i + 1, prefix)
  }

  /** The sorting at inner levels changes only the order: the flattened keys
      are the leaf paths, each as often as it occurs. */
  lemma {:induction false} FlattenPermutesLeaves(obj: Json, prefix: string)
    requires obj.Object?
    ensures multiset(Flatten(obj, prefix)) == multiset(Leaves(obj, prefix))
    decreases obj, |obj.fields| + 1
  {
    SortPermutes(Collect(obj, 0, prefix));
    CollectPermutesLeaves(obj, 0, prefix);
  }

  lemma {:induction false} CollectPermutesLeaves(obj: Json, i: nat, prefix: string)
    requires obj.Object? && i <= |obj.fields|
    ensures multiset(Collect(obj, i, prefix)) == multiset(LeavesFrom(obj, i, prefix))
    decreases obj, |obj.fields| - i
  {
    if i < |obj.fields| {
      var f := obj.fields[i];
      assert f in obj.fields;
      var full := FullKey(prefix, f.name);
      CollectPermutesLeaves(obj, i + 1, prefix);
      if f.value.Object? {
        FlattenPermutesLeaves(f.value, full);
      }
    }
  }

  /** The output is exactly the sorted list of leaf paths. */
  lemma FlattenIsSortedLeaves(obj: Json, prefix: string)
    requires obj.Object?
    ensures Flatten(obj, prefix) == Sort(Leaves(obj, prefix))
  {
    FlattenPermutesLeaves(obj, prefix);
    SortPermutes(Leaves(obj, prefix));
    SortedUnique(Flatten(obj, prefix), Sort(Leaves(obj, prefix)));
  }

  /** The result does not depend on the order the fields are enumerated in:
      objects whose leaf paths agree as multisets flatten alike. */
  lemma FlattenIgnoresFieldOrder(a: Json, b: Json, prefix: string)
    requires a.Object? && b.Object?
    requires multiset(Leaves(a, prefix)) == multiset(Leaves(b, prefix))
    ensures Flatten(a, prefix) == Flatten(b, prefix)
  {
    FlattenPermutesLeaves(a, prefix);
    FlattenPermutesLeaves(b, prefix);
    SortedUnique(Flatten(a, prefix), Flatten(b, prefix));
  }

  /** `s` starts with `p`. */
  predicate StartsWith(s: string, p: string) {
    |p| <= |s| && s[..|p|] == p
  }

  /** Under a non-empty prefix every leaf path starts with the prefix and a
      dot. */
  lemma {:induction false} LeavesUnderPrefix(obj: Json, prefix: string)
    requires obj.Object? && prefix != []
    ensures AllStartWith(Leaves(obj, prefix), prefix + ".")
    decreases obj, |obj.fields| + 1
  {
    LeavesFromUnderPrefix(obj, 0, prefix);
  }

  lemma {:induction false} LeavesFromUnderPrefix(obj: Json, i: nat, prefix: string)
    requires obj.Object? && i <= |obj.fields| && prefix != []
    ensures AllStartWith(LeavesFrom(obj, i, prefix), prefix + ".")
    decreases obj, |obj.fields| - i
  {
    if i < |obj.fields| {
      var f := obj.fields[i];
      assert f in obj.fields;
      var full := FullKey(prefix, f.name);
      var p := prefix + ".";
      assert StartsWith(full, p) by {
        assert full == p + f.name;
        assert full[..|p|] == p;
      }
      LeavesFromUnderPrefix(obj, i + 1, prefix);
      var here := if f.value.Object? then Leaves(f.value, full) else [full];
      if f.value.Object? {
        LeavesUnderPrefix(f.value, full);
        forall k | 0 <= k < |here|
          ensures StartsWith(here[k], p)
        {
          PrefixTrans(here[k], full + ".", p);
        }
      }
      var rest := LeavesFrom(obj, i + 1, prefix);
      assert LeavesFrom(obj, i, prefix) == here + rest;
      AllStartWithConcat(here, rest, p);
    }
  }

  /** Every string of `xs` starts with `p`. */
  predicate AllStartWith(xs: seq<string>, p: string) {
    forall k :: 0 <= k < |xs| ==> StartsWith(xs[k], p)
  }

  lemma AllStartWithConcat(xs: seq<string>, ys: seq<string>, p: string)
    requires AllStartWith(xs, p) && AllStartWith(ys, p)
    ensures AllStartWith(xs + ys, p)
  {
    forall k | 0 <= k < |xs + ys|
      ensures StartsWith((xs + ys)[k], p)
    {
      if k < |xs| {
        assert (xs + ys)[k] == xs[k];
      } else {
        assert (xs + ys)[k] == ys[k - |xs|];
      }
    }
  }

  /** A string starting with `q`, where `q` starts with `p`, starts with
      `p`. */
  lemma PrefixTrans(s: string, q: string, p: string)
    requires StartsWith(s, q) && StartsWith(q, p)
    ensures StartsWith(s, p)
  {
    assert s[..|p|] == s[..|q|][..|p|];
  }

  /** A field holding anything but an object (a string, a number, `null`, or
      an array, whatever the array holds) contributes its own path. */
  lemma LeafFieldListed(obj: Json, prefix: string, i: nat)
    requires obj.Object? && i < |obj.fields|
    requires !obj.fields[i].value.Object?
    ensures FullKey(prefix, obj.fields[i].name) in Flatten(obj, prefix)
  {
    LeafInLeavesFrom(obj, 0, i, prefix);
    FlattenPermutesLeaves(obj, prefix);
    assert FullKey(prefix, obj.fields[i].name) in multiset(Leaves(obj, prefix));
  }

  lemma {:induction false} LeafInLeavesFrom(obj: Json, j: nat, i: nat, prefix: string)
    requires obj.Object? && j <= i < |obj.fields|
    requires !obj.fields[i].value.Object?
    ensures FullKey(prefix, obj.fields[i].name) in LeavesFrom(obj, j, prefix)
    decreases i - j
  {
    var f := obj.fields[j];
    assert f in obj.fields;
    var full := FullKey(prefix, f.name);
    var here := if f.value.Object? then Leaves(f.value, full) else [full];
    assert LeavesFrom(obj, j, prefix) == here + LeavesFrom(obj, j + 1, prefix);
    if j < i {
      LeafInLeavesFrom(obj, j + 1, i, prefix);
    } else {
      assert here == [full];
    }
  }
}
