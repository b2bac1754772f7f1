/** How the outcome of the row loop of `processDataArray`
    (src/components/UploadExcel.tsx) follows from the rows: which row each
    record comes from, and which row's texts each key ends up with. */
module MergeTrace {
  import opened Wrappers
  import opened Text
  import opened KeyDeriver
  import opened Translations
  import opened Columns
  import opened Merge

  /** The key a row is filed under; empty when the row is skipped because
      its English cell is blank or its text yields no key. */
  function RowKey(row: seq<string>, en: nat): (k: string)
    ensures k != [] ==> CellAt(row, en) != [] && k == TextToKey(CellAt(row, en))
    ensures CellAt(row, en) != [] ==> k == TextToKey(CellAt(row, en))
  {
    var eng := CellAt(row, en);
    if eng == [] then [] else TextToKey(eng)
  }

  /** The cell row `row` supplies for key `k` in column `col`: present when
      the row is filed under `k` and the cell is not blank. */
  function Supply(row: seq<string>, en: nat, col: Option<nat>, k: string): (c: Option<string>)
    ensures c.Some? <==> k != [] && RowKey(row, en) == k && RoleCell(row, col) != []
    ensures c.Some? ==> c.value == RoleCell(row, col)
  {
    if k != [] && RowKey(row, en) == k && RoleCell(row, col) != [] then Some(RoleCell(row, col)) else None
  }

  /** The last present value `f` gives along `xs`. */
  function LastSome<T>(xs: seq<T>, f: T -> Option<string>): Option<string>
    decreases |xs|
  {
    if xs == [] then None
    else if f(xs[|xs| - 1]).Some? then f(xs[|xs| - 1])
    else LastSome(xs[..|xs| - 1], f)
  }

  /** `LastSome` is the value of the last element that has one. */
  lemma {:induction false} LastSomeAt<T>(xs: seq<T>, f: T -> Option<string>, i: nat)
    requires i < |xs| && f(xs[i]).Some?
    requires forall j :: i < j < |xs| ==> f(xs[j]).None?
    ensures LastSome(xs, f) == f(xs[i])
    decreases |xs|
  {
    var n := |xs| - 1;
    if i < n {
      var pre := xs[..n];
      assert pre[i] == xs[i];
      forall j | i < j < |pre|
        ensures f(pre[j]).None?
      {
        assert pre[j] == xs[j];
      }
      LastSomeAt(pre, f, i);
    }
  }

  /** `LastSome` finds nothing exactly when no element has a value. */
  lemma {:induction false} LastSomeNone<T>(xs: seq<T>, f: T -> Option<string>)
    ensures LastSome(xs, f).None? <==> forall i :: 0 <= i < |xs| ==> f(xs[i]).None?
    decreases |xs|
  {
    if xs != [] {
      var n := |xs| - 1;
      var pre := xs[..n];
      LastSomeNone(pre, f);
      assert forall i :: 0 <= i < n ==> pre[i] == xs[i];
    }
  }

  /** The reference for "the last row wins": the non-blank cell in column
      `col` of the last row filed under `k` that has one. */
  function LastCell(rows: seq<seq<string>>, en: nat, col: Option<nat>, k: string): Option<string> {
    LastSome(rows, row => Supply(row, en, col, k))
  }

  /** The text a map ends with for `k`: the last supplied cell, up to
      surrounding whitespace, or what it held before when no row supplied
      one. */
  predicate EndsWith(after: Dict, before: Dict, k: string, last: Option<string>) {
    match last
    case None => Lookup(after, k) == Lookup(before, k)
    case Some(v) => k in after && Trim(after[k]) == v
  }

  /** A text a row's non-blank cell leaves for `k`: the cell, up to
      surrounding whitespace of a stored text it matched; a blank cell
      leaves the stored text. */
  predicate CellLeaves(after: Dict, before: Dict, k: string, cell: string) {
    if cell != [] then k in after && Trim(after[k]) == cell
    else Lookup(after, k) == Lookup(before, k)
  }

  /** What one row does to the texts of a key `k`: a row filed under `k`
      leaves its English text and each non-blank translation cell, and any
      other row leaves the texts of `k` alone. */
  lemma ApplyRowAtKey(s: AllTranslations, row: seq<string>, en: nat, roles: Roles, k: string)
    ensures var s2 := ApplyRow(s, row, en, roles).store;
      if k != [] && RowKey(row, en) == k then
        && CellLeaves(s2.en, s.en, k, CellAt(row, en))
        && CellLeaves(s2.jp, s.jp, k, RoleCell(row, roles.jp))
        && CellLeaves(s2.malay, s.malay, k, RoleCell(row, roles.malay))
      else
        && Lookup(s2.en, k) == Lookup(s.en, k)
        && Lookup(s2.jp, k) == Lookup(s.jp, k)
        && Lookup(s2.malay, k) == Lookup(s.malay, k)
  {
    if k != [] && RowKey(row, en) == k {
      ApplyRowOwnKey(s, row, en, roles);
    } else {
      ApplyRowOtherKey(s, row, en, roles, k);
    }
  }

  /** `ApplyRowAtKey` for the row's own key. */
  lemma ApplyRowOwnKey(s: AllTranslations, row: seq<string>, en: nat, roles: Roles)
    ensures var s2 := ApplyRow(s, row, en, roles).store;
      var k := RowKey(row, en);
      k != [] ==>
      && CellLeaves(s2.en, s.en, k, CellAt(row, en))
      && CellLeaves(s2.jp, s.jp, k, RoleCell(row, roles.jp))
      && CellLeaves(s2.malay, s.malay, k, RoleCell(row, roles.malay))
  {
    var k := RowKey(row, en);
    if k != [] {
      var r := ApplyRow(s, row, en, roles);
      ApplyRowRecordsExactly(s, row, en, roles);
      var eng := CellAt(row, en);
      var jpv := RoleCell(row, roles.jp);
      var mv := RoleCell(row, roles.malay);
      assert row != [];
      assert r == Classify(s, k, eng, roles, jpv, mv);
      TrimFacts(eng);
      TrimFacts(jpv);
      TrimFacts(mv);
      TrimFacts([]);
      if r.change.Some? {
        assert r.store == WriteRow(s, k, eng, roles, jpv, mv);
      } else {
        assert RowMatchesStore(s, k, eng, roles, jpv, mv);
        assert Lookup(s.en, k) != [];
      }
    }
  }

  /** `ApplyRowAtKey` for any other key. */
  lemma ApplyRowOtherKey(s: AllTranslations, row: seq<string>, en: nat, roles: Roles, k: string)
    requires !(k != [] && RowKey(row, en) == k)
    ensures var s2 := ApplyRow(s, row, en, roles).store;
      && Lookup(s2.en, k) == Lookup(s.en, k)
      && Lookup(s2.jp, k) == Lookup(s.jp, k)
      && Lookup(s2.malay, k) == Lookup(s.malay, k)
  {
    var r := ApplyRow(s, row, en, roles);
    if r.change.Some? {
      ApplyRowRecordsExactly(s, row, en, roles);
      var key := r.change.value.key;
      assert key == RowKey(row, en);
      assert key != k;
      SameOutsideLookup(s, r.store, key, k);
    }
  }

  /** A store that changed only at `key` reads as before at any other key. */
  lemma SameOutsideLookup(s: AllTranslations, s2: AllTranslations, key: string, k: string)
    requires StoreSameOutside(s, s2, {key}) && k != key
    ensures Lookup(s2.en, k) == Lookup(s.en, k)
    ensures Lookup(s2.jp, k) == Lookup(s.jp, k)
    ensures Lookup(s2.malay, k) == Lookup(s.malay, k)
  {
    assert k !in {key};
  }

  /** One step of `LastCell`: the last row decides when it supplies a
      cell, and the rows before it otherwise. */
  lemma LastCellStep(rows: seq<seq<string>>, en: nat, col: Option<nat>, k: string)
    requires rows != []
    ensures var n := |rows| - 1;
      LastCell(rows, en, col, k)
        == if Supply(rows[n], en, col, k).Some? then Supply(rows[n], en, col, k) else LastCell(rows[..n], en, col, k)
  {
  }

  /** One row more in `EndsWith`: a row filed under `k` that supplies a
      cell becomes the last supplier, and any other row leaves the text of
      `k` alone. */
  lemma EndsWithStep(after: Dict, mid: Dict, before: Dict, k: string, prevLast: Option<string>, filed: bool, cell: string)
    requires EndsWith(mid, before, k, prevLast)
    requires prevLast.Some? ==> prevLast.value != []
    requires filed ==> CellLeaves(after, mid, k, cell)
    requires !filed ==> Lookup(after, k) == Lookup(mid, k)
    ensures EndsWith(after, before, k, if filed && cell != [] then Some(cell) else prevLast)
  {
    if !(filed && cell != []) && prevLast.Some? {
      assert Lookup(after, k) == Lookup(mid, k);
      assert k in mid;
    }
  }

  /** A cell `LastCell` finds is never blank. */
  lemma {:induction false} LastCellNonBlank(rows: seq<seq<string>>, en: nat, col: Option<nat>, k: string)
    ensures LastCell(rows, en, col, k).Some? ==> LastCell(rows, en, col, k).value != []
    decreases |rows|
  {
    if rows != [] {
      LastCellStep(rows, en, col, k);
      LastCellNonBlank(rows[..|rows| - 1], en, col, k);
    }
  }

  /** `LastRowWins` over the fold of `MergeStep`. */
  lemma {:induction false} LastRowWinsRun(t: AllTranslations, rows: seq<seq<string>>, en: nat, roles: Roles, k: string)
    ensures var s := Run(t, rows, MergeStep(en, roles)).0;
      && EndsWith(s.en, t.en, k, LastCell(rows, en, Some(en), k))
      && EndsWith(s.jp, t.jp, k, LastCell(rows, en, roles.jp, k))
      && EndsWith(s.malay, t.malay, k, LastCell(rows, en, roles.malay, k))
    decreases |rows|
  {
    if rows != [] {
      var n := |rows| - 1;
      var pre := rows[..n];
      var row := rows[n];
      var s0 := Run(t, pre, MergeStep(en, roles)).0;
      var s := Run(t, rows, MergeStep(en, roles)).0;
      assert s == ApplyRow(s0, row, en, roles).store;
      LastRowWinsRun(t, pre, en, roles, k);
      ApplyRowAtKey(s0, row, en, roles, k);
      var filed := k != [] && RowKey(row, en) == k;
      LastCellStep(rows, en, Some(en), k);
      LastCellStep(rows, en, roles.jp, k);
      LastCellStep(rows, en, roles.malay, k);
      assert RoleCell(row, Some(en)) == CellAt(row, en);
      LastCellNonBlank(pre, en, Some(en), k);
      LastCellNonBlank(pre, en, roles.jp, k);
      LastCellNonBlank(pre, en, roles.malay, k);
      EndsWithStep(s.en, s0.en, t.en, k, LastCell(pre, en, Some(en), k), filed, CellAt(row, en));
      EndsWithStep(s.jp, s0.jp, t.jp, k, LastCell(pre, en, roles.jp, k), filed, RoleCell(row, roles.jp));
      EndsWithStep(s.malay, s0.malay, t.malay, k, LastCell(pre, en, roles.malay, k), filed, RoleCell(row, roles.malay));
    }
  }

  /** Last row wins. After the loop, the English text of each key is that of
      the last row filed under it, and its Japanese and Malay texts are
      those of the last such row with a non-blank cell in that column. A key
      no row supplies keeps the text the store held. Texts agree up to
      surrounding whitespace, since a row that matches a stored text up to
      whitespace writes nothing. */
  lemma LastRowWins(t: AllTranslations, rows: seq<seq<string>>, en: nat, roles: Roles, k: string)
    ensures var s := MergeRows(t, rows, en, roles).store;
      && EndsWith(s.en, t.en, k, LastCell(rows, en, Some(en), k))
      && EndsWith(s.jp, t.jp, k, LastCell(rows, en, roles.jp, k))
      && EndsWith(s.malay, t.malay, k, LastCell(rows, en, roles.malay, k))
  {
    MergeRowsIsRun(t, rows, en, roles);
    LastRowWinsRun(t, rows, en, roles, k);
  }

  /** Every key some row is filed under is in the English map afterwards. */
  lemma RowKeysKept(t: AllTranslations, rows: seq<seq<string>>, en: nat, roles: Roles, i: nat)
    requires i < |rows| && RowKey(rows[i], en) != []
    ensures RowKey(rows[i], en) in MergeRows(t, rows, en, roles).store.en
  {
    var k := RowKey(rows[i], en);
    var f := row => Supply(row, en, Some(en), k);
    assert RoleCell(rows[i], Some(en)) == CellAt(rows[i], en);
    assert f(rows[i]).Some?;
    LastSomeNone(rows, f);
    LastRowWins(t, rows, en, roles, k);
  }

  /** The last row filed under a key decides its English text, up to
      surrounding whitespace. */
  lemma LastEnglishWins(t: AllTranslations, rows: seq<seq<string>>, en: nat, roles: Roles, i: nat)
    requires i < |rows| && RowKey(rows[i], en) != []
    requires forall j :: i < j < |rows| ==> RowKey(rows[j], en) != RowKey(rows[i], en)
    ensures var s := MergeRows(t, rows, en, roles).store;
      RowKey(rows[i], en) in s.en && Trim(s.en[RowKey(rows[i], en)]) == CellAt(rows[i], en)
  {
    var k := RowKey(rows[i], en);
    var f := row => Supply(row, en, Some(en), k);
    assert RoleCell(rows[i], Some(en)) == CellAt(rows[i], en);
    assert f(rows[i]) == Some(CellAt(rows[i], en));
    forall j | i < j < |rows|
      ensures f(rows[j]).None?
    {
    }
    LastSomeAt(rows, f, i);
    LastRowWins(t, rows, en, roles, k);
  }

  /** One step of the row loop, as seen from the rows: the last row is
      applied to the store the rows before it produced, and its record, if
      any, is appended. */
  lemma MergeRowsStep(t: AllTranslations, rows: seq<seq<string>>, en: nat, roles: Roles)
    requires rows != []
    ensures var n := |rows| - 1;
      var prev := MergeRows(t, rows[..n], en, roles);
      var step := ApplyRow(prev.store, rows[n], en, roles);
      && MergeRows(t, rows, en, roles).store == step.store
      && MergeRows(t, rows, en, roles).changes == prev.changes + Emitted(step.change)
  {
  }

  /** A prefix of a prefix is a prefix. */
  lemma PrefixOfPrefix<T>(xs: seq<T>, n: nat, i: nat)
    requires i <= n <= |xs|
    ensures xs[..n][..i] == xs[..i]
    ensures i < n ==> xs[..n][i] == xs[i]
  {
  }

  /** The values present along `os`, in order. */
  function Present<T>(os: seq<Option<T>>): seq<T>
    decreases |os|
  {
    if os == [] then []
    else
      var n := |os| - 1;
      Present(os[..n]) + (if os[n].Some? then [os[n].value] else [])
  }

  /** `idx` lists the positions of the values present along `os`, in
      increasing order: position `idx[m]` holds the `m`-th present value. */
  ghost predicate IndexesPresent<T>(os: seq<Option<T>>, idx: seq<nat>) {
    && |idx| == |Present(os)|
    && (forall m :: 0 <= m < |idx| ==> idx[m] < |os| && os[idx[m]] == Some(Present(os)[m]))
    && (forall m, l :: 0 <= m < l < |idx| ==> idx[m] < idx[l])
    && (forall i :: 0 <= i < |os| ==> (i in idx <==> os[i].Some?))
  }

  /** The positions of the values present along `os`. */
  function SomeAt<T>(os: seq<Option<T>>): (idx: seq<nat>)
    ensures IndexesPresent(os, idx)
    decreases |os|
  {
    if os == [] then []
    else
      var n := |os| - 1;
      var prev := SomeAt(os[..n]);
      SomeAtStep(os, prev);
      if os[n].Some? then prev + [n] else prev
  }

  /** Extending the positions of the values present in all but the last
      entry of `os` by the last entry's position, when it holds a value,
      gives the positions for `os`. */
  lemma SomeAtStep<T>(os: seq<Option<T>>, prev: seq<nat>)
    requires os != []
    requires IndexesPresent(os[..|os| - 1], prev)
    ensures IndexesPresent(os, if os[|os| - 1].Some? then prev + [|os| - 1] else prev)
  {
    var ps := Present(os[..|os| - 1]);
    PresentLast(os);
    PrefixPositions(os, prev, ps);
    ExtendPositions(os, prev, ps, Present(os));
  }

  /** `Present` unfolded once. */
  lemma PresentLast<T>(os: seq<Option<T>>)
    requires os != []
    ensures Present(os) == Present(os[..|os| - 1]) + (if os[|os| - 1].Some? then [os[|os| - 1].value] else [])
  {
  }

  /** Positions into all but the last entry of `os` are positions into `os`. */
  lemma PrefixPositions<T>(os: seq<Option<T>>, prev: seq<nat>, ps: seq<T>)
    requires os != [] && |prev| == |ps|
    requires forall m :: 0 <= m < |prev| ==> prev[m] < |os| - 1 && os[..|os| - 1][prev[m]] == Some(ps[m])
    requires forall i :: 0 <= i < |os| - 1 ==> (i in prev <==> os[..|os| - 1][i].Some?)
    ensures forall m :: 0 <= m < |prev| ==> prev[m] < |os| - 1 && os[prev[m]] == Some(ps[m])
    ensures forall i :: 0 <= i < |os| - 1 ==> (i in prev <==> os[i].Some?)
  {
    assert forall i :: 0 <= i < |os| - 1 ==> os[..|os| - 1][i] == os[i];
  }

  /** `SomeAtStep` with the present values `ps` of all but the last entry
      and `all` of every entry given as plain lists. */
  lemma ExtendPositions<T>(os: seq<Option<T>>, prev: seq<nat>, ps: seq<T>, all: seq<T>)
    requires os != []
    requires all == ps + (if os[|os| - 1].Some? then [os[|os| - 1].value] else [])
    requires |prev| == |ps|
    requires forall m :: 0 <= m < |prev| ==> prev[m] < |os| - 1 && os[prev[m]] == Some(ps[m])
    requires forall m, l :: 0 <= m < l < |prev| ==> prev[m] < prev[l]
    requires forall i :: 0 <= i < |os| - 1 ==> (i in prev <==> os[i].Some?)
    ensures var idx := if os[|os| - 1].Some? then prev + [|os| - 1] else prev;
      && |idx| == |all|
      && (forall m :: 0 <= m < |idx| ==> idx[m] < |os| && os[idx[m]] == Some(all[m]))
      && (forall m, l :: 0 <= m < l < |idx| ==> idx[m] < idx[l])
      && (forall i :: 0 <= i < |os| ==> (i in idx <==> os[i].Some?))
  {
    var n := |os| - 1;
    assert n !in prev;
    if os[n].Some? {
      var idx := prev + [n];
      assert forall m :: 0 <= m < |prev| ==> idx[m] == prev[m] && all[m] == ps[m];
      assert idx[|prev|] == n && all[|prev|] == os[n].value;
      assert forall i :: 0 <= i < |os| ==> (i in idx <==> i in prev || i == n);
    } else {
      assert all == ps;
    }
  }

  /** A step folded over `xs` from first to last, collecting the outputs
      it produces. */
  function Run<S, X, C>(s0: S, xs: seq<X>, f: (S, X) -> (S, Option<C>)): (S, seq<C>)
    decreases |xs|
  {
    if xs == [] then (s0, [])
    else
      var n := |xs| - 1;
      var p := Run(s0, xs[..n], f);
      var o := f(p.0, xs[n]);
      (o.0, p.1 + (if o.1.Some? then [o.1.value] else []))
  }

  /** The output of each step, present or not. */
  function Outs<S, X, C>(s0: S, xs: seq<X>, f: (S, X) -> (S, Option<C>)): (os: seq<Option<C>>)
    ensures |os| == |xs|
    decreases |xs|
  {
    if xs == [] then []
    else
      var n := |xs| - 1;
      Outs(s0, xs[..n], f) + [f(Run(s0, xs[..n], f).0, xs[n]).1]
  }

  /** Output `i` is what the step does on element `i` from the state the
      elements before it left. */
  lemma {:induction false} OutsAt<S, X, C>(s0: S, xs: seq<X>, f: (S, X) -> (S, Option<C>), i: nat)
    requires i < |xs|
    ensures Outs(s0, xs, f)[i] == f(Run(s0, xs[..i], f).0, xs[i]).1
    decreases |xs|
  {
    var n := |xs| - 1;
    if i < n {
      OutsAt(s0, xs[..n], f, i);
      PrefixOfPrefix(xs, n, i);
    }
  }

  /** The collected outputs are the present step outputs, in order. */
  lemma {:induction false} RunOuts<S, X, C>(s0: S, xs: seq<X>, f: (S, X) -> (S, Option<C>))
    ensures Run(s0, xs, f).1 == Present(Outs(s0, xs, f))
    decreases |xs|
  {
    if xs != [] {
      var n := |xs| - 1;
      RunOuts(s0, xs[..n], f);
      assert Outs(s0, xs, f)[..n] == Outs(s0, xs[..n], f);
    }
  }

  /** One row of the loop as a step of `Run`. */
  function MergeStep(en: nat, roles: Roles): (AllTranslations, seq<string>) -> (AllTranslations, Option<ChangeRecord>) {
    (s, row) => (ApplyRow(s, row, en, roles).store, ApplyRow(s, row, en, roles).change)
  }

  /** The row loop is `Run` of `MergeStep`. */
  lemma {:induction false} MergeRowsIsRun(t: AllTranslations, rows: seq<seq<string>>, en: nat, roles: Roles)
    ensures MergeRows(t, rows, en, roles).store == Run(t, rows, MergeStep(en, roles)).0
    ensures MergeRows(t, rows, en, roles).changes == Run(t, rows, MergeStep(en, roles)).1
    decreases |rows|
  {
    if rows != [] {
      MergeRowsIsRun(t, rows[..|rows| - 1], en, roles);
      MergeRowsStep(t, rows, en, roles);
    }
  }

  /** The rows that left a record, in increasing order, one per record:
      record `m` of the loop carries the key and English text of row
      `idx[m]`. */
  function RecordRows(t: AllTranslations, rows: seq<seq<string>>, en: nat, roles: Roles): (idx: seq<nat>)
    ensures var cs := Run(t, rows, MergeStep(en, roles)).1;
      && |idx| == |cs|
      && (forall m :: 0 <= m < |idx| ==> idx[m] < |rows|)
      && (forall m, l :: 0 <= m < l < |idx| ==> idx[m] < idx[l])
      && (forall m :: 0 <= m < |idx| ==> cs[m].key == RowKey(rows[idx[m]], en) && cs[m].en == CellAt(rows[idx[m]], en))
  {
    var os := Outs(t, rows, MergeStep(en, roles));
    RunOuts(t, rows, MergeStep(en, roles));
    RecordsCarryRow(t, rows, en, roles);
    SomeAt(os)
  }

  /** The records of the row loop, traced back to their rows: `RecordRows`
      lists one row per record, in increasing order, and record `m` carries
      the key and English text of row `idx[m]`. */
  lemma RecordsTraceToRows(t: AllTranslations, rows: seq<seq<string>>, en: nat, roles: Roles)
    ensures var cs := MergeRows(t, rows, en, roles).changes;
      var idx := RecordRows(t, rows, en, roles);
      && |idx| == |cs|
      && (forall m :: 0 <= m < |idx| ==> idx[m] < |rows|)
      && (forall m, l :: 0 <= m < l < |idx| ==> idx[m] < idx[l])
      && (forall m :: 0 <= m < |idx| ==> cs[m].key == RowKey(rows[idx[m]], en) && cs[m].en == CellAt(rows[idx[m]], en))
  {
    MergeRowsIsRun(t, rows, en, roles);
  }

  /** Each record a row leaves is filed under that row's key and carries
      its English text. */
  lemma RecordsCarryRow(t: AllTranslations, rows: seq<seq<string>>, en: nat, roles: Roles)
    ensures var os := Outs(t, rows, MergeStep(en, roles));
      forall i :: 0 <= i < |rows| && os[i].Some? ==>
        os[i].value.key == RowKey(rows[i], en) && os[i].value.en == CellAt(rows[i], en)
  {
    var f := MergeStep(en, roles);
    var os := Outs(t, rows, f);
    forall i | 0 <= i < |rows|
      ensures os[i].Some? ==> os[i].value.key == RowKey(rows[i], en) && os[i].value.en == CellAt(rows[i], en)
    {
      OutsAt(t, rows, f, i);
      ApplyRowRecordsExactly(Run(t, rows[..i], f).0, rows[i], en, roles);
    }
  }

  /** A row is among `RecordRows` exactly when applying it to the store the
      rows before it produced makes a record. */
  lemma RecordRowsExactly(t: AllTranslations, rows: seq<seq<string>>, en: nat, roles: Roles, i: nat)
    requires i < |rows|
    ensures i in RecordRows(t, rows, en, roles)
      <==> ApplyRow(MergeRows(t, rows[..i], en, roles).store, rows[i], en, roles).change.Some?
  {
    OutsAt(t, rows, MergeStep(en, roles), i);
    MergeRowsIsRun(t, rows[..i], en, roles);
  }
}
