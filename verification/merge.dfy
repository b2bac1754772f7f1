/** The row loop of `processDataArray` (src/components/UploadExcel.tsx): each
    data row is read, classified against the store, and written into it. The
    store is threaded from row to row, because the copy made before the loop
    is shallow and every write lands in the maps the comparisons read. */
module Merge {
  import opened Wrappers
  import opened Text
  import opened KeyDeriver
  import opened Translations
  import opened Columns

  /** `String(row[i] || '').trim()`, a missing cell reading as empty. */
  function CellAt(row: seq<string>, i: nat): (c: string)
    ensures IsTrimmed(c)
    ensures i < |row| ==> c == Trim(row[i])
    ensures i >= |row| ==> c == []
  {
    if i < |row| then Trim(row[i]) else []
  }

  /** The value of a translation column: its cell when the column is
      assigned, the empty string when it is not. */
  function RoleCell(row: seq<string>, role: Option<nat>): (c: string)
    ensures IsTrimmed(c)
    ensures role.None? ==> c == []
  {
    match role
    case Some(i) => CellAt(row, i)
    case None => []
  }

  /** `b` keeps every key of `a`, and a value of `b` that is new or changed
      is never empty: nothing is deleted and nothing is blanked. */
  predicate Grows(a: Dict, b: Dict) {
    && (forall k :: k in a ==> k in b)
    && (forall k :: k in b ==> (k in a && b[k] == a[k]) || b[k] != [])
  }

  predicate StoreGrows(a: AllTranslations, b: AllTranslations) {
    Grows(a.en, b.en) && Grows(a.jp, b.jp) && Grows(a.malay, b.malay)
  }

  /** `a` and `b` agree on every key outside `ks`. */
  ghost predicate SameOutside(a: Dict, b: Dict, ks: set<string>) {
    forall k :: k !in ks ==> (k in a <==> k in b) && (k in a ==> a[k] == b[k])
  }

  ghost predicate StoreSameOutside(a: AllTranslations, b: AllTranslations, ks: set<string>) {
    SameOutside(a.en, b.en, ks) && SameOutside(a.jp, b.jp, ks) && SameOutside(a.malay, b.malay, ks)
  }

  /** The key is `in` none of the three maps. */
  predicate IsNewKey(t: AllTranslations, key: string) {
    key !in t.en && key !in t.jp && key !in t.malay
  }

  /** What every emitted record looks like: a well-formed key, an English
      text, a status that is never `Unchanged`, and old texts exactly on
      updates. */
  predicate ValidRecord(c: ChangeRecord) {
    c.key != [] && WellFormedKey(c.key) && RecordShape(c)
  }

  /** A non-empty trimmed English text, a status other than `Unchanged`, and
      old texts exactly on updates. */
  predicate RecordShape(c: ChangeRecord) {
    && c.en != [] && IsTrimmed(c.en)
    && c.status != Unchanged
    && (c.oldEn.Some? <==> c.status == Updated)
    && (c.oldJp.Some? <==> c.status == Updated)
    && (c.oldMalay.Some? <==> c.status == Updated)
  }

  /** The record shows what the store holds for its key. */
  predicate Mirrors(t: AllTranslations, c: ChangeRecord) {
    && c.key in t.en && t.en[c.key] == c.en
    && Lookup(t.jp, c.key) == c.jp
    && Lookup(t.malay, c.key) == c.malay
  }

  /** A stored text agrees with a (trimmed) cell: both empty, or equal once
      the stored text is trimmed. */
  predicate Agrees(stored: string, cell: string) {
    if cell == [] then stored == [] else Trim(stored) == cell
  }

  /** The row brings nothing new: the key is known, its English text is the
      same up to surrounding whitespace, and every assigned translation
      column agrees with what is stored. */
  predicate RowMatchesStore(t: AllTranslations, key: string, eng: string, roles: Roles, jpv: string, mv: string) {
    && !IsNewKey(t, key)
    && Trim(Lookup(t.en, key)) == eng
    && (roles.jp.Some? ==> Agrees(Lookup(t.jp, key), jpv))
    && (roles.malay.Some? ==> Agrees(Lookup(t.malay, key), mv))
  }

  /** The store after one row, and the record the row produced, if any. */
  datatype Step = Step(store: AllTranslations, change: Option<ChangeRecord>)

  /** The records a step adds to the list: its record, if it made one. */
  function Emitted(change: Option<ChangeRecord>): (cs: seq<ChangeRecord>)
    ensures |cs| <= 1
    ensures change.None? <==> cs == []
    ensures change.Some? ==> cs[0] == change.value
  {
    match change
    case None => []
    case Some(c) => [c]
  }

  /** The three change flags of one translation column: the cell of an
      assigned column differs from the stored text (both non-empty), adds a
      text where none is stored, or is blank over a stored text. */
  predicate ColumnDiffers(active: bool, cell: string, stored: string) {
    || (active && cell != [] && stored != [] && Trim(cell) != Trim(stored))
    || (active && cell != [] && stored == [])
    || (active && cell == [] && stored != [])
  }

  /** The seven change flags of the row loop, any of which makes a known key
      count as changed. */
  predicate Differs(t: AllTranslations, key: string, eng: string, roles: Roles, jpv: string, mv: string) {
    || Trim(Lookup(t.en, key)) != Trim(eng)
    || ColumnDiffers(roles.jp.Some?, jpv, Lookup(t.jp, key))
    || ColumnDiffers(roles.malay.Some?, mv, Lookup(t.malay, key))
  }

  /** For one assigned column, the flags are the negation of agreement. */
  lemma ColumnDiffersIff(cell: string, stored: string)
    requires IsTrimmed(cell)
    ensures ColumnDiffers(true, cell, stored) <==> !Agrees(stored, cell)
  {
    TrimFacts(cell);
    if cell != [] && Trim(stored) == cell {
      assert stored != [];
    }
  }

  /** An unassigned column never differs; an assigned one differs exactly
      when it disagrees with the store. */
  lemma RoleDiffersIff(role: Option<nat>, cell: string, stored: string)
    requires IsTrimmed(cell)
    ensures ColumnDiffers(role.Some?, cell, stored) <==> role.Some? && !Agrees(stored, cell)
  {
    if role.Some? {
      ColumnDiffersIff(cell, stored);
    }
  }

  lemma EnglishDiffersIff(stored: string, eng: string)
    requires IsTrimmed(eng)
    ensures Trim(stored) != Trim(eng) <==> Trim(stored) != eng
  {
    TrimFacts(eng);
  }

  /** The code's change test is the negation of "the row matches the store". */
  lemma DiffersIffMismatch(t: AllTranslations, key: string, eng: string, roles: Roles, jpv: string, mv: string)
    requires IsTrimmed(eng) && IsTrimmed(jpv) && IsTrimmed(mv)
    ensures IsNewKey(t, key) || Differs(t, key, eng, roles, jpv, mv) <==> !RowMatchesStore(t, key, eng, roles, jpv, mv)
  {
    DiffersAsDisagreement(t, key, eng, roles, jpv, mv);
  }

  /** The seven flags, read column by column: the English text differs once
      trimmed, or an assigned translation column disagrees with the store. */
  lemma DiffersAsDisagreement(t: AllTranslations, key: string, eng: string, roles: Roles, jpv: string, mv: string)
    requires IsTrimmed(eng) && IsTrimmed(jpv) && IsTrimmed(mv)
    ensures Differs(t, key, eng, roles, jpv, mv) <==>
      || Trim(Lookup(t.en, key)) != eng
      || (roles.jp.Some? && !Agrees(Lookup(t.jp, key), jpv))
      || (roles.malay.Some? && !Agrees(Lookup(t.malay, key), mv))
  {
    EnglishDiffersIff(Lookup(t.en, key), eng);
    RoleDiffersIff(roles.jp, jpv, Lookup(t.jp, key));
    RoleDiffersIff(roles.malay, mv, Lookup(t.malay, key));
  }

  /** The writes of a changed row: the English text always, a translation only
      from a non-empty cell of an assigned column. */
  function WriteRow(t: AllTranslations, key: string, eng: string, roles: Roles, jpv: string, mv: string): (s: AllTranslations)
    requires eng != []
    ensures StoreGrows(t, s)
    ensures s.en.Keys == t.en.Keys + {key}
    ensures StoreSameOutside(t, s, {key})
    ensures key in s.en && s.en[key] == eng
    ensures Lookup(s.jp, key) == (if roles.jp.Some? && jpv != [] then jpv else Lookup(t.jp, key))
    ensures Lookup(s.malay, key) == (if roles.malay.Some? && mv != [] then mv else Lookup(t.malay, key))
    ensures s.jp != t.jp ==> jpv != []
    ensures s.malay != t.malay ==> mv != []
  {
    AllTranslations(
      t.en[key := eng],
      if roles.jp.Some? && jpv != [] then t.jp[key := jpv] else t.jp,
      if roles.malay.Some? && mv != [] then t.malay[key := mv] else t.malay)
  }

  /** The classification and write of one row whose English text and key
      are known. */
  function Classify(t: AllTranslations, key: string, eng: string, roles: Roles, jpv: string, mv: string): (r: Step)
    requires key != [] && eng != [] && IsTrimmed(eng) && IsTrimmed(jpv) && IsTrimmed(mv)
    requires roles.jp.None? ==> jpv == []
    requires roles.malay.None? ==> mv == []
    ensures r.change.None? <==> !IsNewKey(t, key) && !Differs(t, key, eng, roles, jpv, mv)
    ensures r.change.None? ==> r.store == t
    ensures r.change.Some? ==>
      && r.store == WriteRow(t, key, eng, roles, jpv, mv)
      && r.change.value.key == key
      && r.change.value.en == eng
      && RecordShape(r.change.value)
      && Mirrors(r.store, r.change.value)
      && (r.change.value.status == Added <==> IsNewKey(t, key))
      && (r.change.value.status == Updated ==>
            && r.change.value.oldEn == Some(Lookup(t.en, key))
            && r.change.value.oldJp == Some(Lookup(t.jp, key))
            && r.change.value.oldMalay == Some(Lookup(t.malay, key)))
  {
    var isNew := IsNewKey(t, key);
    var differs := Differs(t, key, eng, roles, jpv, mv);
    if !(isNew || differs) then Step(t, None)
    else
      // A changed row is `added` when its key is new and `updated`
      // otherwise; `unchanged` is never reached here.
      Step(WriteRow(t, key, eng, roles, jpv, mv), Some(Record(t, key, eng, roles, jpv, mv, !isNew)))
  }

  /** The record of a changed row: the row's English text, each translation
      from its cell or else as stored, and on an update the three texts the
      store held before. */
  function Record(t: AllTranslations, key: string, eng: string, roles: Roles, jpv: string, mv: string, updated: bool): (c: ChangeRecord)
    requires eng != [] && IsTrimmed(eng)
    requires roles.jp.None? ==> jpv == []
    requires roles.malay.None? ==> mv == []
    ensures c.key == key && c.en == eng
    ensures c.status == (if updated then Updated else Added)
    ensures updated ==>
      && c.oldEn == Some(Lookup(t.en, key))
      && c.oldJp == Some(Lookup(t.jp, key))
      && c.oldMalay == Some(Lookup(t.malay, key))
    ensures RecordShape(c)
    ensures Mirrors(WriteRow(t, key, eng, roles, jpv, mv), c)
  {
    var oldEn := Lookup(t.en, key);
    var oldJp := Lookup(t.jp, key);
    var oldMalay := Lookup(t.malay, key);
    ChangeRecord(
      key, eng,
      if jpv != [] then jpv else oldJp,
      if mv != [] then mv else oldMalay,
      if updated then Updated else Added,
      if updated then Some(oldEn) else None,
      if updated then Some(oldJp) else None,
      if updated then Some(oldMalay) else None)
  }

  /** One iteration of the row loop: empty rows, rows with a blank English
      cell and rows whose English text yields no key are skipped. */
  function ApplyRow(t: AllTranslations, row: seq<string>, en: nat, roles: Roles): (r: Step)
    ensures StoreGrows(t, r.store)
    ensures r.change.None? ==> r.store == t
    ensures r.change.Some? ==>
      && ValidRecord(r.change.value)
      && Mirrors(r.store, r.change.value)
      && (r.change.value.status == Added <==> IsNewKey(t, r.change.value.key))
      && r.store.en.Keys == t.en.Keys + {r.change.value.key}
      && StoreSameOutside(t, r.store, {r.change.value.key})
    ensures r.store.jp != t.jp ==> RoleCell(row, roles.jp) != []
    ensures r.store.malay != t.malay ==> RoleCell(row, roles.malay) != []
  {
    if row == [] then Step(t, None)
    else
      var eng := CellAt(row, en);
      if eng == [] then Step(t, None)
      else
        var key := TextToKey(eng);
        if key == [] then Step(t, None)
        else
          var jpv := RoleCell(row, roles.jp);
          var mv := RoleCell(row, roles.malay);
          Classify(t, key, eng, roles, jpv, mv)
  }

  /** A row is skipped exactly when its English cell is blank, its English
      text yields no key, or it matches what the store holds; a recorded row
      is recorded under the key of its English text. */
  lemma ApplyRowRecordsExactly(t: AllTranslations, row: seq<string>, en: nat, roles: Roles)
    ensures var r := ApplyRow(t, row, en, roles);
      r.change.None? <==>
        || CellAt(row, en) == []
        || TextToKey(CellAt(row, en)) == []
        || RowMatchesStore(t, TextToKey(CellAt(row, en)), CellAt(row, en), roles, RoleCell(row, roles.jp), RoleCell(row, roles.malay))
    ensures var r := ApplyRow(t, row, en, roles);
      r.change.Some? ==> r.change.value.key == TextToKey(CellAt(row, en)) && r.change.value.en == CellAt(row, en)
  {
    var eng := CellAt(row, en);
    if row == [] {
      assert eng == [];
    } else if eng != [] && TextToKey(eng) != [] {
      var key := TextToKey(eng);
      var jpv := RoleCell(row, roles.jp);
      var mv := RoleCell(row, roles.malay);
      assert ApplyRow(t, row, en, roles) == Classify(t, key, eng, roles, jpv, mv);
      DiffersIffMismatch(t, key, eng, roles, jpv, mv);
    }
  }

  /** The keys of a list of records. */
  function RecordKeys(cs: seq<ChangeRecord>): (ks: set<string>)
    ensures forall i :: 0 <= i < |cs| ==> cs[i].key in ks
    ensures forall k :: k in ks ==> exists i :: 0 <= i < |cs| && cs[i].key == k
  {
    if cs == [] then {} else RecordKeys(cs[..|cs| - 1]) + {cs[|cs| - 1].key}
  }

  /** Record `i` is the last one for its key. */
  predicate LastFor(cs: seq<ChangeRecord>, i: nat) {
    i < |cs| && forall j :: i < j < |cs| ==> cs[j].key != cs[i].key
  }

  predicate AllValid(cs: seq<ChangeRecord>) {
    forall i :: 0 <= i < |cs| ==> ValidRecord(cs[i])
  }

  /** Every `Added` record names a key the store did not know before the
      merge. */
  predicate AddedAreNew(t: AllTranslations, cs: seq<ChangeRecord>) {
    forall i :: 0 <= i < |cs| && cs[i].status == Added ==> IsNewKey(t, cs[i].key)
  }

  /** A key recorded a second time is recorded as `Updated`. */
  predicate RepeatsAreUpdates(cs: seq<ChangeRecord>) {
    forall i, j :: 0 <= i < j < |cs| && cs[i].key == cs[j].key ==> cs[j].status == Updated
  }

  /** The last record of each key shows what the store holds for it. */
  predicate LastRecordsMirror(s: AllTranslations, cs: seq<ChangeRecord>) {
    forall i :: 0 <= i < |cs| && LastFor(cs, i) ==> Mirrors(s, cs[i])
  }

  /** The store after all rows, and the records in row order. */
  datatype Merged = Merged(store: AllTranslations, changes: seq<ChangeRecord>)

  /** What holds of the store and the records after any number of rows,
      relative to the store `t` the merge started from. */
  ghost predicate FoldInvariant(t: AllTranslations, m: Merged) {
    && StoreGrows(t, m.store)
    && AllValid(m.changes)
    && AddedAreNew(t, m.changes)
    && RepeatsAreUpdates(m.changes)
    && LastRecordsMirror(m.store, m.changes)
    && m.store.en.Keys == t.en.Keys + RecordKeys(m.changes)
    && StoreSameOutside(t, m.store, RecordKeys(m.changes))
  }

  /** One more row: the row is applied to the current store, and its record,
      if any, is appended. */
  function Advance(t: AllTranslations, prev: Merged, row: seq<string>, en: nat, roles: Roles): (r: Merged)
    requires FoldInvariant(t, prev)
    ensures FoldInvariant(t, r)
    ensures r.store == ApplyRow(prev.store, row, en, roles).store
    ensures r.changes == prev.changes + Emitted(ApplyRow(prev.store, row, en, roles).change)
  {
    var step := ApplyRow(prev.store, row, en, roles);
    match step.change
    case None => Merged(step.store, prev.changes)
    case Some(c) =>
      AppendKeepsInvariant(t, prev, step.store, c);
      Merged(step.store, prev.changes + [c])
  }

  /** The row loop: `ApplyRow` folded over the rows from first to last, each
      row seeing the writes of the rows before it. Nothing is deleted or
      blanked, the records are valid, `Added` only for keys new to the
      store, `Updated` for every repeat, the last record of each key mirrors
      the final store, and the store changes exactly at the recorded keys. */
  function MergeRows(t: AllTranslations, rows: seq<seq<string>>, en: nat, roles: Roles): (r: Merged)
    ensures |r.changes| <= |rows|
    ensures StoreGrows(t, r.store)
    ensures AllValid(r.changes)
    ensures AddedAreNew(t, r.changes)
    ensures RepeatsAreUpdates(r.changes)
    ensures LastRecordsMirror(r.store, r.changes)
    ensures r.store.en.Keys == t.en.Keys + RecordKeys(r.changes)
    ensures StoreSameOutside(t, r.store, RecordKeys(r.changes))
    decreases |rows|
  {
    if rows == [] then
      Merged(t, [])
    else
      Advance(t, MergeRows(t, rows[..|rows| - 1], en, roles), rows[|rows| - 1], en, roles)
  }

  /** The facts about one applied row that the fold relies on. */
  ghost predicate RowEffect(s: AllTranslations, s2: AllTranslations, c: ChangeRecord) {
    && StoreGrows(s, s2)
    && ValidRecord(c) && Mirrors(s2, c)
    && (c.status == Added <==> IsNewKey(s, c.key))
    && s2.en.Keys == s.en.Keys + {c.key}
    && StoreSameOutside(s, s2, {c.key})
  }

  /** Appending a row's record and moving to the store the row produced keeps
      the fold invariant. */
  lemma AppendKeepsInvariant(t: AllTranslations, prev: Merged, s2: AllTranslations, c: ChangeRecord)
    requires FoldInvariant(t, prev)
    requires RowEffect(prev.store, s2, c)
    ensures FoldInvariant(t, Merged(s2, prev.changes + [c]))
  {
    AppendKeepsStore(t, prev, s2, c);
    AppendKeepsRecords(t, prev, s2, c);
  }

  lemma AppendKeepsStore(t: AllTranslations, prev: Merged, s2: AllTranslations, c: ChangeRecord)
    requires StoreGrows(t, prev.store)
    requires AllValid(prev.changes)
    requires prev.store.en.Keys == t.en.Keys + RecordKeys(prev.changes)
    requires StoreSameOutside(t, prev.store, RecordKeys(prev.changes))
    requires RowEffect(prev.store, s2, c)
    ensures StoreGrows(t, s2)
    ensures AllValid(prev.changes + [c])
    ensures s2.en.Keys == t.en.Keys + RecordKeys(prev.changes + [c])
    ensures StoreSameOutside(t, s2, RecordKeys(prev.changes + [c]))
  {
    var cs := prev.changes + [c];
    assert cs[..|cs| - 1] == prev.changes;
    assert RecordKeys(cs) == RecordKeys(prev.changes) + {c.key};
    StepAllValid(prev.changes, c);
    GrowsTrans(t, prev.store, s2);
    SameOutsideTrans(t, prev.store, s2, RecordKeys(prev.changes), c.key);
  }

  lemma AppendKeepsRecords(t: AllTranslations, prev: Merged, s2: AllTranslations, c: ChangeRecord)
    requires StoreGrows(t, prev.store)
    requires AddedAreNew(t, prev.changes)
    requires RepeatsAreUpdates(prev.changes)
    requires LastRecordsMirror(prev.store, prev.changes)
    requires prev.store.en.Keys == t.en.Keys + RecordKeys(prev.changes)
    requires RowEffect(prev.store, s2, c)
    ensures AddedAreNew(t, prev.changes + [c])
    ensures RepeatsAreUpdates(prev.changes + [c])
    ensures LastRecordsMirror(s2, prev.changes + [c])
  {
    StepAddedAreNew(t, prev.store, prev.changes, c);
    StepRepeatsAreUpdates(t, prev.store, prev.changes, c);
    StepLastRecordsMirror(prev.store, s2, prev.changes, c);
  }

  lemma StepAllValid(cs: seq<ChangeRecord>, c: ChangeRecord)
    requires AllValid(cs) && ValidRecord(c)
    ensures AllValid(cs + [c])
  {
    var cs2 := cs + [c];
    forall i | 0 <= i < |cs2|
      ensures ValidRecord(cs2[i])
    {
      if i < |cs| {
        assert cs2[i] == cs[i];
      }
    }
  }

  lemma GrowsTrans(a: AllTranslations, b: AllTranslations, c: AllTranslations)
    requires StoreGrows(a, b) && StoreGrows(b, c)
    ensures StoreGrows(a, c)
  {
  }

  lemma SameOutsideTrans(a: AllTranslations, b: AllTranslations, c: AllTranslations, ks: set<string>, k: string)
    requires StoreSameOutside(a, b, ks) && StoreSameOutside(b, c, {k})
    ensures StoreSameOutside(a, c, ks + {k})
  {
  }

  lemma StepAddedAreNew(t: AllTranslations, s: AllTranslations, cs: seq<ChangeRecord>, c: ChangeRecord)
    requires AddedAreNew(t, cs)
    requires StoreGrows(t, s)
    requires c.status == Added ==> IsNewKey(s, c.key)
    ensures AddedAreNew(t, cs + [c])
  {
    var cs2 := cs + [c];
    forall i | 0 <= i < |cs2| && cs2[i].status == Added
      ensures IsNewKey(t, cs2[i].key)
    {
      if i < |cs| {
        assert cs2[i] == cs[i];
      }
    }
  }

  lemma StepRepeatsAreUpdates(t: AllTranslations, s: AllTranslations, cs: seq<ChangeRecord>, c: ChangeRecord)
    requires RepeatsAreUpdates(cs)
    requires s.en.Keys == t.en.Keys + RecordKeys(cs)
    requires c.status != Unchanged
    requires c.status == Added <==> IsNewKey(s, c.key)
    ensures RepeatsAreUpdates(cs + [c])
  {
    var cs2 := cs + [c];
    forall i, j | 0 <= i < j < |cs2| && cs2[i].key == cs2[j].key
      ensures cs2[j].status == Updated
    {
      if j == |cs| {
        assert cs[i].key in RecordKeys(cs);
        assert c.key in s.en;
      } else {
        assert cs2[i] == cs[i] && cs2[j] == cs[j];
      }
    }
  }

  lemma StepLastRecordsMirror(s: AllTranslations, s2: AllTranslations, cs: seq<ChangeRecord>, c: ChangeRecord)
    requires LastRecordsMirror(s, cs)
    requires Mirrors(s2, c)
    requires StoreSameOutside(s, s2, {c.key})
    ensures LastRecordsMirror(s2, cs + [c])
  {
    var cs2 := cs + [c];
    forall i | 0 <= i < |cs2| && LastFor(cs2, i)
      ensures Mirrors(s2, cs2[i])
    {
      if i < |cs| {
        assert cs2[i] == cs[i];
        assert forall j :: i < j < |cs| ==> cs2[j] == cs[j];
        assert LastFor(cs, i);
        assert cs2[|cs|] == c;
        assert cs[i].key != c.key;
      }
    }
  }

  /** A blank cell in an assigned translation column over a stored,
      non-empty translation: the row is reported as updated, but the stored
      translation stays. */
  predicate BlankOverStored(t: AllTranslations, key: string, roles: Roles, jpv: string, mv: string) {
    || (roles.jp.Some? && jpv == [] && Lookup(t.jp, key) != [])
    || (roles.malay.Some? && mv == [] && Lookup(t.malay, key) != [])
  }

  /** A blank cell in an assigned Japanese column under a key whose stored
      Japanese text is non-empty makes the row an update that leaves the
      stored Japanese text as it was. */
  lemma BlankCellReportsUpdate(t: AllTranslations, row: seq<string>, en: nat, roles: Roles)
    requires CellAt(row, en) != [] && TextToKey(CellAt(row, en)) != []
    requires !IsNewKey(t, TextToKey(CellAt(row, en)))
    requires roles.jp.Some? && RoleCell(row, roles.jp) == []
    requires Lookup(t.jp, TextToKey(CellAt(row, en))) != []
    ensures ApplyRow(t, row, en, roles).change.Some?
    ensures ApplyRow(t, row, en, roles).change.value.status == Updated
    ensures ApplyRow(t, row, en, roles).store.jp == t.jp
  {
    var eng := CellAt(row, en);
    var key := TextToKey(eng);
    var jpv := RoleCell(row, roles.jp);
    var mv := RoleCell(row, roles.malay);
    assert ApplyRow(t, row, en, roles) == Classify(t, key, eng, roles, jpv, mv);
    assert ColumnDiffers(true, jpv, Lookup(t.jp, key));
  }

  /** Re-applying a row to the store it produced emits a record exactly when
      an assigned translation cell of the row is blank while the store keeps
      a text for that language, and that record is an update. A merge is
      therefore not idempotent in what it reports: such a row is reported as
      updated on every run. */
  lemma ReapplyRowReports(t: AllTranslations, row: seq<string>, en: nat, roles: Roles)
    ensures var eng := CellAt(row, en);
      var again := ApplyRow(ApplyRow(t, row, en, roles).store, row, en, roles);
      again.change.Some? <==>
        eng != [] && TextToKey(eng) != []
        && BlankOverStored(t, TextToKey(eng), roles, RoleCell(row, roles.jp), RoleCell(row, roles.malay))
    ensures var again := ApplyRow(ApplyRow(t, row, en, roles).store, row, en, roles);
      again.change.Some? ==> again.change.value.status == Updated
  {
    var eng := CellAt(row, en);
    var first := ApplyRow(t, row, en, roles);
    var s := first.store;
    ApplyRowRecordsExactly(t, row, en, roles);
    ApplyRowRecordsExactly(s, row, en, roles);
    if eng != [] && TextToKey(eng) != [] {
      var key := TextToKey(eng);
      var jpv := RoleCell(row, roles.jp);
      var mv := RoleCell(row, roles.malay);
      if first.change.Some? {
        assert s == WriteRow(t, key, eng, roles, jpv, mv);
        MatchAfterWrite(t, key, eng, roles, jpv, mv);
      } else {
        NoBlankOverMatch(t, key, eng, roles, jpv, mv);
      }
    }
  }

  /** After a row's writes, the row matches the store unless one of its
      assigned translation cells is blank over a stored text. */
  lemma MatchAfterWrite(t: AllTranslations, key: string, eng: string, roles: Roles, jpv: string, mv: string)
    requires eng != [] && IsTrimmed(eng) && IsTrimmed(jpv) && IsTrimmed(mv)
    requires roles.jp.None? ==> jpv == []
    requires roles.malay.None? ==> mv == []
    ensures RowMatchesStore(WriteRow(t, key, eng, roles, jpv, mv), key, eng, roles, jpv, mv)
      <==> !BlankOverStored(t, key, roles, jpv, mv)
  {
    TrimFacts(eng);
    TrimFacts(jpv);
    TrimFacts(mv);
  }

  /** A row that matches the store is never blank over a stored text. */
  lemma NoBlankOverMatch(t: AllTranslations, key: string, eng: string, roles: Roles, jpv: string, mv: string)
    requires RowMatchesStore(t, key, eng, roles, jpv, mv)
    ensures !BlankOverStored(t, key, roles, jpv, mv)
  {
  }

  /** Applying a row a second time writes nothing: the store a row produces
      is a fixed point of that row. */
  lemma ReapplyRowKeepsStore(t: AllTranslations, row: seq<string>, en: nat, roles: Roles)
    ensures var s := ApplyRow(t, row, en, roles).store;
      ApplyRow(s, row, en, roles).store == s
  {
    var first := ApplyRow(t, row, en, roles);
    var s := first.store;
    var again := ApplyRow(s, row, en, roles);
    ApplyRowRecordsExactly(t, row, en, roles);
    ApplyRowRecordsExactly(s, row, en, roles);
    if first.change.Some? && again.change.Some? {
      var eng := CellAt(row, en);
      var key := TextToKey(eng);
      var jpv := RoleCell(row, roles.jp);
      var mv := RoleCell(row, roles.malay);
      assert s == WriteRow(t, key, eng, roles, jpv, mv);
      assert again.store == WriteRow(s, key, eng, roles, jpv, mv);
      RewriteIsNoOp(s, key, eng, roles, jpv, mv);
    }
  }

  /** Writing what the store already holds changes nothing. */
  lemma RewriteIsNoOp(s: AllTranslations, key: string, eng: string, roles: Roles, jpv: string, mv: string)
    requires eng != [] && key in s.en && s.en[key] == eng
    requires roles.jp.Some? && jpv != [] ==> key in s.jp && s.jp[key] == jpv
    requires roles.malay.Some? && mv != [] ==> key in s.malay && s.malay[key] == mv
    ensures WriteRow(s, key, eng, roles, jpv, mv) == s
  {
    var w := WriteRow(s, key, eng, roles, jpv, mv);
    assert w.en == s.en;
    assert w.jp == s.jp;
    assert w.malay == s.malay;
  }
}
