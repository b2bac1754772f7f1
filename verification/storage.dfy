/** The browser-storage layer (src/utils/storage.ts): two storage entries, the
    translation store and the undo snapshot, each either missing, holding
    something that does not parse, or holding a saved store. Reading and
    writing are pure functions from one storage state to the next. */
module Storage {
  import opened Wrappers
  import opened Translations

  /** The contents of one storage entry. `Unreadable` stands for an entry
      whose text is empty, is not JSON, or parses to `null`: every read of it
      gives `null`. */
  datatype Slot = Absent | Unreadable | Holds(t: AllTranslations)

  /** The two entries the tool uses: `i18n_translations` and
      `i18n_translations_undo`. */
  datatype Store = Store(main: Slot, undo: Slot)

  /** The parsed contents of an entry, `None` for `null`. */
  function ReadSlot(slot: Slot): (r: Option<AllTranslations>)
    ensures r.Some? <==> slot.Holds?
    ensures slot.Holds? ==> r.value == slot.t
  {
    match slot
    case Holds(t) => Some(t)
    case _ => None
  }

  /** `getTranslations`. */
  function GetTranslations(s: Store): (r: Option<AllTranslations>)
    ensures r.Some? <==> s.main.Holds?
    ensures s.main.Holds? ==> r.value == s.main.t
  {
    ReadSlot(s.main)
  }

  /** `saveTranslations`: the store reads back as exactly what was saved and
      the undo entry is untouched. */
  function SaveTranslations(s: Store, t: AllTranslations): (r: Store)
    ensures GetTranslations(r) == Some(t)
    ensures r.undo == s.undo
  {
    s.(main := Holds(t))
  }

  /** `saveLanguage`: one language is replaced; the other two keep what a read
      gave before, or are empty when nothing readable was stored. */
  function SaveLanguage(s: Store, lang: Language, d: Dict): (r: Store)
    ensures GetTranslations(r).Some?
    ensures GetTranslations(r).value.Get(lang) == d
    ensures forall other :: other != lang ==>
      GetTranslations(r).value.Get(other)
        == (if s.main.Holds? then s.main.t.Get(other) else map[])
    ensures d != map[] ==> HasInitialData(r)
    ensures r.undo == s.undo
  {
    var current := GetTranslations(s).GetOr(EmptyTranslations);
    SaveTranslations(s, current.With(lang, d))
  }

  /** `getLanguage`: the saved dictionary of `lang`, empty when nothing
      readable is stored. */
  function GetLanguage(s: Store, lang: Language): (d: Dict)
    ensures s.main.Holds? ==> d == s.main.t.Get(lang)
    ensures !s.main.Holds? ==> d == map[]
  {
    match GetTranslations(s)
    case Some(t) => t.Get(lang)
    case None => map[]
  }

  /** `hasInitialData`: a readable store with at least one key in some
      language. */
  function HasInitialData(s: Store): (b: bool)
    ensures b <==> exists lang :: GetLanguage(s, lang) != map[]
  {
    match GetTranslations(s)
    case None => false
    case Some(t) =>
      assert GetLanguage(s, En) == t.en && GetLanguage(s, Jp) == t.jp;
      assert GetLanguage(s, Malay) == t.malay;
      NoKeysEmpty(t.en);
      NoKeysEmpty(t.jp);
      NoKeysEmpty(t.malay);
      |t.en.Keys| > 0 || |t.jp.Keys| > 0 || |t.malay.Keys| > 0
  }

  /** `clearTranslations`: nothing is stored any more; the undo entry stays. */
  function ClearTranslations(s: Store): (r: Store)
    ensures GetTranslations(r) == None
    ensures !HasInitialData(r)
    ensures r.undo == s.undo
  {
    s.(main := Absent)
  }

  /** `saveUndoSnapshot`: the snapshot reads back as saved and the store is
      untouched. */
  function SaveUndoSnapshot(s: Store, t: AllTranslations): (r: Store)
    ensures GetUndoSnapshot(r) == Some(t)
    ensures CanUndo(r)
    ensures r.main == s.main
  {
    s.(undo := Holds(t))
  }

  /** `getUndoSnapshot`. */
  function GetUndoSnapshot(s: Store): (r: Option<AllTranslations>)
    ensures r.Some? <==> s.undo.Holds?
    ensures s.undo.Holds? ==> r.value == s.undo.t
  {
    ReadSlot(s.undo)
  }

  /** `clearUndoSnapshot`. */
  function ClearUndoSnapshot(s: Store): (r: Store)
    ensures GetUndoSnapshot(r) == None
    ensures !CanUndo(r)
    ensures r.main == s.main
  {
    s.(undo := Absent)
  }

  /** `canUndo`: a readable snapshot exists. */
  function CanUndo(s: Store): (b: bool)
    ensures b <==> s.undo.Holds?
  {
    GetUndoSnapshot(s) != None
  }

  /** `getLanguage` after `saveLanguage`: the saved language reads back as
      given, and every other language reads as it did before the save. */
  lemma GetLanguageAfterSave(s: Store, lang: Language, d: Dict, other: Language)
    ensures GetLanguage(SaveLanguage(s, lang, d), lang) == d
    ensures other != lang ==> GetLanguage(SaveLanguage(s, lang, d), other) == GetLanguage(s, other)
  {
  }

  /** Reads after whole-store writes: after `saveTranslations` each language
      reads as saved, and after `clearTranslations` each reads as empty. */
  lemma GetLanguageAfterWrite(s: Store, t: AllTranslations, lang: Language)
    ensures GetLanguage(SaveTranslations(s, t), lang) == t.Get(lang)
    ensures GetLanguage(ClearTranslations(s), lang) == map[]
  {
  }

  /** Writing the store leaves the undo snapshot, and whether undo is
      offered, as they were. */
  lemma StoreWritesKeepUndo(s: Store, t: AllTranslations, lang: Language, d: Dict)
    ensures GetUndoSnapshot(SaveTranslations(s, t)) == GetUndoSnapshot(s)
    ensures GetUndoSnapshot(SaveLanguage(s, lang, d)) == GetUndoSnapshot(s)
    ensures GetUndoSnapshot(ClearTranslations(s)) == GetUndoSnapshot(s)
    ensures CanUndo(SaveTranslations(s, t)) == CanUndo(s)
    ensures CanUndo(SaveLanguage(s, lang, d)) == CanUndo(s)
    ensures CanUndo(ClearTranslations(s)) == CanUndo(s)
  {
  }

  /** Writing the undo snapshot leaves what the store reads as, in whole and
      per language; only the latest snapshot reads back. */
  lemma UndoWritesKeepStore(s: Store, t: AllTranslations, t2: AllTranslations, lang: Language)
    ensures GetTranslations(SaveUndoSnapshot(s, t)) == GetTranslations(s)
    ensures GetTranslations(ClearUndoSnapshot(s)) == GetTranslations(s)
    ensures GetLanguage(SaveUndoSnapshot(s, t), lang) == GetLanguage(s, lang)
    ensures GetLanguage(ClearUndoSnapshot(s), lang) == GetLanguage(s, lang)
    ensures GetUndoSnapshot(SaveUndoSnapshot(SaveUndoSnapshot(s, t), t2)) == Some(t2)
  {
  }

  /** `Object.keys(d).length > 0` exactly when `d` is not the empty object. */
  lemma NoKeysEmpty(d: Dict)
    ensures |d.Keys| > 0 <==> d != map[]
  {
    if |d.Keys| == 0 {
      assert d.Keys == {};
    } else {
      var k :| k in d.Keys;
    }
  }
}
