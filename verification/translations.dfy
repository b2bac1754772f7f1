/** The data the tool keeps and reports: the three-language translation store
    (`AllTranslations`, src/utils/storage.ts) and the change records of a merge
    (`ChangeRecord`, src/utils/types.ts). */
module Translations {
  import opened Wrappers

  /** One language file: translation key to text (`TranslationData`). */
  type Dict = map<string, string>

  /** `Language`: the three fixed slots of the store. */
  datatype Language = En | Jp | Malay

  /** `AllTranslations`: one dictionary per language. */
  datatype AllTranslations = AllTranslations(en: Dict, jp: Dict, malay: Dict) {

    /** `translations[lang]`. */
    function Get(lang: Language): Dict {
      match lang
      case En => en
      case Jp => jp
      case Malay => malay
    }

    /** `translations[lang] = d`, every other slot kept. */
    function With(lang: Language, d: Dict): (t: AllTranslations)
      ensures t.Get(lang) == d
      ensures forall other :: other != lang ==> t.Get(other) == Get(other)
    {
      match lang
      case En => this.(en := d)
      case Jp => this.(jp := d)
      case Malay => this.(malay := d)
    }
  }

  /** `{ en: {}, jp: {}, malay: {} }`, the store used when nothing is saved. */
  const EmptyTranslations := AllTranslations(map[], map[], map[])

  /** `d[key] || ''`: the stored text, or the empty string for a missing key. */
  function Lookup(d: Dict, key: string): string {
    if key in d then d[key] else ""
  }

  /** `ChangeStatus`. */
  datatype ChangeStatus = Added | Updated | Unchanged

  /** `ChangeRecord`: the key, the texts now on record for it, its status, and
      (optionally) the texts it had before. */
  datatype ChangeRecord = ChangeRecord(
    key: string,
    en: string,
    jp: string,
    malay: string,
    status: ChangeStatus,
    oldEn: Option<string>,
    oldJp: Option<string>,
    oldMalay: Option<string>)
}
