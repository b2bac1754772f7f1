# convert_json_i18n: glossary merge, storage and reports, in Dafny

convert_json_i18n is a browser tool for maintaining three translation
dictionaries: English, Japanese and Malay. Each maps a snake_case key to a
text. A user uploads a spreadsheet or pastes a table. Its header row names an
English column and up to two translation columns. Every data row becomes a
key, derived from its English text, and is merged into the saved store. The
merge reports what it added or updated and leaves an undo snapshot. A change
log lists the records, and a statistics card shows how many keys have both
translations. A build script turns a locale file into the sorted list of its
dotted key paths.

This project models that core with immutable datatypes and pure functions:

| module | models |
|---|---|
| `Text` | trimming, ASCII lower-casing, splitting on and joining with one character |
| `KeyDeriver` | `textToKey`: English text to a snake_case key |
| `PasteParser` | `parsePastedData`: pasted text to a grid of trimmed cells |
| `Columns` | `findEnglishColumn` and the Japanese/Malay column rules of `processDataArray` |
| `Translations` | `AllTranslations`, `ChangeStatus`, `ChangeRecord` |
| `Storage` | the two storage entries: the store and the undo snapshot |
| `Merge` | the row loop of `processDataArray`, threading one store through the rows |
| `MergeTrace` | what the row loop leaves, traced back to the rows: which row each record comes from, and which row's texts each key ends with |
| `Upload` | `processDataArray` as a whole, the upload handler and the paste handler |
| `ChangeLog` | the filter and sort of the change log, and its counts |
| `Statistics` | the coverage figures of the statistics card |
| `LexOrder` | the default order of `Array.prototype.sort` on strings, and an insertion sort |
| `FlattenKeys` | `flattenKeys` over a small JSON datatype |

Some members are plain definitions that the properties below are stated in
terms of: `Merge.CellAt` (a trimmed cell, empty past the end of the row),
`Upload.HeaderNames`, `FlattenKeys.FullKey`, the storage reads
`Storage.GetTranslations`, `Storage.GetLanguage`, `Storage.GetUndoSnapshot`
and `Storage.CanUndo`, and the key sets `Statistics.CompleteKeys` and
`Statistics.IncompleteKeys`.

Key modelling choices:
- The confirmation dialog of `findEnglishColumn` becomes a `confirmed: bool` input.
- Storage is a pair of slots. Each slot is absent, unreadable, or holds a store.
- The copy made before the row loop is shallow, so later rows compare against earlier rows' writes. `Merge.MergeRows` therefore threads one store through all rows.
- A failed ingest returns the untouched storage together with a `Failure`.

## Model

| member | source | states |
|---|---|---|
| KeyDeriver.TextToKey | src/components/UploadExcel.tsx:35-48 | The key uses only `a-z`, `0-9` and `_`. It has no leading, trailing or doubled `_`. It is the first 16 words of the lower-cased, trimmed, punctuation-free text joined by `_`, and splitting a non-empty key on `_` gives those words back. `KeyOfWords` shows that the first 16 words are kept, in order, and only those. |
| KeyDeriver.KeyWords | src/components/UploadExcel.tsx:36-42 | At most 16 words, each a non-empty run of key characters. There are none exactly when the cleaned text holds no word. They are the first words of the cleaned text, in order: all of them when there are at most 16, and the first 16 otherwise. |
| KeyDeriver.WordsOfWord | src/components/UploadExcel.tsx:40-41 | A non-empty text with no whitespace is one word, itself. |
| KeyDeriver.WordsOfSpace | src/components/UploadExcel.tsx:40-41 | A whitespace-only text holds no word. |
| KeyDeriver.WordsCons | src/components/UploadExcel.tsx:40-41 | Reading one more character in front: whitespace is skipped, a character before a non-space joins the first word, and any other character is a word of its own. |
| KeyDeriver.WordsSplitAt | src/components/UploadExcel.tsx:40-41 | The words of `a`, then a whitespace character, then `b` are the words of `a` followed by the words of `b`: no word spans whitespace, and order is kept. |
| KeyDeriver.WordsAppendAtSpace | src/components/UploadExcel.tsx:40-41 | Appending a text that starts with whitespace appends its words. |
| KeyDeriver.WordsOfJoin | src/components/UploadExcel.tsx:40-41 | Words written out with single spaces between them are split back into exactly those words, in order. |
| KeyDeriver.KeyTextUnchanged | src/components/UploadExcel.tsx:36-39 | Key words written with single spaces pass lower-casing, trimming and punctuation removal unchanged. |
| KeyDeriver.KeyWordsOfJoin | src/components/UploadExcel.tsx:36-42 | Key words written with single spaces come back as the key words of that text: all of them, in order, when there are at most 16, and the first 16 otherwise. |
| KeyDeriver.KeyOfWords | src/components/UploadExcel.tsx:35-48 | Key words written with single spaces give the key of the first 16 of them joined by `_`, or of all of them when there are at most 16. For example, `home title` gives `home_title`. |
| KeyDeriver.EmptyKeyIffNoKeyChar | src/components/UploadExcel.tsx:35-48 | The key is empty exactly when no character of the text, lower-cased, is a letter `a-z` or a digit. |
| KeyDeriver.JoinedWordsShape | src/components/UploadExcel.tsx:44-47 | Joining at most 16 key words with `_` gives a well-formed key that is empty only for no words. Splitting it on `_` returns the words, so the two underscore clean-ups never change it (`CleanupNoOp`). |
| KeyDeriver.CleanupNoOp | src/components/UploadExcel.tsx:46-47 | On a well-formed key, collapsing runs of `_` and then stripping `_` at both ends changes nothing. |
| KeyDeriver.StripAllSpace | src/components/UploadExcel.tsx:39-41 | After punctuation is deleted, the text is blank exactly when it held no key character. |
| Text.TrimFacts | src/components/UploadExcel.tsx:55-56 | A trimmed string is empty exactly when the original is all whitespace. Trimming an already trimmed string changes nothing. |
| Text.TrimIdempotent | src/components/UploadExcel.tsx:52-64 | Trimming twice gives the same result as trimming once. |
| Text.JoinSplit | src/components/UploadExcel.tsx:52 | Joining the pieces of a split on a separator, with that separator, rebuilds the text. |
| Text.SplitJoin | src/components/UploadExcel.tsx:61 | Splitting a join of separator-free pieces returns the pieces. |
| PasteParser.ParsePastedData | src/components/UploadExcel.tsx:51-78 | There is one row per non-blank line of the trimmed text, in order, and row `k` is the parse of the `k`-th such line. Every row has at least one cell, and every cell is trimmed. The grid is empty exactly when the text is all whitespace. |
| PasteParser.ParseRows | src/components/UploadExcel.tsx:53-77 | Blank lines vanish. Every kept row has a non-blank first cell and only trimmed cells. No row survives exactly when every line is blank. |
| PasteParser.ParseRowsNonBlank | src/components/UploadExcel.tsx:53-77 | There is one row per line that is not whitespace only, and row `k` is the parse of the `k`-th such line. |
| PasteParser.ParseRowsAppend | src/components/UploadExcel.tsx:53-77 | Lines are parsed independently: the rows of two blocks of lines, one after the other, are the rows of the blocks joined. |
| PasteParser.ParseRowsOne | src/components/UploadExcel.tsx:53-77 | A single line gives no row when blank and exactly its own parse otherwise. |
| PasteParser.ParseLine | src/components/UploadExcel.tsx:54-76 | A line yields no cells exactly when it is blank. Otherwise the cells are trimmed and the first is non-empty. |
| PasteParser.ParseLineTabs | src/components/UploadExcel.tsx:59-64 | A trimmed line with a tab gives one trimmed cell per tab-separated piece (`#tabs + 1` cells), empty cells kept. |
| PasteParser.ParseLineWide | src/components/UploadExcel.tsx:66-74 | A trimmed line without a tab gives its pieces between runs of two or more whitespace characters, or the whole line as one cell. Each piece is non-empty and trimmed, and the pieces with the gaps rebuild the line. |
| PasteParser.SplitGapsRebuilds | src/components/UploadExcel.tsx:68 | The pieces of the split on runs of 2+ whitespace, interleaved with the runs removed, give back the text. |
| PasteParser.SplitGapsSeparators | src/components/UploadExcel.tsx:68 | Every removed run is at least two whitespace characters long. No piece contains two whitespace characters in a row. |
| PasteParser.SplitGapsBoundaries | src/components/UploadExcel.tsx:68 | Each gap is maximal: no piece after the first starts with whitespace, no piece before the last ends with it, and inner pieces are non-empty. |
| PasteParser.TrimmedLinePieces | src/components/UploadExcel.tsx:68-71 | Splitting a non-empty trimmed line gives non-empty, already trimmed pieces, so the `trim` of each changes nothing. |
| PasteParser.DropCarriageReturns | src/components/UploadExcel.tsx:52 | Dropping the `\r` in front of each `\n` keeps the number of lines, and a line is blank exactly when its piece was blank. |
| PasteParser.DropCarriageReturnsAt | src/components/UploadExcel.tsx:52 | Every line but the last is its piece less one trailing `\r`, if it had one; the last is its piece unchanged. |
| PasteParser.SplitLines | src/components/UploadExcel.tsx:52 | The trimmed text gives one line more than it has newlines, and no line holds a newline. Every line but the last is the text before its newline, with at most one `\r` dropped from its end. |
| PasteParser.BlankPiecesBlankText | src/components/UploadExcel.tsx:52-56 | Every line of the trimmed text is blank exactly when the whole text is whitespace. |
| Columns.FirstWhere | src/components/UploadExcel.tsx:301-303 | The index found passes the test, no earlier element passes, and nothing is found exactly when no element passes. |
| Columns.FindEnglishColumn | src/components/UploadExcel.tsx:299-341 | The first header equal to `english`, once lower-cased and trimmed, is chosen. Without one, column 0 is chosen if the user confirms, and the call rejects if not. It rejects in no other case. |
| Columns.Detect | src/components/UploadExcel.tsx:115-122 | A set Japanese (Malay) column is not English, its header claims that language, and no later non-English header claims it. The column is unset only when no non-English header claims the language. A header matching both languages counts as Japanese. |
| Columns.Others | src/components/UploadExcel.tsx:107-109 | The column indices other than the English one, ascending, each exactly once. |
| Columns.FirstOtherThan | src/components/UploadExcel.tsx:137-143 | A found column is in the list and differs from the excluded one. None is found exactly when every listed column is the excluded one. |
| Columns.ResolveRoles | src/components/UploadExcel.tsx:107-144 | Neither translation column is the English column or out of range. The two differ when both are set. A column found from its header is kept. Which column each fallback picks is stated by `FallbackOrder`. |
| Columns.FallbackOrder | src/components/UploadExcel.tsx:123-144 | With three columns and no language header, Japanese is the lower non-English column and Malay the higher one. With two, Japanese is the other column and Malay stays unset. With three columns and one language found from its header, the other language takes the lower non-English column that is free. With any other number of columns the headers alone decide. |
| Columns.ThreeColumnsBothAssigned | src/components/UploadExcel.tsx:125-144 | With three columns both translation columns are set. |
| Columns.TwoColumnsOneAssigned | src/components/UploadExcel.tsx:125-135 | With two columns exactly one translation column is set, namely the non-English one. It is Malay exactly when that header claims Malay and not Japanese, so a lone `malay`/`ms` header leaves Japanese unset. |
| Merge.WriteRow | src/components/UploadExcel.tsx:226-237 | The English text is always written under the key. A translation is written only from a non-empty cell of a set column. No key is removed, no value is blanked, and nothing outside the key changes. |
| Merge.Classify | src/components/UploadExcel.tsx:192-270 | A row is skipped exactly when its key is known and none of the seven change flags holds; then the store is untouched. Otherwise the store is written, and the record is `added` exactly when the key was in none of the three maps. It carries old texts exactly when `updated`, and those are the key's three texts before the row (empty when missing). The record shows what the store now holds. |
| Merge.Record | src/components/UploadExcel.tsx:239-268 | The record has the row's key and English text and is never `unchanged`. It holds old texts exactly when it is an update, and they are the key's English, Japanese and Malay texts before the row, empty when missing. Its texts are what the store holds after the row's writes. |
| Merge.DiffersIffMismatch | src/components/UploadExcel.tsx:196-224 | For a known key, the seven flags together hold exactly when the row fails to match the store: the trimmed English text differs, or a set translation column disagrees (a value added, changed or blanked). |
| Merge.DiffersAsDisagreement | src/components/UploadExcel.tsx:197-208 | The flags read column by column: the English text differs once trimmed, or some set translation column disagrees with the stored text. |
| Merge.ApplyRow | src/components/UploadExcel.tsx:150-272 | One row never removes a key or blanks a value. A record is valid, is `added` exactly for a key new to the store, and shows what the store holds. Only that key changes, and a translation map changes only from a non-empty cell. |
| Merge.ApplyRowRecordsExactly | src/components/UploadExcel.tsx:150-226 | A row emits nothing exactly when its English cell is blank, its text yields no key, or it matches the store. A record carries the key of its English text. |
| Merge.MergeRows | src/components/UploadExcel.tsx:103-272 | Over all rows: at most one record per row, and the store only grows. Records are valid; `added` only for keys new before the merge, and every repeat of a key is `updated`. The last record of each key shows the final store. The English keys are the old ones plus the recorded ones, and nothing else changes. |
| Merge.Advance | src/components/UploadExcel.tsx:150-272 | One more row is applied to the store the rows before it left, and the store becomes what that row's writes give. The record list grows by that row's record and nothing else, and every fact listed for `MergeRows` is kept. |
| Merge.BlankCellReportsUpdate | src/components/UploadExcel.tsx:207-252 | A blank cell in a set Japanese column over a stored Japanese text makes the row an `updated` record, yet the stored Japanese text stays as it was. |
| Merge.ReapplyRowReports | src/components/UploadExcel.tsx:196-237 | Applying a row again to the store it produced emits a record exactly when a set translation cell is blank over a stored text, and such a record is `updated`. |
| Merge.ReapplyRowKeepsStore | src/components/UploadExcel.tsx:226-237 | Applying a row again writes nothing new: the store a row produces is a fixed point of that row. |
| Merge.MatchAfterWrite | src/components/UploadExcel.tsx:196-237 | After a row's writes, the row matches the store exactly when no set translation cell of it is blank over a stored text. |
| MergeTrace.ApplyRowAtKey | src/components/UploadExcel.tsx:150-237 | A row filed under key `k` leaves its English text under `k`, and its Japanese and Malay cells when not blank; a blank cell leaves the stored text. Texts agree up to surrounding whitespace. A row under any other key leaves the texts of `k` alone. |
| MergeTrace.LastRowWins | src/components/UploadExcel.tsx:150-272 | After all rows, each key's English text is that of the last row filed under it. Its Japanese (Malay) text is the cell of the last such row whose Japanese (Malay) cell is not blank. A key no row supplies keeps the text the store held. Texts agree up to surrounding whitespace. |
| MergeTrace.LastRowWinsRun | src/components/UploadExcel.tsx:150-272 | The last-row-wins statement of `LastRowWins`, proved over the fold of one row step. |
| MergeTrace.RowKeysKept | src/components/UploadExcel.tsx:150-237 | Every key some row is filed under is an English key of the store afterwards. |
| MergeTrace.LastEnglishWins | src/components/UploadExcel.tsx:150-237 | The last row filed under a key decides its English text, up to surrounding whitespace. |
| MergeTrace.LastSomeAt | src/components/UploadExcel.tsx:150-272 | The reference for the last row wins: the value of the last element that has one. |
| MergeTrace.LastSomeNone | src/components/UploadExcel.tsx:150-272 | The reference finds nothing exactly when no element has a value. |
| MergeTrace.RecordRows | src/components/UploadExcel.tsx:150-270 | One row index per record, strictly increasing and in range. Record `m` carries the key and English text of its row. |
| MergeTrace.RecordsTraceToRows | src/components/UploadExcel.tsx:150-270 | The records of the row loop map to strictly increasing rows, and each record carries the key and English text of its row. |
| MergeTrace.RecordRowsExactly | src/components/UploadExcel.tsx:150-270 | A row is among those indices exactly when applying it to the store the rows before it left makes a record. |
| MergeTrace.MergeRowsIsRun | src/components/UploadExcel.tsx:150-272 | The row loop is a fold of one row step, store and records alike. |
| MergeTrace.RunOuts | src/components/UploadExcel.tsx:150-270 | The records a fold collects are its steps' records, in order, the empty steps left out. |
| Upload.ProcessDataArray | src/components/UploadExcel.tsx:85-281 | An empty grid or a header width outside 2..3 fails, and storage is untouched. Otherwise the merged store is saved even with no changes. If a store was saved before, the snapshot becomes that store; if not, the old snapshot stays. |
| Upload.IngestIsUndoable | src/components/UploadExcel.tsx:274-281 | After a successful ingest over a saved store, undo is offered. It restores exactly the store from before the ingest, and the new store grew from it. |
| Upload.HandleUpload | src/components/UploadExcel.tsx:372-385 | An empty sheet fails and a declined prompt cancels; both leave storage untouched. Otherwise the grid is processed with the chosen English column. |
| Upload.PositionsFrom | src/components/UploadExcel.tsx:429-431 | The positions of the non-blank headers, ascending, every one of them included. |
| Upload.NonBlank | src/components/UploadExcel.tsx:429-431 | The headers `.filter((h) => h)` keeps, in order. The list is empty exactly when every header is blank. |
| Upload.PasteHeaderNonBlank | src/components/UploadExcel.tsx:429-439 | A parsed paste's header row always keeps a header after the filter, so the no-header failure cannot occur. |
| Upload.PasteColumn | src/components/UploadExcel.tsx:429-442 | As written, the English column is an index into the filtered headers. It is in range for them, not necessarily for the row `processDataArray` reads. |
| Upload.PasteIndexMismatch | src/components/UploadExcel.tsx:429-445 | For the header row `ja`, blank, `English`, the paste handler processes column 1, the blank one, as English. |
| Upload.PasteMissesEnglish | src/components/UploadExcel.tsx:429-445 | In that example the processed column's header is not English, while column 2's is. |
| Upload.HandlePaste | src/components/UploadExcel.tsx:404-445 | Whitespace-only text is refused and storage is untouched. Otherwise the parsed grid is non-empty and is ingested with the column picked from the filtered headers. |
| Upload.PasteColumnFixed | src/components/UploadExcel.tsx:429-442 | The corrected column: the header picked among the non-blank ones, located in the full row. It equals `findEnglishColumn` on the full header row. |
| Upload.FixedColumnAgrees | src/components/UploadExcel.tsx:429-442 | Finding the English header among the non-blank headers and mapping it back gives the same result as finding it in the full row. |
| Upload.FirstWhereKept | src/components/UploadExcel.tsx:429-442 | For a test no blank header passes, the first match among the kept headers, mapped back, is the first match in the full row. |
| Upload.HandlePasteFixed | src/components/UploadExcel.tsx:404-445 | The corrected paste handler: as `HandlePaste`, but with the corrected column. |
| Upload.FixedPasteMatchesUpload | src/components/UploadExcel.tsx:372-445 | With the correction, pasting text ingests the parsed grid exactly as uploading that grid would. |
| Upload.BlankEnglishColumnChangesNothing | src/components/UploadExcel.tsx:154-155 | Rows whose English cells are all blank leave the store as it was and report nothing. |
| Storage.SaveTranslations | src/utils/storage.ts:29-31 | The store reads back as exactly what was saved, and the undo entry is untouched. |
| Storage.SaveLanguage | src/utils/storage.ts:34-38 | The language reads back as given. The other two keep what a read gave, or are empty when nothing readable was stored. The undo entry is untouched. |
| Storage.HasInitialData | src/utils/storage.ts:47-55 | True exactly when a readable store has a non-empty dictionary in some language. |
| Storage.GetLanguageAfterSave | src/utils/storage.ts:34-44 | After `saveLanguage`, `getLanguage` gives the saved dictionary for that language, and for each other language what it gave before. |
| Storage.GetLanguageAfterWrite | src/utils/storage.ts:29-60 | After `saveTranslations` each language reads as saved; after `clearTranslations` each reads as empty. |
| Storage.StoreWritesKeepUndo | src/utils/storage.ts:29-89 | Saving, saving a language and clearing the store leave the undo snapshot and `canUndo` as they were. |
| Storage.UndoWritesKeepStore | src/utils/storage.ts:18-84 | Saving and clearing the snapshot leave what `getTranslations` and `getLanguage` read. A second snapshot replaces the first. |
| Storage.ClearTranslations | src/utils/storage.ts:58-60 | Afterwards nothing reads back and there is no initial data; the snapshot is untouched. |
| Storage.SaveUndoSnapshot | src/utils/storage.ts:66-68 | The snapshot reads back as saved, so undo is offered. The store entry is untouched, and only the latest snapshot survives. |
| Storage.ClearUndoSnapshot | src/utils/storage.ts:82-84 | Afterwards no snapshot reads back and undo is not offered; the store entry is untouched. |
| ChangeLog.ShownIsUpdatedThenAdded | src/components/LogTable.tsx:13-20 | The list shown is the `updated` records in input order, followed by the `added` records in input order. |
| ChangeLog.ShownOrder | src/components/LogTable.tsx:13-20 | No record shown is `unchanged`, every `updated` record precedes every `added` one, and the list draws only on the input records. |
| ChangeLog.ShownPermutesVisible | src/components/LogTable.tsx:13-20 | The list shown is a permutation of the input records that are not `unchanged`. |
| ChangeLog.ShownIdempotent | src/components/LogTable.tsx:13-20 | Filtering and sorting the shown list again leaves it unchanged. |
| ChangeLog.SortGroups | src/components/LogTable.tsx:15-20 | The stable sort with this comparator puts the `updated` records first and the `added` ones after, each group in input order. |
| ChangeLog.SortPermutes | src/components/LogTable.tsx:15-20 | The sort is a permutation of its input. |
| ChangeLog.VisibleWithStatus | src/components/LogTable.tsx:14 | Dropping `unchanged` records keeps the `added` and `updated` ones, in order. |
| ChangeLog.CountShown | src/components/LogTable.tsx:68-69 | The added and updated counts are the numbers of such records, and they add up to the length of the list shown. |
| Statistics.SplitKeys | src/components/StatisticsCard.tsx:26-34 | The complete and incomplete keys together are exactly the English keys. |
| Statistics.Card | src/components/StatisticsCard.tsx:17-34 | Nothing is shown without a saved store. Otherwise the total counts the English keys only, the complete and incomplete counts add up to it, and the percentage is `Percent(complete, total)`, so at most 100. |
| Statistics.Percent | src/components/StatisticsCard.tsx:74 | The percentage is 0 without keys or without complete keys, 100 when all are complete, and otherwise the nearest integer to the exact ratio, halves rounded up, between 0 and 100. |
| Statistics.RoundDiv | src/components/StatisticsCard.tsx:74 | The result is the nearest integer to the ratio, halves rounded up. |
| Statistics.AllCompleteShowsFull | src/components/StatisticsCard.tsx:26-74 | The complete count equals the total exactly when every English key is complete. With keys, the card then shows 100%; with no keys it shows 0%. |
| FlattenKeys.Flatten | scripts/generate-translation-types.cjs:33-51 | The output is sorted. |
| FlattenKeys.FlattenPermutesLeaves | scripts/generate-translation-types.cjs:36-50 | The output holds each leaf path as often as it occurs, and nothing else. The sorting at inner levels only reorders. |
| FlattenKeys.FlattenIsSortedLeaves | scripts/generate-translation-types.cjs:33-51 | The output is exactly the sorted list of leaf paths. A leaf is any value other than an object, so `null` and arrays are leaves, and an empty object contributes nothing. |
| FlattenKeys.FlattenIgnoresFieldOrder | scripts/generate-translation-types.cjs:36-50 | Objects whose leaf paths agree as multisets flatten alike, so property order does not matter. |
| FlattenKeys.LeavesUnderPrefix | scripts/generate-translation-types.cjs:38-42 | Under a non-empty prefix, every path starts with the prefix and a dot. |
| FlattenKeys.LeafFieldListed | scripts/generate-translation-types.cjs:40-46 | A field holding anything but an object, including `null` and arrays, contributes its own path to the output. |
| LexOrder.Sort | scripts/generate-translation-types.cjs:50 | The result has the input's length and is sorted. |
| LexOrder.SortPermutes | scripts/generate-translation-types.cjs:50 | The sort is a permutation of its input. |
| LexOrder.SortedUnique | scripts/generate-translation-types.cjs:50 | Two sorted lists with the same strings are equal, so any correct sort gives the same output. |
| LexOrder.SortSameStrings | scripts/generate-translation-types.cjs:50 | Inputs holding the same strings sort to the same output. |
| LexOrder.LessEqTotal | scripts/generate-translation-types.cjs:50 | Any two strings are ordered one way or the other. |
| LexOrder.LessEqAntisym | scripts/generate-translation-types.cjs:50 | Strings ordered both ways are equal. |
| LexOrder.LessEqTrans | scripts/generate-translation-types.cjs:50 | The order is transitive. |

Merging the same data twice still reports `updated` for a row whose
assigned translation cell is blank over a stored text
(`Merge.ReapplyRowReports`, `Merge.BlankCellReportsUpdate`). Such a cell
counts as "removed", so the row is reported on every run, although the blank
cell is never written.

## Left out

- Spreadsheet decoding (`XLSX.read`, `sheet_to_json`) and the file picker: cells are given as already decoded strings.
- Coercion of numbers, `null` and `undefined` cells by `String(h || '')`: a cell is a string, and an absent cell reads as empty.
- Non-ASCII case mapping: `Text.Lower` lower-cases `A`-`Z` only. `toLowerCase` maps more characters, and this can matter for `IsEnglishHeader` and the header rules.
- KeyDeriver.TextToKey: lower-cases `A`-`Z` only, then drops every character other than `a`-`z`, `0`-`9` and whitespace. Characters that `toLowerCase` turns into key characters are therefore lost. U+212A KELVIN SIGN lower-cases to `k`, and U+0130 to `i` followed by a combining dot. The source keeps that `k` and `i` in the key, and the model strips them.
- Whitespace is a fixed set of characters: the ASCII controls `\t`..`\r`, space, and the Unicode spaces JavaScript's `\s` and `trim` accept. Characters outside the Basic Multilingual Plane are single `char`s here, not surrogate pairs.
- The confirmation dialog, `message`, `setStatus`, `console.log`, the busy flag, clearing the input and the textarea, and `onChangesDetected`. The dialog's answer is the `confirmed` input, and the records are the result.
- localStorage and JSON: an entry is a `Storage.Slot`, and serialising then parsing a store is the identity. An entry that does not parse, or parses to `null`, is `Unreadable`.
- Keys that collide with JavaScript object prototype members: the model's maps have no prototype, so a missing key reads as absent. `constructor` is the only such key `textToKey` can produce, because it lower-cases and deletes `_` (src/components/UploadExcel.tsx:37-39). When it is not yet stored, `currentTranslations.en[key] || ''` (src/components/UploadExcel.tsx:192) yields the `Object` function, and `oldEn.trim()` (src/components/UploadExcel.tsx:197) throws a `TypeError`. The source's ingest then stops before anything is saved, while the model adds the key like any other.
- The rejection that says "no header": `Upload.PasteHeaderNonBlank` shows it cannot occur after parsing, so `Upload.Failure.NoHeaders` is never produced.
- Statistics.Percent: rounds the exact rational `complete * 100 / total` to the nearest integer, halves up. The source rounds the floating-point value `(complete / total) * 100`, which is inexact. For 29 of 200 keys the float is 14.499999999999998 and rounds to 14, while the model gives 15. Only the bounds and the exact end points are claimed.
- The polling of the statistics card (`setInterval`, every 500 ms): the card is a function of the store.
- LexOrder.LessEq: compares `char`s, whereas `Array.prototype.sort` compares UTF-16 code units. The two orders differ only for characters outside the Basic Multilingual Plane.
- FlattenKeys.Flatten: takes an object only, and scalars are not told apart. The `for..in` enumeration order is a field order; it does not matter after the final sort (`FlattenIgnoresFieldOrder`). Prototype-inherited properties are not modelled.
- The type generation around `flattenKeys` (`generateTypes`, `watchMode`, file I/O), the JSON upload and download components, and the application shell: these are I/O glue over `saveLanguage` and `getLanguage`.
- src/utils/types.ts and the storage types are mirrored as `Translations.ChangeRecord` and `Translations.AllTranslations`. They declare no behaviour to prove.

## Findings

| source | as written | input that shows it | evidently intended | confidence | as-written member | corrected member |
|---|---|---|---|---|---|---|
| src/components/UploadExcel.tsx:429-445 | The paste handler drops blank headers before looking up the English column. It then passes that index to `processDataArray`, which indexes the full row. | A pasted header row `ja`, blank, `English` (tab-separated). The English column becomes 1, whose header is blank. `ja` makes column 0 the Japanese column, and the three-column fallback then makes column 2, `English`, the Malay column. Every row's English text is read from column 1, so a row with a blank second cell is skipped. | The English column is the position, in the full header row, of the header the lookup chose. This is what the spreadsheet upload does. | not executed | Upload.PasteColumn, Upload.PasteIndexMismatch, Upload.PasteMissesEnglish | Upload.PasteColumnFixed, Upload.FixedColumnAgrees, Upload.HandlePasteFixed, Upload.FixedPasteMatchesUpload |
