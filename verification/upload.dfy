/** The ingest entry points of src/components/UploadExcel.tsx: the shared
    `processDataArray` (checks, column roles, row loop, snapshot and save) and
    the two handlers that feed it, one for a decoded spreadsheet and one for
    pasted text. */
module Upload {
  import opened Wrappers
  import opened Text
  import opened Translations
  import opened Storage
  import opened PasteParser
  import opened Columns
  import opened Merge

  /** Why an ingest stops without saving. */
  datatype Failure =
    | EmptyData                    // no rows at all
    | WrongColumnCount(n: nat)     // a header row narrower than 2 or wider than 3
    | Cancelled                    // the user declined to use column 0 as English
    | NothingPasted                // the paste box holds only whitespace
    | NoHeaders                    // the pasted header row has no non-blank cell

  /** The storage after an ingest, and its change records or failure. */
  datatype Outcome = Outcome(store: Store, result: Result<seq<ChangeRecord>, Failure>)

  /** `row.map((h) => String(h || '').trim())`. */
  function HeaderNames(row: seq<string>): (hs: seq<string>)
    ensures |hs| == |row|
    ensures forall j :: 0 <= j < |row| ==> hs[j] == Trim(row[j])
  {
    TrimAll(row)
  }

  /** The store an ingest starts from: what is saved, or three empty maps. */
  function CurrentStore(s: Store): AllTranslations {
    GetTranslations(s).GetOr(EmptyTranslations)
  }

  /** The merge `processDataArray` performs on a grid whose header row has an
      accepted width. */
  function MergeGrid(grid: seq<seq<string>>, en: nat, s: Store): Merged
    requires grid != []
  {
    MergeRows(CurrentStore(s), grid[1..], en, ResolveRoles(HeaderNames(grid[0]), en))
  }

  /** `processDataArray`. An empty grid or a header row whose width is not 2
      or 3 fails before storage is read or written. Otherwise the merged
      store is saved, even when nothing changed, and the undo snapshot is
      replaced by the store as it was before the call when one was saved;
      when none was, the old snapshot stays. */
  function ProcessDataArray(grid: seq<seq<string>>, en: nat, s: Store): (o: Outcome)
    ensures grid == [] ==> o == Outcome(s, Err(EmptyData))
    ensures grid != [] && !(2 <= |grid[0]| <= 3) ==> o == Outcome(s, Err(WrongColumnCount(|grid[0]|)))
    ensures o.result.Ok? <==> grid != [] && 2 <= |grid[0]| <= 3
    ensures o.result.Ok? ==>
      && GetTranslations(o.store) == Some(MergeGrid(grid, en, s).store)
      && o.result.value == MergeGrid(grid, en, s).changes
      && GetUndoSnapshot(o.store) == (if s.main.Holds? then Some(s.main.t) else GetUndoSnapshot(s))
  {
    if grid == [] then Outcome(s, Err(EmptyData))
    else
      var headers := HeaderNames(grid[0]);
      if |headers| < 2 || |headers| > 3 then Outcome(s, Err(WrongColumnCount(|headers|)))
      else
        var merged := MergeGrid(grid, en, s);
        var snapshot := GetTranslations(s);
        var s1 := if snapshot.Some? then SaveUndoSnapshot(s, snapshot.value) else s;
        Outcome(SaveTranslations(s1, merged.store), Ok(merged.changes))
  }

  /** After a successful ingest over a saved store, undo offers exactly the
      store as it was before, and the saved store only grew. */
  lemma IngestIsUndoable(grid: seq<seq<string>>, en: nat, s: Store)
    requires s.main.Holds?
    requires grid != [] && 2 <= |grid[0]| <= 3
    ensures var o := ProcessDataArray(grid, en, s);
      && CanUndo(o.store)
      && GetUndoSnapshot(o.store) == GetTranslations(s)
      && StoreGrows(GetUndoSnapshot(o.store).value, GetTranslations(o.store).value)
  {
  }

  /** `handleExcelUpload` once the sheet is decoded: an empty sheet fails,
      then the English column is found (or the user is asked), then the grid
      is processed. */
  function HandleUpload(grid: seq<seq<string>>, confirmed: bool, s: Store): (o: Outcome)
    ensures grid == [] ==> o == Outcome(s, Err(EmptyData))
    ensures o.result.Err? ==> o.store == s
    ensures grid != [] && FindEnglishColumn(HeaderNames(grid[0]), confirmed).Err? ==>
      o == Outcome(s, Err(Cancelled))
    ensures grid != [] && FindEnglishColumn(HeaderNames(grid[0]), confirmed).Ok? ==>
      o == ProcessDataArray(grid, FindEnglishColumn(HeaderNames(grid[0]), confirmed).value, s)
  {
    if grid == [] then Outcome(s, Err(EmptyData))
    else
      match FindEnglishColumn(HeaderNames(grid[0]), confirmed)
      case Err(_) => Outcome(s, Err(Cancelled))
      case Ok(en) => ProcessDataArray(grid, en, s)
  }

  /** The positions `j >= i` of the non-blank headers, in increasing order,
      every non-blank one included. */
  function PositionsFrom(hs: seq<string>, i: nat): (ps: seq<nat>)
    requires i <= |hs|
    ensures forall k :: 0 <= k < |ps| ==> i <= ps[k] < |hs| && hs[ps[k]] != []
    ensures forall k, l :: 0 <= k < l < |ps| ==> ps[k] < ps[l]
    ensures forall j :: i <= j < |hs| && hs[j] != [] ==> j in ps
    decreases |hs| - i
  {
    if i == |hs| then []
    else
      var rest := PositionsFrom(hs, i + 1);
      if hs[i] != [] then [i] + rest else rest
  }

  /** The positions of the headers `.filter((h) => h)` keeps. */
  function NonBlankPositions(hs: seq<string>): seq<nat> {
    PositionsFrom(hs, 0)
  }

  /** `.filter((h) => h)`: the non-blank headers, in order. It is empty
      exactly when every header is blank. */
  function NonBlank(hs: seq<string>): (r: seq<string>)
    ensures |r| == |NonBlankPositions(hs)|
    ensures forall k :: 0 <= k < |r| ==> r[k] == hs[NonBlankPositions(hs)[k]] && r[k] != []
    ensures (forall j :: 0 <= j < |hs| ==> hs[j] == []) <==> r == []
  {
    var ps := NonBlankPositions(hs);
    assert (exists j :: 0 <= j < |hs| && hs[j] != []) ==> ps != [] by {
      if j :| 0 <= j < |hs| && hs[j] != [] {
        assert j in ps;
      }
    }
    assert ps != [] ==> hs[ps[0]] != [];
    var r := seq(|ps|, k requires 0 <= k < |ps| => hs[ps[k]]);
    assert |r| == |ps|;
    r
  }

  /** The header row of a paste as `handlePasteData` checks it: trimmed, then
      with the blank headers dropped. */
  function PastedHeaders(grid: seq<seq<string>>): seq<string>
    requires grid != []
  {
    NonBlank(HeaderNames(grid[0]))
  }

  /** The first cell of a pasted row is never blank, so the pasted header
      row always keeps at least one header. */
  lemma PasteHeaderNonBlank(grid: seq<seq<string>>)
    requires grid != [] && IsGridRow(grid[0])
    ensures PastedHeaders(grid) != []
  {
    TrimFacts(grid[0][0]);
    assert HeaderNames(grid[0])[0] != [];
  }

  /** The column `handlePasteData` processes as English, as written: the
      index `findEnglishColumn` returns for the non-blank headers, used
      unchanged as an index into the full row. */
  function PasteColumn(grid: seq<seq<string>>, confirmed: bool): (r: Result<nat, Cancelled>)
    requires grid != [] && IsGridRow(grid[0])
    ensures r.Ok? ==> r.value < |PastedHeaders(grid)|
  {
    PasteHeaderNonBlank(grid);
    FindEnglishColumn(PastedHeaders(grid), confirmed)
  }

  /** The column `handlePasteData` ought to process as English: the header
      `findEnglishColumn` picks among the non-blank headers, located in the
      full row. It is exactly the column the spreadsheet upload picks for
      the same header row. */
  function PasteColumnFixed(grid: seq<seq<string>>, confirmed: bool): (r: Result<nat, Cancelled>)
    requires grid != [] && IsGridRow(grid[0])
    ensures r == FindEnglishColumn(HeaderNames(grid[0]), confirmed)
  {
    var hs := HeaderNames(grid[0]);
    TrimFacts(grid[0][0]);
    FixedColumnAgrees(hs, confirmed);
    FixedColumn(hs, confirmed)
  }

  /** The English column of a header row whose first header is not blank:
      `findEnglishColumn` on the non-blank headers, mapped back to the full
      row. */
  function FixedColumn(hs: seq<string>, confirmed: bool): (r: Result<nat, Cancelled>)
    requires hs != [] && hs[0] != []
    ensures r.Ok? ==> r.value < |hs|
  {
    var kept := NonBlank(hs);
    var ps := NonBlankPositions(hs);
    assert 0 in ps;
    match FindEnglishColumn(kept, confirmed)
    case Err(e) => Err(e)
    case Ok(en) => Ok(ps[en])
  }

  /** Looking the English header up among the non-blank headers and mapping
      it back gives what looking it up in the full row gives. */
  lemma FixedColumnAgrees(hs: seq<string>, confirmed: bool)
    requires hs != [] && hs[0] != []
    ensures FixedColumn(hs, confirmed) == FindEnglishColumn(hs, confirmed)
  {
    var kept := NonBlank(hs);
    var ps := NonBlankPositions(hs);
    EnglishNeverBlank();
    FirstWhereKept(hs, IsEnglishHeader);
    assert 0 in ps;
  }

  /** For a test no blank header passes, the first non-blank header passing
      it, mapped back to its position in the full row, is the first header
      of the full row passing it. */
  lemma FirstWhereKept(hs: seq<string>, p: string -> bool)
    requires forall h :: p(h) ==> h != []
    ensures var ps := NonBlankPositions(hs);
      match FirstWhere(NonBlank(hs), p)
      case None => FirstWhere(hs, p).None?
      case Some(en) => FirstWhere(hs, p) == Some(ps[en])
  {
    var ps := NonBlankPositions(hs);
    var found := FirstWhere(NonBlank(hs), p);
    var whole := FirstWhere(hs, p);
    if found.None? {
      MatchKept(hs, p);
    } else {
      var en := found.value;
      FirstMatchKept(hs, en, p);
      assert whole.Some? by {
        assert p(hs[ps[en]]);
      }
      assert !(whole.value < ps[en]);
      assert !(ps[en] < whole.value);
    }
  }

  /** For a test `p` that no blank header passes, the full row has a header
      passing `p` exactly when its non-blank headers do. */
  lemma MatchKept(hs: seq<string>, p: string -> bool)
    requires forall h :: p(h) ==> h != []
    ensures (exists j :: 0 <= j < |hs| && p(hs[j]))
        <==> (exists k :: 0 <= k < |NonBlank(hs)| && p(NonBlank(hs)[k]))
  {
    var ps := NonBlankPositions(hs);
    if j :| 0 <= j < |hs| && p(hs[j]) {
      var k :| 0 <= k < |ps| && ps[k] == j;
      assert p(NonBlank(hs)[k]);
    }
    if k :| 0 <= k < |NonBlank(hs)| && p(NonBlank(hs)[k]) {
      assert p(hs[ps[k]]);
    }
  }

  /** For such a test, the first non-blank header passing it sits, in the
      full row, at the first position passing it. */
  lemma FirstMatchKept(hs: seq<string>, en: nat, p: string -> bool)
    requires forall h :: p(h) ==> h != []
    requires en < |NonBlank(hs)| && p(NonBlank(hs)[en])
    requires forall k :: 0 <= k < en ==> !p(NonBlank(hs)[k])
    ensures var ps := NonBlankPositions(hs);
      ps[en] < |hs| && p(hs[ps[en]])
      && forall j :: 0 <= j < ps[en] ==> !p(hs[j])
  {
    var ps := NonBlankPositions(hs);
    forall j | 0 <= j < ps[en]
      ensures !p(hs[j])
    {
      if p(hs[j]) {
        assert false;
      }
    }
  }

  /** An English header is never blank. */
  lemma EnglishNotBlank(h: string)
    ensures IsEnglishHeader(h) ==> h != []
  {
    assert Lower([]) == [];
    TrimFacts([]);
  }

  /** No blank header is English. */
  lemma EnglishNeverBlank()
    ensures forall h :: IsEnglishHeader(h) ==> h != []
  {
    forall h | IsEnglishHeader(h)
      ensures h != []
    {
      EnglishNotBlank(h);
    }
  }

  /** `handlePasteData` once the column is chosen: an ingest of the grid, or
      the failure that stopped it. */
  function IngestPaste(grid: seq<seq<string>>, column: Result<nat, Cancelled>, s: Store): (o: Outcome)
    ensures column.Err? ==> o == Outcome(s, Err(Cancelled))
    ensures column.Ok? ==> o == ProcessDataArray(grid, column.value, s)
  {
    match column
    case Err(_) => Outcome(s, Err(Cancelled))
    case Ok(c) => ProcessDataArray(grid, c, s)
  }

  /** `handlePasteData` as written: whitespace-only input is refused before
      parsing; otherwise the parsed grid is ingested through `PasteColumn`. */
  function HandlePaste(text: string, confirmed: bool, s: Store): (o: Outcome)
    ensures AllSpace(text) ==> o == Outcome(s, Err(NothingPasted))
    ensures !AllSpace(text) ==> var grid := ParsePastedData(text);
      grid != [] && IsGridRow(grid[0]) && o == IngestPaste(grid, PasteColumn(grid, confirmed), s)
  {
    TrimFacts(text);
    if Trim(text) == [] then Outcome(s, Err(NothingPasted))
    else
      var grid := ParsePastedData(text);
      if grid == [] then Outcome(s, Err(EmptyData))
      else IngestPaste(grid, PasteColumn(grid, confirmed), s)
  }

  /** `handlePasteData` with the English column located in the full row. */
  function HandlePasteFixed(text: string, confirmed: bool, s: Store): (o: Outcome)
    ensures AllSpace(text) ==> o == Outcome(s, Err(NothingPasted))
    ensures !AllSpace(text) ==> var grid := ParsePastedData(text);
      grid != [] && IsGridRow(grid[0]) && o == IngestPaste(grid, PasteColumnFixed(grid, confirmed), s)
  {
    TrimFacts(text);
    if Trim(text) == [] then Outcome(s, Err(NothingPasted))
    else
      var grid := ParsePastedData(text);
      if grid == [] then Outcome(s, Err(EmptyData))
      else IngestPaste(grid, PasteColumnFixed(grid, confirmed), s)
  }

  /** With the fix, a paste is ingested exactly as a spreadsheet upload of
      the parsed grid would be. */
  lemma FixedPasteMatchesUpload(text: string, confirmed: bool, s: Store)
    requires !AllSpace(text)
    ensures HandlePasteFixed(text, confirmed, s) == HandleUpload(ParsePastedData(text), confirmed, s)
  {
  }

  /** As written, a blank header cell before the English header shifts the
      English column: for the header row `ja`, blank, `English` the column
      processed as English is 1, the blank one. */
  lemma PasteIndexMismatch(grid: seq<seq<string>>, confirmed: bool)
    requires grid != [] && grid[0] == ["ja", "", "English"]
    ensures HeaderNames(grid[0]) == grid[0]
    ensures IsGridRow(grid[0]) && PasteColumn(grid, confirmed) == Ok(1)
  {
    SampleRow(grid[0]);
    SampleHeaders(grid[0]);
    SampleNonBlank(grid[0]);
    SampleFind(PastedHeaders(grid), confirmed);
  }

  /** The column the sample paste processes as English has a blank header,
      while the English header sits in column 2. */
  lemma PasteMissesEnglish(grid: seq<seq<string>>, confirmed: bool)
    requires grid != [] && grid[0] == ["ja", "", "English"]
    ensures var hs := HeaderNames(grid[0]);
      IsGridRow(grid[0]) && PasteColumn(grid, confirmed).Ok?
      && PasteColumn(grid, confirmed).value < |hs|
      && !IsEnglishHeader(hs[PasteColumn(grid, confirmed).value])
      && IsEnglishHeader(hs[2])
  {
    PasteIndexMismatch(grid, confirmed);
    EnglishNotBlank(grid[0][1]);
    SampleEnglish();
  }

  lemma SampleRow(row: seq<string>)
    requires row == ["ja", "", "English"]
    ensures IsGridRow(row)
  {
    assert IsTrimmed(row[0]) && IsTrimmed(row[1]) && IsTrimmed(row[2]);
  }

  /** A string that starts and ends with a non-space character trims to
      itself. */
  lemma TrimNoOp(s: string)
    requires s != [] && !IsSpace(s[0]) && !IsSpace(s[|s| - 1])
    ensures Trim(s) == s
  {
    assert TrimStart(s) == s;
    assert TrimEnd(s) == s;
  }

  lemma SampleTrimJa()
    ensures Trim("ja") == "ja"
  {
    TrimNoOp("ja");
  }

  lemma SampleTrimEnglish()
    ensures Trim("English") == "English"
  {
    TrimNoOp("English");
  }

  lemma SampleTrimBlank()
    ensures Trim("") == ""
  {
  }

  lemma SampleHeaders(row: seq<string>)
    requires row == ["ja", "", "English"]
    ensures HeaderNames(row) == row
  {
    var hs := HeaderNames(row);
    SampleTrimJa();
    SampleTrimEnglish();
    SampleTrimBlank();
    assert hs[0] == row[0] && hs[1] == row[1] && hs[2] == row[2];
  }

  lemma SamplePositions(hs: seq<string>)
    requires hs == ["ja", "", "English"]
    ensures NonBlankPositions(hs) == [0, 2]
  {
    assert PositionsFrom(hs, 3) == [];
    assert PositionsFrom(hs, 2) == [2];
    assert PositionsFrom(hs, 1) == [2];
  }

  lemma SampleNonBlank(hs: seq<string>)
    requires hs == ["ja", "", "English"]
    ensures NonBlank(hs) == ["ja", "English"]
  {
    SamplePositions(hs);
    var r := NonBlank(hs);
    assert r[0] == hs[0] && r[1] == hs[2];
  }

  lemma LowerEnglish()
    ensures Lower("English") == "english"
  {
  }

  lemma SampleEnglish()
    ensures IsEnglishHeader("English")
  {
    LowerEnglish();
    TrimNoOp("english");
  }

  lemma SampleJa()
    ensures !IsEnglishHeader("ja")
  {
    assert Lower("ja") == "ja";
    TrimNoOp("ja");
  }

  lemma SampleFind(hs: seq<string>, confirmed: bool)
    requires hs == ["ja", "English"]
    ensures FindEnglishColumn(hs, confirmed) == Ok(1)
  {
    SampleJa();
    SampleEnglish();
    FindSecond(hs, confirmed);
  }

  lemma FindSecond(hs: seq<string>, confirmed: bool)
    requires |hs| == 2 && !IsEnglishHeader(hs[0]) && IsEnglishHeader(hs[1])
    ensures FindEnglishColumn(hs, confirmed) == Ok(1)
  {
    WhereSecond(hs, IsEnglishHeader);
    FoundColumn(hs, 1, confirmed);
  }

  /** A two-element sequence whose second element alone passes `p` finds it
      at index 1. */
  lemma WhereSecond<T>(xs: seq<T>, p: T -> bool)
    requires |xs| == 2 && !p(xs[0]) && p(xs[1])
    ensures FirstWhere(xs, p) == Some(1)
  {
    assert FirstWhere(xs[1..], p) == Some(0);
  }

  /** When some header is English the answer of the dialog does not
      matter. */
  lemma FoundColumn(hs: seq<string>, i: nat, confirmed: bool)
    requires FirstWhere(hs, IsEnglishHeader) == Some(i)
    ensures FindEnglishColumn(hs, confirmed) == Ok(i)
  {
  }

  /** Rows whose English column is blank are all skipped: such a paste saves
      the store it read and reports no change. */
  lemma BlankEnglishColumnChangesNothing(t: AllTranslations, rows: seq<seq<string>>, en: nat, roles: Roles)
    requires forall k :: 0 <= k < |rows| ==> CellAt(rows[k], en) == []
    ensures MergeRows(t, rows, en, roles) == Merged(t, [])
    decreases |rows|
  {
    if rows != [] {
      BlankEnglishColumnChangesNothing(t, rows[..|rows| - 1], en, roles);
      ApplyRowRecordsExactly(t, rows[|rows| - 1], en, roles);
    }
  }
}
