/** Pasted-text parsing (`parsePastedData`, src/components/UploadExcel.tsx):
    text copied out of a spreadsheet becomes a grid of trimmed cells. A line
    that holds a tab is cut at every tab; any other line is cut at runs of two
    or more whitespace characters. */
module PasteParser {
  import opened Text

  function Last<T>(xs: seq<T>): T
    requires xs != []
  {
    xs[|xs| - 1]
  }

  /** No two whitespace characters in a row: such a run is what separates
      cells in a line without tabs. */
  predicate NoWideGap(s: string) {
    forall i :: 0 <= i < |s| - 1 ==> !(IsSpace(s[i]) && IsSpace(s[i + 1]))
  }

  /** A separator matched by `/\s{2,}/`. */
  predicate IsWideGap(g: string) {
    |g| >= 2 && AllSpace(g)
  }

  /** `parts[0] + gaps[0] + parts[1] + ... + parts[n]`. */
  function Interleave(parts: seq<string>, gaps: seq<string>): string
    requires |parts| == |gaps| + 1
  {
    if |gaps| == 0 then parts[0]
    else parts[0] + gaps[0] + Interleave(parts[1..], gaps[1..])
  }

  lemma InterleaveCons(x: char, p: string, ps: seq<string>, gaps: seq<string>)
    requires |ps| == |gaps|
    ensures Interleave([[x] + p] + ps, gaps) == [x] + Interleave([p] + ps, gaps)
  {
    if |gaps| > 0 {
      assert ([[x] + p] + ps)[1..] == ps;
      assert ([p] + ps)[1..] == ps;
    }
  }

  /** `s.split(/\s{2,}/)` together with the separators it consumed: the regular
      expression takes each maximal run of two or more whitespace characters,
      leftmost first. There is one more piece than separators, and the first
      piece is empty only when `s` is empty or opens with a separator;
      `SplitGapsRebuilds` shows that pieces and separators rebuild `s`. */
  function SplitGaps(s: string): (r: (seq<string>, seq<string>))
    ensures |r.0| == |r.1| + 1
    ensures r.0[0] == [] ==> s == [] || (|s| >= 2 && IsSpace(s[0]) && IsSpace(s[1]))
    ensures r.0[0] != [] ==> s != [] && r.0[0][0] == s[0]
    decreases |s|
  {
    if s == [] then ([[]], [])
    else if |s| >= 2 && IsSpace(s[0]) && IsSpace(s[1]) then
      var r := SplitGaps(TrimStart(s));
      ([[]] + r.0, [s[..|s| - |TrimStart(s)|]] + r.1)
    else
      var r := SplitGaps(s[1..]);
      ([[s[0]] + r.0[0]] + r.0[1..], r.1)
  }

  /** Putting the separators back between the pieces gives `s` again. */
  lemma {:induction false} SplitGapsRebuilds(s: string)
    ensures Interleave(SplitGaps(s).0, SplitGaps(s).1) == s
    decreases |s|, 1
  {
    if s == [] {
    } else if |s| >= 2 && IsSpace(s[0]) && IsSpace(s[1]) {
      SplitGapsRebuildsGap(s);
    } else {
      SplitGapsRebuildsChar(s);
    }
  }

  /** `SplitGapsRebuilds` when `s` opens with a separator. */
  lemma {:induction false} SplitGapsRebuildsGap(s: string)
    requires |s| >= 2 && IsSpace(s[0]) && IsSpace(s[1])
    ensures Interleave(SplitGaps(s).0, SplitGaps(s).1) == s
    decreases |s|, 0
  {
    var rest := TrimStart(s);
    var n := |s| - |rest|;
    var r := SplitGaps(rest);
    SplitGapsRebuilds(rest);
    TrimStartCut(s);
    TakeDrop(s, n);
    RebuildAfterGap(s[..n], rest, r.0, r.1, SplitGaps(s).0, SplitGaps(s).1);
  }

  /** `SplitGapsRebuilds` when `s` opens with a character of its first piece. */
  lemma {:induction false} SplitGapsRebuildsChar(s: string)
    requires s != [] && !(|s| >= 2 && IsSpace(s[0]) && IsSpace(s[1]))
    ensures Interleave(SplitGaps(s).0, SplitGaps(s).1) == s
    decreases |s|, 0
  {
    var t := s[1..];
    var r := SplitGaps(t);
    SplitGapsRebuilds(t);
    HeadTail(s);
    RebuildAfterChar(s[0], t, r.0, r.1, SplitGaps(s).0);
  }

  /** The step of `SplitGapsRebuildsGap` over plain lists: an empty piece
      and the separator `g` in front of the pieces and separators of `rest`. */
  lemma RebuildAfterGap(g: string, rest: string, ps: seq<string>, gs: seq<string>, all: seq<string>, allGaps: seq<string>)
    requires |ps| == |gs| + 1 && Interleave(ps, gs) == rest
    requires all == [[]] + ps && allGaps == [g] + gs
    ensures Interleave(all, allGaps) == g + rest
  {
    assert all[1..] == ps;
    assert allGaps[1..] == gs;
    assert [] + g == g;
  }

  /** The step of `SplitGapsRebuildsChar` over plain lists: `x` put in
      front of the first of the pieces of `t`. */
  lemma RebuildAfterChar(x: char, t: string, ps: seq<string>, gs: seq<string>, all: seq<string>)
    requires |ps| == |gs| + 1 && Interleave(ps, gs) == t
    requires all == [[x] + ps[0]] + ps[1..]
    ensures Interleave(all, gs) == [x] + t
  {
    InterleaveCons(x, ps[0], ps[1..], gs);
    HeadTail(ps);
  }

  /** The pieces of `s.split(/\s{2,}/)`. */
  function SplitWide(s: string): seq<string> {
    SplitGaps(s).0
  }

  /** The separators `s.split(/\s{2,}/)` consumed. */
  function Separators(s: string): seq<string> {
    SplitGaps(s).1
  }

  /** Every separator is a run of at least two whitespace characters, and no
      piece holds two whitespace characters in a row. */
  lemma {:induction false} SplitGapsSeparators(s: string)
    ensures forall k :: 0 <= k < |Separators(s)| ==> IsWideGap(Separators(s)[k])
    ensures forall k :: 0 <= k < |SplitWide(s)| ==> NoWideGap(SplitWide(s)[k])
    decreases |s|
  {
    if s == [] {
    } else if |s| >= 2 && IsSpace(s[0]) && IsSpace(s[1]) {
      var rest := TrimStart(s);
      var gap := s[..|s| - |rest|];
      TrimStartCut(s);
      SplitGapsSeparators(rest);
      var ps := SplitWide(rest);
      var gs := Separators(rest);
      assert SplitWide(s) == [[]] + ps;
      assert Separators(s) == [gap] + gs;
      assert IsWideGap(gap);
    } else {
      SplitGapsSeparators(s[1..]);
      var ps := SplitWide(s[1..]);
      var p := [s[0]] + ps[0];
      assert SplitWide(s) == [p] + ps[1..];
      assert Separators(s) == Separators(s[1..]);
      assert NoWideGap(ps[0]);
      forall i | 0 <= i < |p| - 1
        ensures !(IsSpace(p[i]) && IsSpace(p[i + 1]))
      {
        if i > 0 {
          assert p[i] == ps[0][i - 1] && p[i + 1] == ps[0][i];
        }
      }
    }
  }

  /** Each separator is taken whole: a piece after a separator does not start
      with whitespace, a piece before one does not end with whitespace, and no
      piece strictly inside is empty. */
  lemma {:induction false} SplitGapsBoundaries(s: string)
    ensures forall k :: 0 < k < |SplitWide(s)| ==> SplitWide(s)[k] == [] || !IsSpace(SplitWide(s)[k][0])
    ensures forall k :: 0 <= k < |SplitWide(s)| - 1 ==> SplitWide(s)[k] == [] || !IsSpace(Last(SplitWide(s)[k]))
    ensures forall k :: 0 < k < |SplitWide(s)| - 1 ==> SplitWide(s)[k] != []
    decreases |s|
  {
    if s == [] {
    } else if |s| >= 2 && IsSpace(s[0]) && IsSpace(s[1]) {
      var rest := TrimStart(s);
      SplitGapsBoundaries(rest);
      var ps := SplitWide(rest);
      assert SplitWide(s) == [[]] + ps;
      assert ps[0] != [] ==> ps[0][0] == rest[0];
    } else {
      SplitGapsBoundaries(s[1..]);
      var ps := SplitWide(s[1..]);
      var p := [s[0]] + ps[0];
      var all := [p] + ps[1..];
      assert SplitWide(s) == all;
      if |ps| > 1 && ps[0] == [] {
        assert IsSpace(s[1]);
      }
      assert forall k :: 0 < k < |all| ==> all[k] == ps[k];
      if |all| > 1 && ps[0] != [] {
        assert Last(p) == Last(ps[0]);
      }
    }
  }

  /** The last piece ends where `s` ends. */
  lemma {:induction false} SplitGapsLast(s: string)
    ensures Last(SplitWide(s)) == [] ==> s == [] || IsSpace(Last(s))
    ensures Last(SplitWide(s)) != [] ==> s != [] && Last(Last(SplitWide(s))) == Last(s)
    decreases |s|, 1
  {
    if s == [] {
    } else if |s| >= 2 && IsSpace(s[0]) && IsSpace(s[1]) {
      SplitGapsLastGap(s);
    } else {
      SplitGapsLastChar(s);
    }
  }

  /** `SplitGapsLast` when `s` opens with a separator. */
  lemma {:induction false} SplitGapsLastGap(s: string)
    requires |s| >= 2 && IsSpace(s[0]) && IsSpace(s[1])
    ensures Last(SplitWide(s)) == [] ==> IsSpace(Last(s))
    ensures Last(SplitWide(s)) != [] ==> Last(Last(SplitWide(s))) == Last(s)
    decreases |s|, 0
  {
    var rest := TrimStart(s);
    SplitGapsLast(rest);
    var ps := SplitGaps(rest).0;
    assert SplitWide(s) == [[]] + ps;
    assert Last([[]] + ps) == Last(ps);
    TrimStartCut(s);
    if rest == [] {
      assert Last(s) == s[..|s|][|s| - 1];
    } else {
      assert Last(rest) == Last(s);
    }
  }

  /** `SplitGapsLast` when `s` opens with a character of its first piece. */
  lemma {:induction false} SplitGapsLastChar(s: string)
    requires s != [] && !(|s| >= 2 && IsSpace(s[0]) && IsSpace(s[1]))
    ensures Last(SplitWide(s)) == [] ==> IsSpace(Last(s))
    ensures Last(SplitWide(s)) != [] ==> Last(Last(SplitWide(s))) == Last(s)
    decreases |s|, 0
  {
    var t := s[1..];
    SplitGapsLast(t);
    var ps := SplitWide(t);
    assert SplitWide(s) == [[s[0]] + ps[0]] + ps[1..];
    assert |ps| == 1 && ps[0] == [] ==> t == [];
    assert s == [s[0]] + t;
    LastOfWidenedPiece(s[0], t, ps, SplitWide(s));
  }

  /** The step of `SplitGapsLastChar` over plain lists: `all` is `ps` with
      `x` put in front of its first piece, and `ps` are the pieces of `t`. */
  lemma LastOfWidenedPiece(x: char, t: string, ps: seq<string>, all: seq<string>)
    requires ps != [] && all == [[x] + ps[0]] + ps[1..]
    requires Last(ps) == [] ==> t == [] || IsSpace(Last(t))
    requires Last(ps) != [] ==> t != [] && Last(Last(ps)) == Last(t)
    requires t == [] ==> ps == [[]]
    requires |ps| == 1 && ps[0] == [] ==> t == []
    ensures Last(all) == [] ==> IsSpace(Last([x] + t))
    ensures Last(all) != [] ==> Last(Last(all)) == Last([x] + t)
  {
    if |ps| > 1 {
      assert Last(all) == Last(ps);
      assert Last([x] + t) == Last(t);
    } else if ps[0] == [] {
      assert Last(all) == [x];
    } else {
      assert Last(all) == [x] + ps[0];
      assert Last([x] + t) == Last(t);
    }
  }

  /** On a trimmed, non-empty line every piece is itself non-empty and
      trimmed: a separator is never at either end of the line, and it is
      always taken whole. */
  lemma TrimmedLinePieces(t: string)
    requires t != [] && IsTrimmed(t)
    ensures forall k :: 0 <= k < |SplitWide(t)| ==> SplitWide(t)[k] != [] && IsTrimmed(SplitWide(t)[k])
  {
    var ps := SplitWide(t);
    SplitGapsBoundaries(t);
    SplitGapsLast(t);
    SplitGapsRebuilds(t);
    forall k | 0 <= k < |ps|
      ensures ps[k] != [] && IsTrimmed(ps[k])
    {
      if |ps| == 1 {
        assert ps[k] == t;
      } else if k == |ps| - 1 {
        assert ps[k] == Last(ps);
      }
    }
  }

  /** The handling of one pasted line: blank lines give no cells, a line with
      a tab is cut at every tab (empty cells kept), any other line is cut at
      wide whitespace runs or kept as a single cell. */
  function ParseLine(line: string): (cells: seq<string>)
    ensures cells == [] <==> AllSpace(line)
    ensures forall k :: 0 <= k < |cells| ==> IsTrimmed(cells[k])
    ensures cells != [] ==> cells[0] != []
  {
    var t := Trim(line);
    TrimFacts(line);
    if t == [] then []
    else if '\t' in t then
      var first := Split(t, '\t')[0];
      assert first != [] && first[0] == t[0];
      TrimFacts(first);
      TrimAll(Split(t, '\t'))
    else
      var parts := SplitWide(t);
      TrimmedLinePieces(t);
      if |parts| > 1 then
        TrimAllTrimmed(parts);
        TrimAll(parts)
      else
        [t]
  }

  /** A trimmed line holding a tab gives one cell per tab-separated field,
      empty fields included: one more cell than there are tabs. */
  lemma ParseLineTabs(line: string)
    requires '\t' in Trim(line)
    ensures var t := Trim(line);
      && |ParseLine(line)| == Count(t, '\t') + 1
      && forall k :: 0 <= k < |ParseLine(line)| ==> ParseLine(line)[k] == Trim(Split(t, '\t')[k])
  {
  }

  /** A non-blank line without a tab gives the pieces between its wide
      whitespace runs: non-empty, free of wide runs, and rebuilding the
      trimmed line when the separators are put back. */
  lemma ParseLineWide(line: string)
    requires Trim(line) != [] && '\t' !in Trim(line)
    ensures var t := Trim(line);
      && ParseLine(line) == SplitWide(t)
      && Interleave(ParseLine(line), SplitGaps(t).1) == t
      && forall k :: 0 <= k < |ParseLine(line)| ==> ParseLine(line)[k] != [] && NoWideGap(ParseLine(line)[k])
  {
    var t := Trim(line);
    TrimmedLinePieces(t);
    SplitGapsSeparators(t);
    SplitGapsRebuilds(t);
    if |SplitWide(t)| > 1 {
      TrimAllTrimmed(SplitWide(t));
    }
  }

  /** `cells.map((cell) => cell.trim())`. */
  function TrimAll(cells: seq<string>): (r: seq<string>)
    ensures |r| == |cells|
    ensures forall k :: 0 <= k < |r| ==> r[k] == Trim(cells[k])
  {
    if cells == [] then [] else [Trim(cells[0])] + TrimAll(cells[1..])
  }

  lemma TrimAllTrimmed(cells: seq<string>)
    requires forall k :: 0 <= k < |cells| ==> IsTrimmed(cells[k])
    ensures TrimAll(cells) == cells
  {
    forall k | 0 <= k < |cells|
      ensures TrimAll(cells)[k] == cells[k]
    {
      TrimFacts(cells[k]);
    }
  }

  /** Drops the `\r` in front of each `\n`: every piece except the last loses
      one trailing carriage return. Together with `Split` on `\n` this is
      `split(/\r?\n/)`. */
  function DropCarriageReturns(pieces: seq<string>): (lines: seq<string>)
    ensures |lines| == |pieces|
    ensures forall k :: 0 <= k < |lines| ==> (AllSpace(lines[k]) <==> AllSpace(pieces[k]))
  {
    if |pieces| <= 1 then pieces
    else
      var p := pieces[0];
      var line := DropCarriageReturn(p);
      var rest := DropCarriageReturns(pieces[1..]);
      assert forall k :: 1 <= k < |pieces| ==> pieces[k] == pieces[1..][k - 1];
      [line] + rest
  }

  /** Every line but the last is its piece less one trailing `\r`, if it
      had one; the last line is its piece unchanged. */
  lemma {:induction false} DropCarriageReturnsAt(pieces: seq<string>)
    ensures var lines := DropCarriageReturns(pieces);
      && (forall k :: 0 <= k < |lines| - 1 ==> lines[k] == DropCarriageReturn(pieces[k]))
      && (|lines| > 0 ==> Last(lines) == Last(pieces))
    decreases |pieces|
  {
    if |pieces| > 1 {
      var rest := pieces[1..];
      DropCarriageReturnsAt(rest);
      assert DropCarriageReturns(pieces) == [DropCarriageReturn(pieces[0])] + DropCarriageReturns(rest);
      DropCarriageReturnsStep(pieces, DropCarriageReturns(pieces), DropCarriageReturns(rest));
    }
  }

  /** The inductive step of `DropCarriageReturnsAt`, over plain lists. */
  lemma DropCarriageReturnsStep(pieces: seq<string>, lines: seq<string>, rest: seq<string>)
    requires |pieces| > 1 && |rest| == |pieces| - 1
    requires lines == [DropCarriageReturn(pieces[0])] + rest
    requires forall k :: 0 <= k < |rest| - 1 ==> rest[k] == DropCarriageReturn(pieces[1..][k])
    requires Last(rest) == Last(pieces[1..])
    ensures forall k :: 0 <= k < |lines| - 1 ==> lines[k] == DropCarriageReturn(pieces[k])
    ensures Last(lines) == Last(pieces)
  {
    forall k | 0 <= k < |lines| - 1
      ensures lines[k] == DropCarriageReturn(pieces[k])
    {
      if k > 0 {
        assert lines[k] == rest[k - 1];
        assert pieces[k] == pieces[1..][k - 1];
      }
    }
    assert Last(lines) == rest[|rest| - 1];
  }

  /** One trailing `\r` dropped, if there is one. */
  function DropCarriageReturn(p: string): (line: string)
    ensures AllSpace(line) <==> AllSpace(p)
    ensures line == p || p == line + ['\r']
    ensures p != [] && Last(p) == '\r' ==> p == line + ['\r']
  {
    if p != [] && Last(p) == '\r' then
      assert p == p[..|p| - 1] + ['\r'];
      p[..|p| - 1]
    else p
  }

  /** `text.trim().split(/\r?\n/)`: one line per newline of the trimmed text
      plus one, none holding a newline; every line but the last is the piece
      before its newline less one trailing carriage return. */
  function SplitLines(text: string): (lines: seq<string>)
    ensures |lines| == Count(Trim(text), '\n') + 1
    ensures forall k :: 0 <= k < |lines| ==> '\n' !in lines[k]
    ensures forall k :: 0 <= k < |lines| - 1 ==>
      var piece := Split(Trim(text), '\n')[k];
      piece == lines[k] || piece == lines[k] + ['\r']
    ensures Last(lines) == Last(Split(Trim(text), '\n'))
  {
    var pieces := Split(Trim(text), '\n');
    var lines := DropCarriageReturns(pieces);
    DropCarriageReturnsAt(pieces);
    forall k | 0 <= k < |lines|
      ensures '\n' !in lines[k]
    {
      if k < |lines| - 1 {
        assert '\n' !in pieces[k];
        assert pieces[k] == lines[k] || pieces[k] == lines[k] + ['\r'];
      } else {
        assert lines[k] == Last(pieces);
      }
    }
    lines
  }

  /** A row of the grid: at least one cell, the first one not blank, every
      cell trimmed. */
  predicate IsGridRow(row: seq<string>) {
    |row| >= 1 && row[0] != [] && forall j :: 0 <= j < |row| ==> IsTrimmed(row[j])
  }

  /** The lines that are not whitespace only, in order. */
  function NonBlank(lines: seq<string>): (kept: seq<string>)
    ensures |kept| <= |lines|
    ensures forall k :: 0 <= k < |kept| ==> !AllSpace(kept[k])
    decreases |lines|
  {
    if lines == [] then []
    else (if AllSpace(lines[0]) then [] else [lines[0]]) + NonBlank(lines[1..])
  }

  /** The rows of the non-blank lines, in order: row `k` is the parse of
      the `k`-th line that is not whitespace only. */
  function ParseRows(lines: seq<string>): (rows: seq<seq<string>>)
    ensures |rows| <= |lines|
    ensures forall k :: 0 <= k < |rows| ==> IsGridRow(rows[k])
    ensures rows == [] <==> AllBlank(lines)
  {
    if lines == [] then []
    else
      var row := ParseLine(lines[0]);
      var rest := ParseRows(lines[1..]);
      assert forall k :: 0 < k < |lines| ==> lines[k] == lines[1..][k - 1];
      if row == [] then rest else [row] + rest
  }

  /** Parsing lines one block after another is parsing them together. */
  lemma {:induction false} ParseRowsAppend(a: seq<string>, b: seq<string>)
    ensures ParseRows(a + b) == ParseRows(a) + ParseRows(b)
    decreases |a|
  {
    if a != [] {
      ParseRowsAppend(a[1..], b);
      TailOfAppend(a, b);
    } else {
      assert a + b == b;
    }
  }

  /** Row `k` is the parse of the `k`-th line that is not whitespace
      only, and there is one row per such line. */
  lemma {:induction false} ParseRowsNonBlank(lines: seq<string>)
    ensures |ParseRows(lines)| == |NonBlank(lines)|
    ensures forall k :: 0 <= k < |ParseRows(lines)| ==> ParseRows(lines)[k] == ParseLine(NonBlank(lines)[k])
    decreases |lines|
  {
    if lines != [] {
      var l := lines[0];
      ParseRowsNonBlank(lines[1..]);
      var rows := ParseRows(lines[1..]);
      var kept := NonBlank(lines[1..]);
      if !AllSpace(l) {
        assert ParseRows(lines) == [ParseLine(l)] + rows;
        assert NonBlank(lines) == [l] + kept;
        ConsIndex(ParseLine(l), rows);
        ConsIndex(l, kept);
      } else {
        assert ParseRows(lines) == rows;
        assert NonBlank(lines) == kept;
      }
    }
  }

  lemma ConsIndex<T>(x: T, xs: seq<T>)
    ensures ([x] + xs)[0] == x
    ensures forall k :: 0 < k < |xs| + 1 ==> ([x] + xs)[k] == xs[k - 1]
  {
  }

  lemma TailOfAppend<T>(a: seq<T>, b: seq<T>)
    requires a != []
    ensures (a + b)[0] == a[0] && (a + b)[1..] == a[1..] + b
  {
  }

  /** A single line gives no row when blank and its own row otherwise. */
  lemma ParseRowsOne(line: string)
    ensures ParseRows([line]) == if AllSpace(line) then [] else [ParseLine(line)]
  {
    assert [line][1..] == [];
  }

  /** `parsePastedData`: row `k` of the grid is the parse of the `k`-th
      non-blank line of the trimmed text, lines being cut at each `\n` with
      the `\r` in front of it dropped. */
  function ParsePastedData(text: string): (grid: seq<seq<string>>)
    ensures |grid| == |NonBlank(SplitLines(text))|
    ensures forall k :: 0 <= k < |grid| ==> grid[k] == ParseLine(NonBlank(SplitLines(text))[k])
    ensures forall k :: 0 <= k < |grid| ==> IsGridRow(grid[k])
    ensures grid == [] <==> AllSpace(text)
  {
    var pieces := Split(Trim(text), '\n');
    BlankPiecesBlankText(text);
    var lines := DropCarriageReturns(pieces);
    assert lines == SplitLines(text);
    assert AllBlank(lines) <==> AllBlank(pieces);
    ParseRowsNonBlank(lines);
    ParseRows(lines)
  }

  /** Every line is whitespace only. */
  predicate AllBlank(lines: seq<string>) {
    forall k :: 0 <= k < |lines| ==> AllSpace(lines[k])
  }

  /** The grid is empty only when the pasted text is blank. */
  lemma BlankPiecesBlankText(text: string)
    ensures AllBlank(Split(Trim(text), '\n')) <==> AllSpace(text)
  {
    TrimFacts(text);
    if AllBlank(Split(Trim(text), '\n')) {
      BlankPiecesBlankTrim(Trim(text));
    }
    if AllSpace(text) {
      EmptySplit();
    }
  }

  lemma EmptySplit()
    ensures Split([], '\n') == [[]]
  {
  }

  lemma BlankPiecesBlankTrim(t: string)
    requires IsTrimmed(t)
    requires AllBlank(Split(t, '\n'))
    ensures t == []
  {
    JoinSplit(t, '\n');
    JoinAllSpace(Split(t, '\n'), '\n');
    assert AllSpace(t);
  }

  lemma {:induction false} JoinAllSpace(ps: seq<string>, sep: char)
    requires IsSpace(sep)
    requires forall k :: 0 <= k < |ps| ==> AllSpace(ps[k])
    ensures AllSpace(Join(ps, sep))
    decreases |ps|
  {
    if |ps| > 1 {
      JoinAllSpace(ps[1..], sep);
      var j := ps[0] + [sep] + Join(ps[1..], sep);
      assert forall i :: |ps[0]| < i < |j| ==> j[i] == Join(ps[1..], sep)[i - |ps[0]| - 1];
    }
  }
}
