/** Translation-key derivation (`textToKey`, src/components/UploadExcel.tsx):
    an English phrase becomes a snake_case identifier built from its first
    sixteen ASCII words. */
module KeyDeriver {
  import opened Text

  /** At most this many words of the English text go into a key. */
  const MaxWords: nat := 16

  predicate IsKeyChar(c: char) {
    'a' <= c <= 'z' || '0' <= c <= '9'
  }

  /** A word of a key: non-empty, lower-case ASCII letters and digits only. */
  predicate IsKeyWord(w: string) {
    w != [] && forall i :: 0 <= i < |w| ==> IsKeyChar(w[i])
  }

  /** The shape every derived key has: lower-case letters, digits and single
      underscores between them, with at most `MaxWords - 1` underscores. */
  predicate WellFormedKey(k: string) {
    && (forall i :: 0 <= i < |k| ==> IsKeyChar(k[i]) || k[i] == '_')
    && (k != [] ==> k[0] != '_' && k[|k| - 1] != '_')
    && (forall i :: 0 <= i < |k| - 1 ==> !(k[i] == '_' && k[i + 1] == '_'))
    && Count(k, '_') < MaxWords
  }

  /** `.replace(/[^a-z0-9\s]/g, '')`: keeps letters, digits and whitespace. */
  function Strip(s: string): (r: string)
    ensures KeyCharsOrSpace(r)
  {
    if s == [] then []
    else (if IsKeyChar(s[0]) || IsSpace(s[0]) then [s[0]] else []) + Strip(s[1..])
  }

  /** Every character is an ASCII letter, a digit or whitespace. */
  predicate KeyCharsOrSpace(s: string) {
    forall i :: 0 <= i < |s| ==> IsKeyChar(s[i]) || IsSpace(s[i])
  }

  predicate IsWord(w: string) {
    w != [] && forall i :: 0 <= i < |w| ==> !IsSpace(w[i])
  }

  /** `.split(/\s+/).filter((word) => word.length > 0)`: the maximal runs of
      non-whitespace characters of `s`, left to right. */
  function Words(s: string): (ws: seq<string>)
    ensures forall k :: 0 <= k < |ws| ==> IsWord(ws[k])
    ensures KeyCharsOrSpace(s) ==> forall k :: 0 <= k < |ws| ==> IsKeyWord(ws[k])
    ensures |ws| == 0 <==> AllSpace(s)
    ensures |s| > 0 && !IsSpace(s[0]) ==> |ws| > 0 && ws[0] != [] && ws[0][0] == s[0]
    decreases |s|
  {
    if s == [] then []
    else
      var rest := Words(s[1..]);
      if IsSpace(s[0]) then rest
      else if |s| > 1 && !IsSpace(s[1]) then [[s[0]] + rest[0]] + rest[1..]
      else [[s[0]]] + rest
  }

  /** A single word is its own only word. */
  lemma {:induction false} WordsOfWord(w: string)
    requires IsWord(w)
    ensures Words(w) == [w]
    decreases |w|
  {
    var tail := w[1..];
    if |w| > 1 {
      assert IsWord(tail);
      WordsOfWord(tail);
      assert [w[0]] + tail == w;
    } else {
      assert tail == [] && [w[0]] == w;
    }
  }

  /** Whitespace alone holds no word. */
  lemma WordsOfSpace(g: string)
    requires AllSpace(g)
    ensures Words(g) == []
  {
  }

  /** `Words` one character at a time: whitespace is skipped, and any other
      character opens a word or joins the word that follows it. */
  lemma WordsCons(x: char, t: string)
    ensures Words([x] + t)
      == if IsSpace(x) then Words(t)
         else if t != [] && !IsSpace(t[0]) then [[x] + Words(t)[0]] + Words(t)[1..]
         else [[x]] + Words(t)
  {
    assert ([x] + t)[1..] == t;
  }

  /** A whitespace character separates: the words on either side of it are
      found independently, in order, and none spans it. */
  lemma WordsSplitAt(a: string, c: char, b: string)
    requires IsSpace(c)
    ensures Words(a + [c] + b) == Words(a) + Words(b)
  {
    WordsAppendAtSpace(a, [c] + b);
    WordsCons(c, b);
    AppendAssoc(a, [c], b);
  }

  /** Appending a text that starts with whitespace adds its words after
      the others. */
  lemma {:induction false} WordsAppendAtSpace(a: string, u: string)
    requires u != [] && IsSpace(u[0])
    ensures Words(a + u) == Words(a) + Words(u)
    decreases |a|
  {
    if a == [] {
      assert a + u == u;
    } else {
      var x, r := a[0], a[1..];
      WordsAppendAtSpace(r, u);
      WordsAppendStep(x, r, u);
      HeadTail(a);
      ConsAppend(x, r, u);
    }
  }

  /** The inductive step of `WordsAppendAtSpace`: one more character in
      front. */
  lemma WordsAppendStep(x: char, r: string, u: string)
    requires u != [] && IsSpace(u[0])
    requires Words(r + u) == Words(r) + Words(u)
    ensures Words([x] + (r + u)) == Words([x] + r) + Words(u)
  {
    var t := r + u;
    WordsCons(x, t);
    WordsCons(x, r);
    var wr, wu := Words(r), Words(u);
    if !IsSpace(x) && r != [] && !IsSpace(r[0]) {
      assert t[0] == r[0];
      assert wr != [];
      HeadTailOfAppend(wr, wu);
      ConsAppend([x] + wr[0], wr[1..], wu);
    } else if !IsSpace(x) {
      assert t[0] == if r == [] then u[0] else r[0];
      ConsAppend([x], wr, wu);
    }
  }

  /** Words written out with single spaces between them are found again. */
  lemma {:induction false} WordsOfJoin(ws: seq<string>)
    requires forall k :: 0 <= k < |ws| ==> IsWord(ws[k])
    ensures Words(Join(ws, ' ')) == ws
    decreases |ws|
  {
    if |ws| == 1 {
      WordsOfWord(ws[0]);
    } else if |ws| > 1 {
      var tail := ws[1..];
      WordsOfJoin(tail);
      WordsOfWord(ws[0]);
      WordsSplitAt(ws[0], ' ', Join(tail, ' '));
      assert [ws[0]] + tail == ws;
    }
  }

  /** Key words joined by a separator: every character is a key character
      or the separator, and both ends are key characters. */
  lemma {:induction false} JoinKeyWords(ws: seq<string>, sep: char)
    requires ws != []
    requires forall k :: 0 <= k < |ws| ==> IsKeyWord(ws[k])
    ensures var j := Join(ws, sep);
      && j != [] && IsKeyChar(j[0]) && IsKeyChar(j[|j| - 1])
      && forall i :: 0 <= i < |j| ==> IsKeyChar(j[i]) || j[i] == sep
    decreases |ws|
  {
    if |ws| > 1 {
      var tail := ws[1..];
      JoinKeyWords(tail, sep);
      var j := Join(ws, sep);
      var jt := Join(tail, sep);
      assert j == ws[0] + [sep] + jt;
      assert j[0] == ws[0][0];
      assert j[|j| - 1] == jt[|jt| - 1];
      forall i | 0 <= i < |j|
        ensures IsKeyChar(j[i]) || j[i] == sep
      {
        if i > |ws[0]| {
          assert j[i] == jt[i - |ws[0]| - 1];
        }
      }
    }
  }

  /** `Lower` leaves a text with no upper-case ASCII letter alone. */
  lemma LowerKeeps(s: string)
    requires forall i :: 0 <= i < |s| ==> !('A' <= s[i] <= 'Z')
    ensures Lower(s) == s
  {
    assert forall i :: 0 <= i < |s| ==> Lower(s)[i] == s[i];
  }

  /** Key words written with single spaces make a trimmed text of key
      characters and whitespace. */
  lemma KeySpacedText(ws: seq<string>)
    requires forall k :: 0 <= k < |ws| ==> IsKeyWord(ws[k])
    ensures KeyCharsOrSpace(Join(ws, ' ')) && IsTrimmed(Join(ws, ' '))
  {
    if ws != [] {
      var text := Join(ws, ' ');
      JoinKeyWords(ws, ' ');
      KeyCharNotSpace(text[0]);
      KeyCharNotSpace(text[|text| - 1]);
    }
  }

  /** Key characters and whitespace include no upper-case ASCII letter. */
  lemma KeyCharsNotUpper(s: string)
    requires KeyCharsOrSpace(s)
    ensures forall i :: 0 <= i < |s| ==> !('A' <= s[i] <= 'Z')
  {
  }

  /** Key words written with single spaces pass lower-casing, trimming and
      punctuation removal unchanged. */
  lemma KeyTextUnchanged(ws: seq<string>)
    requires forall k :: 0 <= k < |ws| ==> IsKeyWord(ws[k])
    ensures Strip(Trim(Lower(Join(ws, ' ')))) == Join(ws, ' ')
  {
    var text := Join(ws, ' ');
    KeySpacedText(ws);
    KeyCharsNotUpper(text);
    LowerKeeps(text);
    assert Lower(text) == text;
    TrimFacts(text);
    assert Trim(text) == text;
    StripKeeps(text);
  }

  /** Key words written with single spaces give back their first sixteen
      as the key words of that text, in order: all of them when there are
      at most sixteen. */
  lemma KeyWordsOfJoin(ws: seq<string>)
    requires forall k :: 0 <= k < |ws| ==> IsKeyWord(ws[k])
    ensures KeyWords(Join(ws, ' ')) == if |ws| <= MaxWords then ws else ws[..MaxWords]
  {
    KeyTextUnchanged(ws);
    KeyWordsAreWords(ws);
    WordsOfJoin(ws);
    KeyWordsOfCleanText(Join(ws, ' '), ws);
  }

  lemma KeyWordsAreWords(ws: seq<string>)
    requires forall k :: 0 <= k < |ws| ==> IsKeyWord(ws[k])
    ensures forall k :: 0 <= k < |ws| ==> IsWord(ws[k])
  {
    forall k, i | 0 <= k < |ws| && 0 <= i < |ws[k]|
      ensures !IsSpace(ws[k][i])
    {
      KeyCharNotSpace(ws[k][i]);
    }
  }

  /** A text that the clean-up leaves unchanged has the first sixteen of
      its words as its key words. */
  lemma KeyWordsOfCleanText(text: string, ws: seq<string>)
    requires Strip(Trim(Lower(text))) == text
    requires Words(text) == ws
    ensures KeyWords(text) == if |ws| <= MaxWords then ws else ws[..MaxWords]
  {
  }

  /** Key words written with single spaces become the key of the first
      sixteen of them joined by `_`, in order: every word when there are at
      most sixteen. */
  lemma KeyOfWords(ws: seq<string>)
    requires forall k :: 0 <= k < |ws| ==> IsKeyWord(ws[k])
    ensures TextToKey(Join(ws, ' ')) == Join(if |ws| <= MaxWords then ws else ws[..MaxWords], '_')
  {
    KeyWordsOfJoin(ws);
  }

  /** `Strip` keeps a text made of key characters and whitespace. */
  lemma {:induction false} StripKeeps(s: string)
    requires KeyCharsOrSpace(s)
    ensures Strip(s) == s
    decreases |s|
  {
    if s != [] {
      StripKeeps(s[1..]);
      assert [s[0]] + s[1..] == s;
    }
  }

  lemma HeadTailOfAppend<T>(p: seq<T>, q: seq<T>)
    requires p != []
    ensures (p + q)[0] == p[0] && (p + q)[1..] == p[1..] + q
  {
  }

  lemma ConsAppend<T>(x: T, p: seq<T>, q: seq<T>)
    ensures [x] + (p + q) == ([x] + p) + q
  {
  }

  lemma AppendAssoc<T>(p: seq<T>, q: seq<T>, s: seq<T>)
    ensures p + q + s == p + (q + s)
  {
  }

  /** The words a key is built from: the first `MaxWords` words of the
      lower-cased, trimmed text once every character other than an ASCII
      letter, digit or whitespace is deleted. */
  function KeyWords(text: string): (ws: seq<string>)
    ensures |ws| <= MaxWords
    ensures forall k :: 0 <= k < |ws| ==> IsKeyWord(ws[k])
    ensures ws == [] <==> Words(Strip(Trim(Lower(text)))) == []
    ensures var all := Words(Strip(Trim(Lower(text))));
      && |ws| == (if |all| <= MaxWords then |all| else MaxWords)
      && ws == all[..|ws|]
  {
    var all := Words(Strip(Trim(Lower(text))));
    if |all| <= MaxWords then all else all[..MaxWords]
  }

  /** `.replace(/_+/g, '_')`. */
  function CollapseUnderscores(s: string): string {
    if s == [] then []
    else if |s| > 1 && s[0] == '_' && s[1] == '_' then CollapseUnderscores(s[1..])
    else [s[0]] + CollapseUnderscores(s[1..])
  }

  /** `.replace(/^_|_$/g, '')`: one leading and one trailing underscore go. */
  function TrimUnderscores(s: string): string {
    var t := if s != [] && s[0] == '_' then s[1..] else s;
    if t != [] && t[|t| - 1] == '_' then t[..|t| - 1] else t
  }

  /** `textToKey`. */
  function TextToKey(text: string): (key: string)
    ensures WellFormedKey(key)
    ensures key == Join(KeyWords(text), '_')
    ensures key != [] ==> Split(key, '_') == KeyWords(text)
  {
    var ws := KeyWords(text);
    var joined := Join(ws, '_');
    JoinedWordsShape(ws);
    CleanupNoOp(joined);
    TrimUnderscores(CollapseUnderscores(joined))
  }

  lemma {:induction false} JoinedWordsShape(ws: seq<string>)
    requires |ws| <= MaxWords
    requires forall k :: 0 <= k < |ws| ==> IsKeyWord(ws[k])
    ensures WellFormedKey(Join(ws, '_'))
    ensures Join(ws, '_') == [] <==> ws == []
    ensures ws != [] ==> Split(Join(ws, '_'), '_') == ws
  {
    JoinedWordsLocal(ws);
    if ws != [] {
      SplitJoin(ws, '_');
    }
  }

  /** The local shape of joined key words: allowed characters, no underscore
      at either end, no two underscores in a row. */
  lemma {:induction false} JoinedWordsLocal(ws: seq<string>)
    requires forall k :: 0 <= k < |ws| ==> IsKeyWord(ws[k])
    ensures var j := Join(ws, '_');
      && (forall i :: 0 <= i < |j| ==> IsKeyChar(j[i]) || j[i] == '_')
      && (ws != [] ==>
            IsKeyWord(ws[0]) && IsKeyWord(Last(ws)) && j != []
            && j[0] == ws[0][0] && j[|j| - 1] == Last(ws)[|Last(ws)| - 1])
      && (forall i :: 0 <= i < |j| - 1 ==> !(j[i] == '_' && j[i + 1] == '_'))
    decreases |ws|
  {
    if |ws| > 1 {
      JoinedWordsLocal(ws[1..]);
      var tail := Join(ws[1..], '_');
      var j := ws[0] + ['_'] + tail;
      assert Join(ws, '_') == j;
      assert Last(ws[1..]) == Last(ws);
      forall i | 0 <= i < |j| - 1
        ensures !(j[i] == '_' && j[i + 1] == '_')
      {
        if i < |ws[0]| {
          assert j[i] == ws[0][i];
        } else {
          assert j[i + 1] == tail[i + 1 - |ws[0]| - 1];
        }
      }
      forall i | 0 <= i < |j|
        ensures IsKeyChar(j[i]) || j[i] == '_'
      {
        if i < |ws[0]| {
          assert j[i] == ws[0][i];
        } else if i > |ws[0]| {
          assert j[i] == tail[i - |ws[0]| - 1];
        }
      }
    }
  }

  function Last<T>(xs: seq<T>): T
    requires xs != []
  {
    xs[|xs| - 1]
  }

  /** Underscore clean-up leaves a well-formed key alone. */
  lemma CleanupNoOp(k: string)
    requires WellFormedKey(k)
    ensures TrimUnderscores(CollapseUnderscores(k)) == k
  {
    CollapseNoOp(k);
  }

  lemma {:induction false} CollapseNoOp(s: string)
    requires forall i :: 0 <= i < |s| - 1 ==> !(s[i] == '_' && s[i + 1] == '_')
    ensures CollapseUnderscores(s) == s
    decreases |s|
  {
    if s != [] {
      CollapseNoOp(s[1..]);
      assert [s[0]] + s[1..] == s;
    }
  }

  /** A key is empty exactly when the text holds no ASCII letter or digit
      (after lower-casing), so such a row can never be stored. */
  lemma EmptyKeyIffNoKeyChar(text: string)
    ensures TextToKey(text) == [] <==> forall i :: 0 <= i < |text| ==> !IsKeyChar(LowerChar(text[i]))
  {
    var lower := Lower(text);
    StripAllSpace(Trim(lower));
    TrimKeepsKeyChars(lower);
    JoinedWordsShape(KeyWords(text));
  }

  lemma KeyCharNotSpace(c: char)
    requires IsKeyChar(c)
    ensures !IsSpace(c) && !('A' <= c <= 'Z')
  {
  }

  /** Trimming removes whitespace only, so a letter or digit survives it. */
  lemma TrimKeepsKeyChars(s: string)
    ensures (forall i :: 0 <= i < |Trim(s)| ==> !IsKeyChar(Trim(s)[i]))
        <==> (forall i :: 0 <= i < |s| ==> !IsKeyChar(s[i]))
  {
    var a := TrimStart(s);
    var b := TrimEnd(a);
    var off := |s| - |a|;
    TrimStartCut(s);
    TrimEndCut(a);
    assert Trim(s) == b;
    assert forall j :: 0 <= j < |b| ==> b[j] == s[j + off];
    if forall j :: 0 <= j < |b| ==> !IsKeyChar(b[j]) {
      forall i | 0 <= i < |s|
        ensures !IsKeyChar(s[i])
      {
        if i < off {
          assert IsSpace(s[..off][i]);
          if IsKeyChar(s[i]) { KeyCharNotSpace(s[i]); }
        } else if i - off >= |b| {
          assert IsSpace(a[|b|..][i - off - |b|]);
          if IsKeyChar(s[i]) { KeyCharNotSpace(s[i]); }
        } else {
          assert s[i] == b[i - off];
        }
      }
    }
  }

  lemma {:induction false} StripAllSpace(s: string)
    ensures AllSpace(Strip(s)) <==> forall i :: 0 <= i < |s| ==> !IsKeyChar(s[i])
    decreases |s|
  {
    if s != [] {
      StripAllSpace(s[1..]);
      var head := if IsKeyChar(s[0]) || IsSpace(s[0]) then [s[0]] else [];
      assert Strip(s) == head + Strip(s[1..]);
      if !AllSpace(Strip(s[1..])) {
        var j :| 0 <= j < |Strip(s[1..])| && !IsSpace(Strip(s[1..])[j]);
        assert Strip(s)[|head| + j] == Strip(s[1..])[j];
      }
      if forall i :: 0 <= i < |s| ==> !IsKeyChar(s[i]) {
        assert forall i :: 0 <= i < |s| - 1 ==> !IsKeyChar(s[1..][i]);
      } else {
        var i :| 0 <= i < |s| && IsKeyChar(s[i]);
        if i > 0 {
          assert IsKeyChar(s[1..][i - 1]);
        } else {
          assert !IsSpace(Strip(s)[0]);
        }
      }
    }
  }
}
