/** Column resolution for an uploaded or pasted grid (src/components/UploadExcel.tsx):
    which column holds the English source text, and which hold the Japanese
    and Malay translations. */
module Columns {
  import opened Wrappers
  import opened Text

  /** A header names the English column when, lower-cased and trimmed, it is
      exactly `english`. */
  predicate IsEnglishHeader(h: string) {
    Trim(Lower(h)) == "english"
  }

  /** `xs.findIndex(p)`: the index of the first element passing `p`. */
  function FirstWhere<T>(xs: seq<T>, p: T -> bool): (r: Option<nat>)
    ensures r.Some? ==> r.value < |xs| && p(xs[r.value])
    ensures r.Some? ==> forall j :: 0 <= j < r.value ==> !p(xs[j])
    ensures r.None? <==> forall j :: 0 <= j < |xs| ==> !p(xs[j])
  {
    if xs == [] then None
    else if p(xs[0]) then Some(0)
    else
      match FirstWhere(xs[1..], p)
      case None => None
      case Some(i) => Some(i + 1)
  }

  /** The reason `findEnglishColumn` rejects: the user declined to treat the
      first column as English. */
  datatype Cancelled = UserCancelled

  /** `findEnglishColumn`, the confirmation dialog reduced to its answer: the
      first English header; failing that column 0 if the user agrees, and a
      rejection otherwise. */
  function FindEnglishColumn(headers: seq<string>, confirmed: bool): (r: Result<nat, Cancelled>)
    ensures r.Err? <==> !confirmed && forall j :: 0 <= j < |headers| ==> !IsEnglishHeader(headers[j])
    ensures r.Ok? && (exists j :: 0 <= j < |headers| && IsEnglishHeader(headers[j])) ==>
      r.value < |headers| && IsEnglishHeader(headers[r.value])
      && forall j :: 0 <= j < r.value ==> !IsEnglishHeader(headers[j])
    ensures r.Ok? && (forall j :: 0 <= j < |headers| ==> !IsEnglishHeader(headers[j])) ==> r.value == 0
  {
    match FirstWhere(headers, IsEnglishHeader)
    case Some(i) => Ok(i)
    case None => if confirmed then Ok(0) else Err(UserCancelled)
  }

  /** Header text that marks a Japanese column (`japan`, `jp` or `ja`). */
  predicate LooksJapanese(name: string) {
    var l := Lower(name);
    Contains(l, "japan") || Contains(l, "jp") || Contains(l, "ja")
  }

  /** Header text that marks a Malay column (`malay` or `ms`). */
  predicate LooksMalay(name: string) {
    var l := Lower(name);
    Contains(l, "malay") || Contains(l, "ms")
  }

  /** The role a header claims: Japanese wins over Malay when both match. */
  predicate ClaimsJapanese(headers: seq<string>, i: nat) {
    i < |headers| && LooksJapanese(headers[i])
  }

  predicate ClaimsMalay(headers: seq<string>, i: nat) {
    i < |headers| && !LooksJapanese(headers[i]) && LooksMalay(headers[i])
  }

  /** The translation columns: `None` plays the part of index `-1`. */
  datatype Roles = Roles(jp: Option<nat>, malay: Option<nat>)

  /** The `forEach` over the columns `0 .. n-1` other than `en`: a Japanese
      header sets the Japanese column, otherwise a Malay header sets the Malay
      column, and a later match overrides an earlier one. */
  function Detect(headers: seq<string>, en: nat, n: nat): (r: Roles)
    requires n <= |headers|
    ensures r.jp.Some? ==> r.jp.value < n && r.jp.value != en && ClaimsJapanese(headers, r.jp.value)
    ensures r.jp.Some? ==> forall i :: r.jp.value < i < n && i != en ==> !ClaimsJapanese(headers, i)
    ensures r.jp.None? ==> forall i :: 0 <= i < n && i != en ==> !ClaimsJapanese(headers, i)
    ensures r.malay.Some? ==> r.malay.value < n && r.malay.value != en && ClaimsMalay(headers, r.malay.value)
    ensures r.malay.Some? ==> forall i :: r.malay.value < i < n && i != en ==> !ClaimsMalay(headers, i)
    ensures r.malay.None? ==> forall i :: 0 <= i < n && i != en ==> !ClaimsMalay(headers, i)
  {
    if n == 0 then Roles(None, None)
    else
      var prev := Detect(headers, en, n - 1);
      var i := n - 1;
      if i == en then prev
      else if LooksJapanese(headers[i]) then prev.(jp := Some(i))
      else if LooksMalay(headers[i]) then prev.(malay := Some(i))
      else prev
  }

  /** `otherColIndices`: the column indices other than `en`, in order. */
  function Others(n: nat, en: nat): (r: seq<nat>)
    ensures forall k :: 0 <= k < |r| ==> r[k] < n && r[k] != en
    ensures forall i :: 0 <= i < n && i != en ==> i in r
    ensures forall k, l :: 0 <= k < l < |r| ==> r[k] < r[l]
    ensures |r| == if en < n then n - 1 else n
  {
    if n == 0 then []
    else Others(n - 1, en) + (if n - 1 != en then [n - 1] else [])
  }

  /** `xs[k]?.index ?? -1`. */
  function At(xs: seq<nat>, k: nat): Option<nat> {
    if k < |xs| then Some(xs[k]) else None
  }

  /** `xs.find(({ index }) => index !== x)?.index ?? -1`. */
  function FirstOtherThan(xs: seq<nat>, x: nat): (r: Option<nat>)
    ensures r.Some? ==> r.value in xs && r.value != x
    ensures r.None? <==> forall k :: 0 <= k < |xs| ==> xs[k] == x
  {
    if xs == [] then None
    else if xs[0] != x then Some(xs[0])
    else FirstOtherThan(xs[1..], x)
  }

  /** The Japanese and Malay columns of `processDataArray`: header detection,
      then the positional fallbacks for three and two columns. */
  function ResolveRoles(headers: seq<string>, en: nat): (r: Roles)
    ensures r.jp.Some? ==> r.jp.value < |headers| && r.jp.value != en
    ensures r.malay.Some? ==> r.malay.value < |headers| && r.malay.value != en
    ensures r.jp.Some? && r.malay.Some? ==> r.jp.value != r.malay.value
    ensures var d := Detect(headers, en, |headers|);
      (d.jp.Some? ==> r.jp == d.jp) && (d.malay.Some? ==> r.malay == d.malay)
  {
    var n := |headers|;
    var d := Detect(headers, en, n);
    var others := Others(n, en);
    if d.jp.None? && d.malay.None? then
      if n == 3 then Roles(At(others, 0), At(others, 1))
      else if n == 2 then Roles(At(others, 0), None)
      else d
    else if d.jp.None? then
      if n == 3 then d.(jp := FirstOtherThan(others, d.malay.value)) else d
    else if d.malay.None? && n == 3 then
      d.(malay := FirstOtherThan(others, d.jp.value))
    else d
  }

  /** The two columns other than `en` among three, in ascending order. */
  lemma OthersOfThree(en: nat)
    requires en < 3
    ensures Others(3, en) == [if en == 0 then 1 else 0, if en == 2 then 1 else 2]
  {
    assert Others(0, en) == [];
  }

  /** The column other than `en` among two. */
  lemma OthersOfTwo(en: nat)
    requires en < 2
    ensures Others(2, en) == [1 - en]
  {
    assert Others(0, en) == [];
  }

  /** The positional fallbacks. With three columns and no language header,
      the lower non-English column is Japanese and the higher one Malay;
      with two, the other column is Japanese. With three columns and only
      one language found from its header, the other language takes the
      lower non-English column not already taken. With any other number of
      columns nothing is added to what the headers gave. */
  lemma FallbackOrder(headers: seq<string>, en: nat)
    ensures var d := Detect(headers, en, |headers|);
      var r := ResolveRoles(headers, en);
      var lo, hi := if en == 0 then 1 else 0, if en == 2 then 1 else 2;
      && (d.jp.None? && d.malay.None? && |headers| == 3 && en < 3 ==> r.jp == Some(lo) && r.malay == Some(hi))
      && (d.jp.None? && d.malay.None? && |headers| == 2 && en < 2 ==> r.jp == Some(1 - en) && r.malay == None)
      && (d.jp.None? && d.malay.Some? && |headers| == 3 && en < 3 ==> r.jp == Some(if d.malay.value == lo then hi else lo))
      && (d.jp.Some? && d.malay.None? && |headers| == 3 && en < 3 ==> r.malay == Some(if d.jp.value == lo then hi else lo))
      && (|headers| != 2 && |headers| != 3 ==> r == d)
  {
    if |headers| == 3 && en < 3 {
      OthersOfThree(en);
      var lo, hi := if en == 0 then 1 else 0, if en == 2 then 1 else 2;
      forall x: nat
        ensures FirstOtherThan([lo, hi], x) == Some(if x == lo then hi else lo)
      {
        if x == lo {
          assert [lo, hi][1..] == [hi];
        }
      }
    } else if |headers| == 2 && en < 2 {
      OthersOfTwo(en);
    }
  }

  /** With three columns both translation columns are assigned. */
  lemma ThreeColumnsBothAssigned(headers: seq<string>, en: nat)
    requires |headers| == 3
    ensures ResolveRoles(headers, en).jp.Some?
    ensures ResolveRoles(headers, en).malay.Some?
  {
    var others := Others(3, en);
    assert others[0] != others[1];
  }

  /** With two columns and the English column among them, exactly one
      translation column is assigned: Malay when the other header names
      Malay, Japanese otherwise. */
  lemma TwoColumnsOneAssigned(headers: seq<string>, en: nat)
    requires |headers| == 2 && en < 2
    ensures var r := ResolveRoles(headers, en);
      (r.jp.Some? != r.malay.Some?)
      && (r.malay.Some? <==> ClaimsMalay(headers, 1 - en))
      && (r.jp.Some? ==> r.jp.value == 1 - en)
      && (r.malay.Some? ==> r.malay.value == 1 - en)
  {
    var other := 1 - en;
    OthersOfTwo(en);
    var d := Detect(headers, en, 2);
    assert d.jp.Some? ==> d.jp.value == other;
    assert d.malay.Some? ==> d.malay.value == other;
    assert d.jp.Some? <==> ClaimsJapanese(headers, other);
    assert d.malay.Some? <==> ClaimsMalay(headers, other);
  }
}
