/** The figures of src/components/StatisticsCard.tsx, computed from the saved
    store: how many English keys there are, how many of them have both
    translations, how many lack one, and the completion percentage. */
module Statistics {
  import opened Wrappers
  import opened Translations
  import opened Storage

  /** `translations.jp[key] && translations.malay[key]`: both translations
      present and non-empty. */
  predicate IsComplete(t: AllTranslations, key: string) {
    Lookup(t.jp, key) != "" && Lookup(t.malay, key) != ""
  }

  /** The English keys with both translations. */
  function CompleteKeys(t: AllTranslations): (ks: set<string>)
    ensures ks <= t.en.Keys
    ensures forall k :: k in ks <==> k in t.en && IsComplete(t, k)
  {
    set k | k in t.en.Keys && IsComplete(t, k)
  }

  /** The English keys missing a translation. */
  function IncompleteKeys(t: AllTranslations): (ks: set<string>)
    ensures ks <= t.en.Keys
    ensures forall k :: k in ks <==> k in t.en && !IsComplete(t, k)
  {
    set k | k in t.en.Keys && !IsComplete(t, k)
  }

  /** The four figures of the card. */
  datatype Stats = Stats(total: nat, complete: nat, incomplete: nat, percent: nat)

  /** `Math.round(x)` for a non-negative rational `num / den`: the nearest
      integer, halves rounded up. */
  function RoundDiv(num: nat, den: nat): (r: nat)
    requires den > 0
    ensures 2 * den * r <= 2 * num + den < 2 * den * (r + 1)
  {
    var x := 2 * num + den;
    var d := 2 * den;
    var q := x / d;
    assert x == d * q + x % d;
    q
  }

  /** The completion percentage: `Math.round(complete / total * 100)`, or 0
      when there are no keys. It lies between 0 and 100, is 100 when every
      key is complete and 0 when none is. */
  function Percent(complete: nat, total: nat): (p: nat)
    requires complete <= total
    ensures p <= 100
    ensures total == 0 ==> p == 0
    ensures total > 0 && complete == total ==> p == 100
    ensures complete == 0 ==> p == 0
    ensures total > 0 ==> 2 * total * p <= 200 * complete + total < 2 * total * (p + 1)
  {
    if total > 0 then
      var p := RoundDiv(100 * complete, total);
      RoundedPercentBounds(complete, total, p);
      p
    else 0
  }

  lemma MulLeft(a: int, b: int, c: nat)
    requires a <= b
    ensures c * a <= c * b
  {
  }

  /** The percentage rounded to the nearest integer stays within 0..100 and
      hits both ends exactly when the ratio does. */
  lemma RoundedPercentBounds(complete: nat, total: nat, p: nat)
    requires 0 < total && complete <= total
    requires 2 * total * p <= 200 * complete + total < 2 * total * (p + 1)
    ensures p <= 100
    ensures complete == total ==> p == 100
    ensures complete == 0 ==> p == 0
  {
    MulLeft(complete, total, 200);
    if p > 100 {
      MulLeft(101, p, 2 * total);
      assert false;
    }
    if complete == 0 && p > 0 {
      MulLeft(1, p, 2 * total);
      assert false;
    }
    if complete == total && p < 100 {
      MulLeft(p + 1, 100, 2 * total);
      assert false;
    }
  }

  /** The card: nothing when no store is saved; otherwise the counts over the
      English keys, with the incomplete count the rest of the total. */
  function Card(s: Store): (r: Option<Stats>)
    ensures r.None? <==> GetTranslations(s).None?
    ensures r.Some? ==>
      var t := GetTranslations(s).value;
      && r.value.total == |t.en.Keys|
      && r.value.complete == |CompleteKeys(t)|
      && r.value.incomplete == |IncompleteKeys(t)|
      && r.value.complete + r.value.incomplete == r.value.total
      && r.value.percent <= 100
    ensures r.Some? ==> r.value.complete <= r.value.total && r.value.percent == Percent(r.value.complete, r.value.total)
  {
    match GetTranslations(s)
    case None => None
    case Some(t) =>
      var total := |t.en.Keys|;
      var complete := |CompleteKeys(t)|;
      SplitKeys(t);
      Some(Stats(total, complete, total - complete, Percent(complete, total)))
  }

  /** The English keys split into the complete and the incomplete ones. */
  lemma SplitKeys(t: AllTranslations)
    ensures |CompleteKeys(t)| + |IncompleteKeys(t)| == |t.en.Keys|
  {
    var c := CompleteKeys(t);
    var i := IncompleteKeys(t);
    assert c + i == t.en.Keys;
    assert c * i == {};
  }

  /** Every key is complete exactly when the card shows 100% and as many
      complete keys as keys; with no keys the card shows 0%. */
  lemma AllCompleteShowsFull(s: Store)
    requires s.main.Holds?
    ensures var r := Card(s).value;
      (r.complete == r.total <==> forall k :: k in s.main.t.en ==> IsComplete(s.main.t, k))
      && (r.complete == r.total && r.total > 0 ==> r.percent == 100)
      && (r.total == 0 ==> r.percent == 0)
  {
    var t := s.main.t;
    var r := Card(s).value;
    if r.complete == r.total {
      assert |IncompleteKeys(t)| == 0;
      assert IncompleteKeys(t) == {};
    }
    if forall k :: k in t.en ==> IsComplete(t, k) {
      assert IncompleteKeys(t) == {};
    }
  }
}
