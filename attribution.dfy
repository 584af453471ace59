/**
 * The attribution ranking behind the explanation: pair the explainer's
 * attribution row with the schema names, rank by magnitude, split by sign,
 * keep the top entries of each side and reconstruct the predicted value.
 */
module Attribution {

  /** One `{"feature": f, "value": v}` entry. */
  datatype FeatureValue = FeatureValue(feature: string, value: real)

  /** What the explanation reports (the dictionary `get_feature_importance` returns). */
  datatype Importance = Importance(
    shapValues: seq<FeatureValue>,   // the ordered dictionary, as its items in insertion order
    topPositive: seq<FeatureValue>,
    topNegative: seq<FeatureValue>,
    baseValue: real,
    predictionValue: real)

  function Abs(x: real): real { if x < 0.0 then -x else x }

  function Min(a: int, b: int): int { if a <= b then a else b }

  function Max(a: int, b: int): int { if a >= b then a else b }

  /** Python's `zip`: pairs positionally and stops at the shorter sequence. */
  function Zip(names: seq<string>, vals: seq<real>): (pairs: seq<FeatureValue>)
    ensures |pairs| == Min(|names|, |vals|)
  {
    if names == [] || vals == [] then []
    else [FeatureValue(names[0], vals[0])] + Zip(names[1..], vals[1..])
  }

  /** Python's `sum`. */
  function Sum(vals: seq<real>): real {
    if vals == [] then 0.0 else vals[0] + Sum(vals[1..])
  }

  /** The sum of the values of a list of entries. */
  function SumValues(items: seq<FeatureValue>): real {
    if items == [] then 0.0 else items[0].value + SumValues(items[1..])
  }

  predicate DistinctNames(names: seq<string>) {
    forall i, j :: 0 <= i < j < |names| ==> names[i] != names[j]
  }

  /** No two entries share a feature name: the items of a dictionary. */
  predicate DistinctKeys(items: seq<FeatureValue>) {
    forall i, j :: 0 <= i < j < |items| ==> items[i].feature != items[j].feature
  }

  /** `d[fv.feature] = fv.value` on an insertion-ordered dictionary: update in place, or append. */
  function Upsert(items: seq<FeatureValue>, fv: FeatureValue): (r: seq<FeatureValue>)
    ensures |items| <= |r| <= |items| + 1
  {
    if items == [] then [fv]
    else if items[0].feature == fv.feature then [fv] + items[1..]
    else [items[0]] + Upsert(items[1..], fv)
  }

  /** The dictionary comprehension `{f: v for f, v in pairs}`. */
  function BuildDict(pairs: seq<FeatureValue>): (d: seq<FeatureValue>)
    ensures |d| <= |pairs|
    ensures pairs != [] ==> 0 < |d|
    decreases |pairs|
  {
    if pairs == [] then [] else Upsert(BuildDict(pairs[..|pairs| - 1]), pairs[|pairs| - 1])
  }

  /** The entries of `s` that `keep` accepts, in their order in `s`. */
  function Filter(s: seq<FeatureValue>, keep: FeatureValue -> bool): (r: seq<FeatureValue>)
    ensures |r| <= |s|
  {
    if s == [] then [] else (if keep(s[0]) then [s[0]] else []) + Filter(s[1..], keep)
  }

  /** The kept entries are exactly the entries of `s` that `keep` accepts. */
  lemma {:induction false} FilterMembers(s: seq<FeatureValue>, keep: FeatureValue -> bool)
    ensures forall x :: x in Filter(s, keep) <==> x in s && keep(x)
  {
    if s != [] {
      FilterMembers(s[1..], keep);
      assert s == [s[0]] + s[1..];
    }
  }

  predicate IsPositive(fv: FeatureValue) { fv.value > 0.0 }

  predicate IsNegative(fv: FeatureValue) { fv.value < 0.0 }

  function HasMagnitude(m: real): FeatureValue -> bool {
    (fv: FeatureValue) => Abs(fv.value) == m
  }

  /** Ordered by non-increasing absolute value. */
  predicate ByMagnitude(s: seq<FeatureValue>) {
    forall i, j :: 0 <= i < j < |s| ==> Abs(s[i].value) >= Abs(s[j].value)
  }

  /** Insert `fv` before the first entry whose magnitude does not exceed its own. */
  function InsertByMagnitude(fv: FeatureValue, s: seq<FeatureValue>): seq<FeatureValue> {
    if s == [] then [fv]
    else if Abs(fv.value) >= Abs(s[0].value) then [fv] + s
    else [s[0]] + InsertByMagnitude(fv, s[1..])
  }

  /** `sorted(s, key=lambda x: abs(x[1]), reverse=True)`, which is stable. */
  function SortByMagnitude(s: seq<FeatureValue>): seq<FeatureValue> {
    if s == [] then [] else InsertByMagnitude(s[0], SortByMagnitude(s[1..]))
  }

  /** Python's slice `s[:n]`, where a negative `n` drops that many entries from the end. */
  function SliceTo(s: seq<FeatureValue>, n: int): (r: seq<FeatureValue>)
    ensures |r| <= |s| && r == s[..|r|]
    ensures n >= 0 ==> |r| == Min(n, |s|)
    ensures n < 0 ==> |r| == Max(0, |s| + n)
  {
    if n >= 0 then s[..Min(n, |s|)] else s[..Max(0, |s| + n)]
  }

  // ---------------------------------------------------------------------
  // The ordered dictionary
  // ---------------------------------------------------------------------

  lemma {:induction false} UpsertContains(items: seq<FeatureValue>, fv: FeatureValue)
    ensures fv in Upsert(items, fv)
  {
    if items != [] && items[0].feature != fv.feature {
      UpsertContains(items[1..], fv);
    }
  }

  lemma {:induction false} UpsertKeepsOthers(items: seq<FeatureValue>, fv: FeatureValue, x: FeatureValue)
    requires x in items && x.feature != fv.feature
    ensures x in Upsert(items, fv)
  {
    if items[0] != x {
      UpsertKeepsOthers(items[1..], fv, x);
    }
  }

  lemma {:induction false} UpsertMembers(items: seq<FeatureValue>, fv: FeatureValue, x: FeatureValue)
    requires x in Upsert(items, fv)
    ensures x == fv || x in items
  {
    if items != [] && items[0].feature != fv.feature && x != items[0] {
      UpsertMembers(items[1..], fv, x);
    }
  }

  /** A name not yet in the dictionary is appended at the end. */
  lemma {:induction false} UpsertFresh(items: seq<FeatureValue>, fv: FeatureValue)
    requires forall i :: 0 <= i < |items| ==> items[i].feature != fv.feature
    ensures Upsert(items, fv) == items + [fv]
  {
    if items != [] {
      UpsertFresh(items[1..], fv);
    }
  }

  lemma {:induction false} UpsertDistinct(items: seq<FeatureValue>, fv: FeatureValue)
    requires DistinctKeys(items)
    ensures DistinctKeys(Upsert(items, fv))
  {
    if items != [] && items[0].feature != fv.feature {
      UpsertDistinct(items[1..], fv);
      var r := Upsert(items[1..], fv);
      forall x | x in r ensures x.feature != items[0].feature {
        UpsertMembers(items[1..], fv, x);
      }
      assert Upsert(items, fv) == [items[0]] + r;
    }
  }

  /** The dictionary built from any pairs has one entry per name. */
  lemma {:induction false} BuildDictDistinct(pairs: seq<FeatureValue>)
    ensures DistinctKeys(BuildDict(pairs))
  {
    if pairs != [] {
      BuildDictDistinct(pairs[..|pairs| - 1]);
      UpsertDistinct(BuildDict(pairs[..|pairs| - 1]), pairs[|pairs| - 1]);
    }
  }

  /** Every entry of the dictionary is one of the pairs. */
  lemma {:induction false} BuildDictMembers(pairs: seq<FeatureValue>, x: FeatureValue)
    requires x in BuildDict(pairs)
    ensures x in pairs
  {
    var front := pairs[..|pairs| - 1];
    UpsertMembers(BuildDict(front), pairs[|pairs| - 1], x);
    if x != pairs[|pairs| - 1] {
      BuildDictMembers(front, x);
    }
  }

  /** The last pair written for a name is the one the dictionary keeps. */
  lemma {:induction false} BuildDictLastWins(pairs: seq<FeatureValue>, i: int)
    requires 0 <= i < |pairs|
    requires forall j :: i < j < |pairs| ==> pairs[j].feature != pairs[i].feature
    ensures pairs[i] in BuildDict(pairs)
  {
    var front := pairs[..|pairs| - 1];
    if i == |pairs| - 1 {
      UpsertContains(BuildDict(front), pairs[i]);
    } else {
      BuildDictLastWins(front, i);
      UpsertKeepsOthers(BuildDict(front), pairs[|pairs| - 1], pairs[i]);
    }
  }

  /** With distinct names the dictionary is the pairs themselves, in order. */
  lemma {:induction false} BuildDictOfDistinct(pairs: seq<FeatureValue>)
    requires DistinctKeys(pairs)
    ensures BuildDict(pairs) == pairs
  {
    if pairs != [] {
      var front := pairs[..|pairs| - 1];
      BuildDictOfDistinct(front);
      UpsertFresh(front, pairs[|pairs| - 1]);
      assert front + [pairs[|pairs| - 1]] == pairs;
    }
  }

  lemma {:induction false} ZipAt(names: seq<string>, vals: seq<real>, i: int)
    requires 0 <= i < Min(|names|, |vals|)
    ensures Zip(names, vals)[i] == FeatureValue(names[i], vals[i])
  {
    if i > 0 {
      ZipAt(names[1..], vals[1..], i - 1);
    }
  }

  lemma ZipDistinct(names: seq<string>, vals: seq<real>)
    requires DistinctNames(names)
    ensures DistinctKeys(Zip(names, vals))
  {
    var z := Zip(names, vals);
    forall i, j | 0 <= i < j < |z| ensures z[i].feature != z[j].feature {
      ZipAt(names, vals, i);
      ZipAt(names, vals, j);
    }
  }

  lemma {:induction false} ZipSum(names: seq<string>, vals: seq<real>)
    requires |vals| <= |names|
    ensures SumValues(Zip(names, vals)) == Sum(vals)
  {
    if vals != [] {
      ZipSum(names[1..], vals[1..]);
    }
  }

  // ---------------------------------------------------------------------
  // Filtering
  // ---------------------------------------------------------------------

  lemma {:induction false} FilterConcat(a: seq<FeatureValue>, b: seq<FeatureValue>, keep: FeatureValue -> bool)
    ensures Filter(a + b, keep) == Filter(a, keep) + Filter(b, keep)
  {
    if a != [] {
      var head := if keep(a[0]) then [a[0]] else [];
      assert (a + b)[0] == a[0];
      assert (a + b)[1..] == a[1..] + b;
      FilterConcat(a[1..], b, keep);
      assert Filter(a + b, keep) == head + Filter(a[1..] + b, keep);
      assert Filter(a, keep) == head + Filter(a[1..], keep);
    } else {
      assert a + b == b;
    }
  }

  lemma {:induction false} FilterCommute(s: seq<FeatureValue>, f: FeatureValue -> bool, g: FeatureValue -> bool)
    ensures Filter(Filter(s, f), g) == Filter(Filter(s, g), f)
  {
    if s != [] {
      FilterCommute(s[1..], f, g);
      var head := if f(s[0]) then [s[0]] else [];
      FilterConcat(head, Filter(s[1..], f), g);
      var head' := if g(s[0]) then [s[0]] else [];
      FilterConcat(head', Filter(s[1..], g), f);
    }
  }

  lemma {:induction false} FilterCount(s: seq<FeatureValue>, keep: FeatureValue -> bool, x: FeatureValue)
    ensures multiset(Filter(s, keep))[x] == if keep(x) then multiset(s)[x] else 0
  {
    if s != [] {
      FilterCount(s[1..], keep, x);
      var head := if keep(s[0]) then [s[0]] else [];
      assert Filter(s, keep) == head + Filter(s[1..], keep);
      assert multiset(Filter(s, keep)) == multiset(head) + multiset(Filter(s[1..], keep));
      assert s == [s[0]] + s[1..];
      assert multiset(s) == multiset([s[0]]) + multiset(s[1..]);
    }
  }

  lemma FilterPermutation(s: seq<FeatureValue>, t: seq<FeatureValue>, keep: FeatureValue -> bool)
    requires multiset(s) == multiset(t)
    ensures multiset(Filter(s, keep)) == multiset(Filter(t, keep))
  {
    forall x ensures multiset(Filter(s, keep))[x] == multiset(Filter(t, keep))[x] {
      FilterCount(s, keep, x);
      FilterCount(t, keep, x);
    }
  }

  lemma ConsByMagnitude(a: FeatureValue, t: seq<FeatureValue>)
    requires ByMagnitude(t)
    requires forall x :: x in t ==> Abs(a.value) >= Abs(x.value)
    ensures ByMagnitude([a] + t)
  {
    var s := [a] + t;
    forall i, j | 0 <= i < j < |s| ensures Abs(s[i].value) >= Abs(s[j].value) {
      if i > 0 {
        assert s[i] == t[i - 1] && s[j] == t[j - 1];
      } else {
        assert s[j] in t;
      }
    }
  }

  lemma {:induction false} FilterByMagnitude(s: seq<FeatureValue>, keep: FeatureValue -> bool)
    requires ByMagnitude(s)
    ensures ByMagnitude(Filter(s, keep))
  {
    if s != [] {
      assert ByMagnitude(s[1..]) by {
        forall i, j | 0 <= i < j < |s| - 1 ensures Abs(s[1..][i].value) >= Abs(s[1..][j].value) {
          assert s[1..][i] == s[i + 1] && s[1..][j] == s[j + 1];
        }
      }
      FilterByMagnitude(s[1..], keep);
      if keep(s[0]) {
        FilterMembers(s[1..], keep);
        forall x | x in Filter(s[1..], keep) ensures Abs(s[0].value) >= Abs(x.value) {
          var j :| 0 <= j < |s[1..]| && s[1..][j] == x;
          assert s[j + 1] == x;
        }
        ConsByMagnitude(s[0], Filter(s[1..], keep));
      }
    }
  }

  // ---------------------------------------------------------------------
  // Sorting
  // ---------------------------------------------------------------------

  lemma {:induction false} InsertPermutation(fv: FeatureValue, s: seq<FeatureValue>)
    ensures multiset(InsertByMagnitude(fv, s)) == multiset(s) + multiset{fv}
  {
    if s != [] && Abs(fv.value) < Abs(s[0].value) {
      InsertPermutation(fv, s[1..]);
      assert s == [s[0]] + s[1..];
    }
  }

  lemma {:induction false} InsertOrdered(fv: FeatureValue, s: seq<FeatureValue>)
    requires ByMagnitude(s)
    ensures ByMagnitude(InsertByMagnitude(fv, s))
  {
    if s == [] {
    } else if Abs(fv.value) >= Abs(s[0].value) {
      forall x | x in s ensures Abs(fv.value) >= Abs(x.value) {
        var j :| 0 <= j < |s| && s[j] == x;
        assert j == 0 || Abs(s[0].value) >= Abs(s[j].value);
      }
      ConsByMagnitude(fv, s);
    } else {
      var tail := s[1..];
      assert ByMagnitude(tail) by {
        forall i, j | 0 <= i < j < |tail| ensures Abs(tail[i].value) >= Abs(tail[j].value) {
          assert tail[i] == s[i + 1] && tail[j] == s[j + 1];
        }
      }
      InsertOrdered(fv, tail);
      InsertPermutation(fv, tail);
      forall x | x in InsertByMagnitude(fv, tail) ensures Abs(s[0].value) >= Abs(x.value) {
        assert x in multiset(InsertByMagnitude(fv, tail));
        if x != fv {
          assert x in multiset(tail);
          var j :| 0 <= j < |tail| && tail[j] == x;
          assert s[j + 1] == x;
        }
      }
      ConsByMagnitude(s[0], InsertByMagnitude(fv, tail));
    }
  }

  /** The sort returns a permutation of its input ordered by non-increasing magnitude. */
  lemma {:induction false} SortSpec(s: seq<FeatureValue>)
    ensures ByMagnitude(SortByMagnitude(s))
    ensures multiset(SortByMagnitude(s)) == multiset(s)
  {
    if s != [] {
      SortSpec(s[1..]);
      InsertOrdered(s[0], SortByMagnitude(s[1..]));
      InsertPermutation(s[0], SortByMagnitude(s[1..]));
      assert s == [s[0]] + s[1..];
    }
  }

  lemma {:induction false} InsertStable(fv: FeatureValue, s: seq<FeatureValue>, m: real)
    ensures Filter(InsertByMagnitude(fv, s), HasMagnitude(m)) == Filter([fv] + s, HasMagnitude(m))
  {
    if s != [] && Abs(fv.value) < Abs(s[0].value) {
      var h := HasMagnitude(m);
      var t := s[1..];
      InsertStable(fv, t, m);
      assert InsertByMagnitude(fv, s) == [s[0]] + InsertByMagnitude(fv, t);
      FilterConcat([s[0]], InsertByMagnitude(fv, t), h);
      FilterConcat([fv], t, h);
      assert s == [s[0]] + t;
      FilterConcat([s[0]], t, h);
      FilterConcat([fv], s, h);
      // fv and s[0] differ in magnitude, so at most one of them is kept
      assert Filter([fv], h) == [] || Filter([s[0]], h) == [];
    }
  }

  /** Stability: entries of equal magnitude keep their relative order. */
  lemma {:induction false} SortStable(s: seq<FeatureValue>, m: real)
    ensures Filter(SortByMagnitude(s), HasMagnitude(m)) == Filter(s, HasMagnitude(m))
  {
    if s != [] {
      SortStable(s[1..], m);
      InsertStable(s[0], SortByMagnitude(s[1..]), m);
      FilterConcat([s[0]], SortByMagnitude(s[1..]), HasMagnitude(m));
      FilterConcat([s[0]], s[1..], HasMagnitude(m));
      assert s == [s[0]] + s[1..];
    }
  }

  /** Dropping an entry that is not kept before inserting it changes nothing after filtering. */
  lemma {:induction false} FilterInsertDropped(fv: FeatureValue, t: seq<FeatureValue>, keep: FeatureValue -> bool)
    requires !keep(fv)
    ensures Filter(InsertByMagnitude(fv, t), keep) == Filter(t, keep)
  {
    if t == [] {
    } else if Abs(fv.value) >= Abs(t[0].value) {
      FilterConcat([fv], t, keep);
    } else {
      FilterInsertDropped(fv, t[1..], keep);
      FilterConcat([t[0]], InsertByMagnitude(fv, t[1..]), keep);
      FilterConcat([t[0]], t[1..], keep);
      assert t == [t[0]] + t[1..];
    }
  }

  lemma TailByMagnitude(t: seq<FeatureValue>)
    requires t != [] && ByMagnitude(t)
    ensures ByMagnitude(t[1..])
  {
    var tail := t[1..];
    forall i, j | 0 <= i < j < |tail| ensures Abs(tail[i].value) >= Abs(tail[j].value) {
      assert tail[i] == t[i + 1] && tail[j] == t[j + 1];
    }
  }

  /** In a ranking, nothing a filter keeps outranks the head. */
  lemma FilterBelowHead(t: seq<FeatureValue>, keep: FeatureValue -> bool)
    requires t != [] && ByMagnitude(t)
    ensures forall x :: x in Filter(t, keep) ==> Abs(x.value) <= Abs(t[0].value)
  {
    FilterMembers(t, keep);
    forall x | x in Filter(t, keep) ensures Abs(x.value) <= Abs(t[0].value) {
      var j :| 0 <= j < |t| && t[j] == x;
      assert j == 0 || Abs(t[0].value) >= Abs(t[j].value);
    }
  }

  /** A kept entry at least as large as the head of a ranking goes in front, before and after filtering. */
  lemma FilterInsertKeptFront(fv: FeatureValue, t: seq<FeatureValue>, keep: FeatureValue -> bool)
    requires keep(fv) && t != [] && ByMagnitude(t) && Abs(fv.value) >= Abs(t[0].value)
    ensures Filter(InsertByMagnitude(fv, t), keep) == InsertByMagnitude(fv, Filter(t, keep))
  {
    assert InsertByMagnitude(fv, t) == [fv] + t;
    assert ([fv] + t)[0] == fv && ([fv] + t)[1..] == t;
    var f := Filter(t, keep);
    if f != [] {
      FilterBelowHead(t, keep);
      assert f[0] in f;
    }
  }

  /** A kept entry smaller than the head of a ranking is inserted behind it, before and after filtering. */
  lemma FilterInsertKeptBehind(fv: FeatureValue, t: seq<FeatureValue>, keep: FeatureValue -> bool)
    requires keep(fv) && t != [] && Abs(fv.value) < Abs(t[0].value)
    requires Filter(InsertByMagnitude(fv, t[1..]), keep) == InsertByMagnitude(fv, Filter(t[1..], keep))
    ensures Filter(InsertByMagnitude(fv, t), keep) == InsertByMagnitude(fv, Filter(t, keep))
  {
    var tail := t[1..];
    var g := InsertByMagnitude(fv, tail);
    assert InsertByMagnitude(fv, t) == [t[0]] + g;
    assert ([t[0]] + g)[0] == t[0] && ([t[0]] + g)[1..] == g;
    var f := Filter(tail, keep);
    if keep(t[0]) {
      assert Filter(t, keep) == [t[0]] + f;
      assert ([t[0]] + f)[0] == t[0] && ([t[0]] + f)[1..] == f;
    } else {
      assert Filter(t, keep) == f;
    }
  }

  /** Filtering a ranking commutes with inserting an entry that is kept. */
  lemma {:induction false} FilterInsertKept(fv: FeatureValue, t: seq<FeatureValue>, keep: FeatureValue -> bool)
    requires keep(fv) && ByMagnitude(t)
    ensures Filter(InsertByMagnitude(fv, t), keep) == InsertByMagnitude(fv, Filter(t, keep))
  {
    if t == [] {
    } else if Abs(fv.value) >= Abs(t[0].value) {
      FilterInsertKeptFront(fv, t, keep);
    } else {
      TailByMagnitude(t);
      FilterInsertKept(fv, t[1..], keep);
      FilterInsertKeptBehind(fv, t, keep);
    }
  }

  /**
   * Sorting everything and then keeping one sign gives the same list as keeping
   * that sign and then sorting: the ranking does not depend on the other sign.
   */
  lemma {:induction false} SortFilterCommute(s: seq<FeatureValue>, keep: FeatureValue -> bool)
    ensures Filter(SortByMagnitude(s), keep) == SortByMagnitude(Filter(s, keep))
  {
    if s != [] {
      var rest := s[1..];
      SortFilterCommute(rest, keep);
      SortSpec(rest);
      var f := Filter(rest, keep);
      assert SortByMagnitude(s) == InsertByMagnitude(s[0], SortByMagnitude(rest));
      if keep(s[0]) {
        FilterInsertKept(s[0], SortByMagnitude(rest), keep);
        assert Filter(s, keep) == [s[0]] + f;
        assert ([s[0]] + f)[0] == s[0] && ([s[0]] + f)[1..] == f;
        assert SortByMagnitude([s[0]] + f) == InsertByMagnitude(s[0], SortByMagnitude(f));
      } else {
        FilterInsertDropped(s[0], SortByMagnitude(rest), keep);
        assert Filter(s, keep) == f;
      }
    }
  }

  // ---------------------------------------------------------------------
  // Ranking
  // ---------------------------------------------------------------------

  /** The first `n` entries `keep` accepts, in the magnitude ranking of `items`. */
  function Top(items: seq<FeatureValue>, keep: FeatureValue -> bool, n: int): seq<FeatureValue> {
    SliceTo(Filter(SortByMagnitude(items), keep), n)
  }

  /** Filtering the ranking keeps it ranked and keeps exactly the accepted entries. */
  lemma RankedFilter(items: seq<FeatureValue>, keep: FeatureValue -> bool)
    ensures ByMagnitude(Filter(SortByMagnitude(items), keep))
    ensures |Filter(SortByMagnitude(items), keep)| == |Filter(items, keep)|
    ensures forall x :: x in Filter(SortByMagnitude(items), keep) <==> x in items && keep(x)
  {
    var ranked := SortByMagnitude(items);
    SortSpec(items);
    var p := Filter(ranked, keep);
    FilterByMagnitude(ranked, keep);
    FilterPermutation(ranked, items, keep);
    FilterMembers(ranked, keep);
    assert |multiset(p)| == |multiset(Filter(items, keep))|;
    forall x ensures x in p <==> x in items && keep(x) {
      assert x in ranked <==> x in multiset(ranked);
      assert x in items <==> x in multiset(items);
    }
  }

  /** A prefix of a ranked sequence is ranked and outranks everything it leaves out. */
  lemma PrefixOutranksRest(p: seq<FeatureValue>, n: int)
    requires ByMagnitude(p)
    ensures ByMagnitude(SliceTo(p, n))
    ensures forall x :: x in p && x !in SliceTo(p, n) ==>
              forall i :: 0 <= i < |SliceTo(p, n)| ==> Abs(SliceTo(p, n)[i].value) >= Abs(x.value)
  {
    var top := SliceTo(p, n);
    forall i, j | 0 <= i < j < |top| ensures Abs(top[i].value) >= Abs(top[j].value) {
      assert top[i] == p[i] && top[j] == p[j];
    }
    forall x | x in p && x !in top
      ensures forall i :: 0 <= i < |top| ==> Abs(top[i].value) >= Abs(x.value)
    {
      var j :| 0 <= j < |p| && p[j] == x;
      forall i | 0 <= i < |top| ensures Abs(top[i].value) >= Abs(x.value) {
        assert top[i] == p[i];
      }
    }
  }

  /**
   * The selected entries are accepted entries of `items`, ranked by magnitude,
   * at most `n` of them (all of them when fewer), and no accepted entry left out
   * outranks a selected one.
   */
  lemma TopSpec(items: seq<FeatureValue>, keep: FeatureValue -> bool, n: int)
    ensures forall i :: 0 <= i < |Top(items, keep, n)| ==> keep(Top(items, keep, n)[i]) && Top(items, keep, n)[i] in items
    ensures ByMagnitude(Top(items, keep, n))
    ensures n >= 0 ==> |Top(items, keep, n)| == Min(n, |Filter(items, keep)|)
    ensures forall x :: x in items && keep(x) && x !in Top(items, keep, n) ==>
              forall i :: 0 <= i < |Top(items, keep, n)| ==> Abs(Top(items, keep, n)[i].value) >= Abs(x.value)
  {
    var p := Filter(SortByMagnitude(items), keep);
    RankedFilter(items, keep);
    PrefixOutranksRest(p, n);
    var top := SliceTo(p, n);
    forall i | 0 <= i < |top| ensures keep(top[i]) && top[i] in items {
      assert top[i] == p[i];
    }
  }

  /**
   * `get_feature_importance` after the explainer has run: `vals` and `base`
   * are the explainer's attribution row and base value for the one input row.
   */
  function Rank(names: seq<string>, vals: seq<real>, base: real, topN: int): (r: Importance)
    ensures DistinctKeys(r.shapValues)
    ensures forall x :: x in r.shapValues ==> x in Zip(names, vals)
    ensures forall i :: 0 <= i < |r.topPositive| ==> r.topPositive[i].value > 0.0 && r.topPositive[i] in r.shapValues
    ensures forall i :: 0 <= i < |r.topNegative| ==> r.topNegative[i].value < 0.0 && r.topNegative[i] in r.shapValues
    ensures topN >= 0 ==> |r.topPositive| == Min(topN, |Filter(r.shapValues, IsPositive)|)
    ensures topN >= 0 ==> |r.topNegative| == Min(topN, |Filter(r.shapValues, IsNegative)|)
    ensures ByMagnitude(r.topPositive) && ByMagnitude(r.topNegative)
    ensures forall x :: x in r.shapValues && x.value > 0.0 && x !in r.topPositive ==>
              forall i :: 0 <= i < |r.topPositive| ==> r.topPositive[i].value >= x.value
    ensures forall x :: x in r.shapValues && x.value < 0.0 && x !in r.topNegative ==>
              forall i :: 0 <= i < |r.topNegative| ==> r.topNegative[i].value <= x.value
    ensures r.baseValue == base && r.predictionValue == base + Sum(vals)
  {
    var shap := BuildDict(Zip(names, vals));
    BuildDictDistinct(Zip(names, vals));
    forall x | x in shap ensures x in Zip(names, vals) {
      BuildDictMembers(Zip(names, vals), x);
    }
    TopSpec(shap, IsPositive, topN);
    TopSpec(shap, IsNegative, topN);
    Importance(shap, Top(shap, IsPositive, topN), Top(shap, IsNegative, topN), base, base + Sum(vals))
  }

  /** With distinct schema names, `shap_values` pairs `names[i]` with `vals[i]`, position by position. */
  lemma ShapValuesPositional(names: seq<string>, vals: seq<real>, base: real, topN: int)
    requires DistinctNames(names)
    ensures |Rank(names, vals, base, topN).shapValues| == Min(|names|, |vals|)
    ensures forall i :: 0 <= i < Min(|names|, |vals|) ==>
              Rank(names, vals, base, topN).shapValues[i] == FeatureValue(names[i], vals[i])
  {
    ZipDistinct(names, vals);
    BuildDictOfDistinct(Zip(names, vals));
    forall i | 0 <= i < Min(|names|, |vals|) ensures Zip(names, vals)[i] == FeatureValue(names[i], vals[i]) {
      ZipAt(names, vals, i);
    }
  }

  /** A repeated schema name keeps the attribution of its last position. */
  lemma ShapValuesLastWins(names: seq<string>, vals: seq<real>, base: real, topN: int, i: int)
    requires 0 <= i < Min(|names|, |vals|)
    requires forall j :: i < j < Min(|names|, |vals|) ==> names[j] != names[i]
    ensures FeatureValue(names[i], vals[i]) in Rank(names, vals, base, topN).shapValues
  {
    var z := Zip(names, vals);
    ZipAt(names, vals, i);
    forall j | i < j < |z| ensures z[j].feature != z[i].feature {
      ZipAt(names, vals, j);
    }
    BuildDictLastWins(z, i);
  }

  /**
   * The reconstruction law: when the explainer returns at most one attribution
   * per (distinct) schema name, base value plus the sum of the reported
   * `shap_values` is the reported prediction value.
   */
  lemma ReconstructionLaw(names: seq<string>, vals: seq<real>, base: real, topN: int)
    requires DistinctNames(names) && |vals| <= |names|
    ensures Rank(names, vals, base, topN).predictionValue ==
            Rank(names, vals, base, topN).baseValue + SumValues(Rank(names, vals, base, topN).shapValues)
  {
    ZipDistinct(names, vals);
    BuildDictOfDistinct(Zip(names, vals));
    ZipSum(names, vals);
  }

  predicate IsPrefix(a: seq<FeatureValue>, b: seq<FeatureValue>) {
    |a| <= |b| && a == b[..|a|]
  }

  lemma {:induction false} FilterOfPrefix(p: seq<FeatureValue>, k: int, keep: FeatureValue -> bool)
    requires 0 <= k <= |p|
    ensures IsPrefix(Filter(p[..k], keep), Filter(p, keep))
  {
    if k == 0 {
      assert p[..k] == [];
    } else {
      FilterOfPrefix(p[1..], k - 1, keep);
      var head := if keep(p[0]) then [p[0]] else [];
      var rest := Filter(p[1..][..k - 1], keep);
      assert p[..k][0] == p[0] && p[..k][1..] == p[1..][..k - 1];
      assert Filter(p[..k], keep) == head + rest;
      assert Filter(p, keep) == head + Filter(p[1..], keep);
    }
  }

  /** Within one sign, entries of equal magnitude stay in dictionary (schema) order. */
  lemma RankingTiesKeepOrder(items: seq<FeatureValue>, keep: FeatureValue -> bool, m: real)
    ensures Filter(Filter(SortByMagnitude(items), keep), HasMagnitude(m)) ==
            Filter(Filter(items, keep), HasMagnitude(m))
  {
    FilterCommute(SortByMagnitude(items), keep, HasMagnitude(m));
    SortStable(items, m);
    FilterCommute(items, keep, HasMagnitude(m));
  }

  /**
   * Stable truncation: among the attributions of one magnitude and one sign,
   * the reported ones are the earliest in dictionary order.
   */
  lemma TopTiesKeepOrder(names: seq<string>, vals: seq<real>, base: real, topN: int, m: real)
    ensures IsPrefix(Filter(Rank(names, vals, base, topN).topPositive, HasMagnitude(m)),
                     Filter(Filter(Rank(names, vals, base, topN).shapValues, IsPositive), HasMagnitude(m)))
    ensures IsPrefix(Filter(Rank(names, vals, base, topN).topNegative, HasMagnitude(m)),
                     Filter(Filter(Rank(names, vals, base, topN).shapValues, IsNegative), HasMagnitude(m)))
  {
    var shap := BuildDict(Zip(names, vals));
    var pos := Filter(SortByMagnitude(shap), IsPositive);
    FilterOfPrefix(pos, |SliceTo(pos, topN)|, HasMagnitude(m));
    RankingTiesKeepOrder(shap, IsPositive, m);
    var neg := Filter(SortByMagnitude(shap), IsNegative);
    FilterOfPrefix(neg, |SliceTo(neg, topN)|, HasMagnitude(m));
    RankingTiesKeepOrder(shap, IsNegative, m);
  }
}
