/** The facets component (`_search_app/src/components/SearchFacets.js`) and
    the facet-name list `renderFacets` gives it
    (`_search_app/src/components/Search.js`): which facets are shown, in
    which order their values are listed, and which values are marked
    selected. */
module SearchFacetsView {
  import opened Wrappers
  import opened Sequences
  import opened OrderedMaps
  import opened Helpers
  import opened AggregationMerge
  import U = UrlSearchParams

  /** `getSelectedFacetVals(name)`: the values of `<name>[]` in URL order. */
  function SelectedValues(url: U.Pairs, name: string): seq<string> {
    U.GetAll(url, name + "[]")
  }

  /** The comparator's key: the position of a bucket's key in the reversed
      selected list, or -1 when it is not selected (or has no key). */
  function Rank(rev: seq<string>, key: Option<string>): (r: int)
    ensures -1 <= r < |rev|
    ensures r == -1 <==> key.None? || key.value !in rev
  {
    match key
    case None => -1
    case Some(k) => IndexOf(rev, k)
  }

  /** Non-increasing rank: the comparator `rank(b) - rank(a)` puts the higher rank first. */
  predicate Sorted(rev: seq<string>, s: seq<Bucket>) {
    forall i, j :: 0 <= i < j < |s| ==> Rank(rev, s[i].key) >= Rank(rev, s[j].key)
  }

  /** The buckets of one rank, in order. */
  function RankGroup(rev: seq<string>, s: seq<Bucket>, r: int): seq<Bucket> {
    if |s| == 0 then []
    else (if Rank(rev, s[0].key) == r then [s[0]] else []) + RankGroup(rev, s[1..], r)
  }

  /** Insert `x` after every bucket of rank at least its own. */
  function Insert(rev: seq<string>, x: Bucket, s: seq<Bucket>): seq<Bucket> {
    if |s| == 0 || Rank(rev, s[0].key) < Rank(rev, x.key) then [x] + s
    else [s[0]] + Insert(rev, x, s[1..])
  }

  /** `buckets.sort(...)` with the stable sort `Array.prototype.sort` guarantees. */
  function SortBuckets(rev: seq<string>, buckets: seq<Bucket>): seq<Bucket> {
    if |buckets| == 0 then []
    else Insert(rev, buckets[|buckets| - 1], SortBuckets(rev, buckets[..|buckets| - 1]))
  }

  lemma {:induction false} InsertMultiset(rev: seq<string>, x: Bucket, s: seq<Bucket>)
    ensures multiset(Insert(rev, x, s)) == multiset(s) + multiset{x}
  {
    if |s| > 0 && Rank(rev, s[0].key) >= Rank(rev, x.key) {
      InsertMultiset(rev, x, s[1..]);
      assert s == [s[0]] + s[1..];
    }
  }

  /** Inserting adds `x` and nothing else. */
  lemma {:induction false} InsertMembers(rev: seq<string>, x: Bucket, s: seq<Bucket>)
    ensures forall y :: y in Insert(rev, x, s) ==> y == x || y in s
  {
    if |s| > 0 && Rank(rev, s[0].key) >= Rank(rev, x.key) {
      InsertMembers(rev, x, s[1..]);
    }
  }

  /** A bucket ranking at least as high as every bucket of a sorted list
      can go in front of it. */
  lemma ConsSorted(rev: seq<string>, h: Bucket, tail: seq<Bucket>)
    requires Sorted(rev, tail)
    requires forall y :: y in tail ==> Rank(rev, h.key) >= Rank(rev, y.key)
    ensures Sorted(rev, [h] + tail)
  {
    var r := [h] + tail;
    forall i, j | 0 <= i < j < |r|
      ensures Rank(rev, r[i].key) >= Rank(rev, r[j].key)
    {
      assert r[j] == tail[j - 1] && r[j] in tail;
      if i > 0 {
        assert r[i] == tail[i - 1];
      }
    }
  }

  /** The head of a sorted list ranks at least as high as everything after it. */
  lemma SortedHeadRank(rev: seq<string>, s: seq<Bucket>)
    requires Sorted(rev, s) && |s| > 0
    ensures forall y :: y in s[1..] ==> Rank(rev, s[0].key) >= Rank(rev, y.key)
  {
    forall y | y in s[1..]
      ensures Rank(rev, s[0].key) >= Rank(rev, y.key)
    {
      var k :| 0 <= k < |s[1..]| && s[1..][k] == y;
      assert s[k + 1] == y;
    }
  }

  lemma {:induction false} InsertSorted(rev: seq<string>, x: Bucket, s: seq<Bucket>)
    requires Sorted(rev, s)
    ensures Sorted(rev, Insert(rev, x, s))
  {
    if |s| > 0 && Rank(rev, s[0].key) >= Rank(rev, x.key) {
      InsertSorted(rev, x, s[1..]);
      InsertMembers(rev, x, s[1..]);
      SortedHeadRank(rev, s);
      ConsSorted(rev, s[0], Insert(rev, x, s[1..]));
    }
  }

  /** In a sorted list every bucket ranks at most as high as the first. */
  lemma SortedHead(rev: seq<string>, s: seq<Bucket>, r: int)
    requires Sorted(rev, s) && |s| > 0 && Rank(rev, s[0].key) < r
    ensures RankGroup(rev, s, r) == []
  {
    if |s| > 1 {
      SortedHead(rev, s[1..], r);
    }
  }

  lemma {:induction false} InsertGroup(rev: seq<string>, x: Bucket, s: seq<Bucket>, r: int)
    requires Sorted(rev, s)
    ensures RankGroup(rev, Insert(rev, x, s), r)
      == RankGroup(rev, s, r) + (if Rank(rev, x.key) == r then [x] else [])
  {
    if |s| == 0 {
    } else if Rank(rev, s[0].key) < Rank(rev, x.key) {
      var ins := [x] + s;
      assert ins[1..] == s;
      if Rank(rev, x.key) == r {
        SortedHead(rev, s, r);
      }
    } else {
      var ins := [s[0]] + Insert(rev, x, s[1..]);
      assert ins[1..] == Insert(rev, x, s[1..]);
      InsertGroup(rev, x, s[1..], r);
    }
  }

  lemma {:induction false} RankGroupLast(rev: seq<string>, s: seq<Bucket>, r: int)
    requires |s| > 0
    ensures RankGroup(rev, s, r) == RankGroup(rev, s[..|s| - 1], r)
      + (if Rank(rev, s[|s| - 1].key) == r then [s[|s| - 1]] else [])
  {
    if |s| > 1 {
      assert s[1..][..|s| - 2] == s[..|s| - 1][1..];
      RankGroupLast(rev, s[1..], r);
    }
  }

  /** The sort is a permutation, orders by non-increasing rank, and keeps
      the backend's order among buckets of the same rank. */
  lemma {:induction false} SortBucketsSpec(rev: seq<string>, buckets: seq<Bucket>)
    ensures multiset(SortBuckets(rev, buckets)) == multiset(buckets)
    ensures Sorted(rev, SortBuckets(rev, buckets))
    ensures forall r :: RankGroup(rev, SortBuckets(rev, buckets), r) == RankGroup(rev, buckets, r)
  {
    if |buckets| > 0 {
      var prefix := buckets[..|buckets| - 1];
      var last := buckets[|buckets| - 1];
      var sorted := SortBuckets(rev, prefix);
      SortBucketsSpec(rev, prefix);
      InsertMultiset(rev, last, sorted);
      InsertSorted(rev, last, sorted);
      assert buckets == prefix + [last];
      forall r
        ensures RankGroup(rev, SortBuckets(rev, buckets), r) == RankGroup(rev, buckets, r)
      {
        InsertGroup(rev, last, sorted, r);
        RankGroupLast(rev, buckets, r);
      }
    }
  }

  /** Whether the bucket's key is among the selected values (`includes`). */
  predicate IsSelected(selected: seq<string>, b: Bucket) {
    b.key.Some? && b.key.value in selected
  }

  /** Reversing keeps the elements. */
  lemma ReverseElements(sel: seq<string>, k: string)
    ensures k in Reverse(sel) <==> k in sel
  {
    var rev := Reverse(sel);
    if k in rev {
      var i :| 0 <= i < |rev| && rev[i] == k;
      assert sel[|sel| - 1 - i] == k;
    }
    if k in sel {
      var i :| 0 <= i < |sel| && sel[i] == k;
      assert rev[|sel| - 1 - i] == k;
    }
  }

  /** A bucket has a non-negative rank exactly when it is selected. */
  lemma RankSelected(sel: seq<string>, b: Bucket)
    ensures Rank(Reverse(sel), b.key) >= 0 <==> IsSelected(sel, b)
  {
    if b.key.Some? {
      ReverseElements(sel, b.key.value);
    }
  }

  /** Selected buckets come first: after an unselected bucket only unselected
      ones follow, and those keep the backend's order. */
  lemma SelectedFirst(url: U.Pairs, name: string, buckets: seq<Bucket>)
    ensures var sel := SelectedValues(url, name);
      var sorted := SortBuckets(Reverse(sel), buckets);
      && (forall i, j :: 0 <= i < j < |sorted| && !IsSelected(sel, sorted[i]) ==> !IsSelected(sel, sorted[j]))
      && RankGroup(Reverse(sel), sorted, -1) == RankGroup(Reverse(sel), buckets, -1)
  {
    var sel := SelectedValues(url, name);
    var rev := Reverse(sel);
    var sorted := SortBuckets(rev, buckets);
    SortBucketsSpec(rev, buckets);
    forall i, j | 0 <= i < j < |sorted| && !IsSelected(sel, sorted[i])
      ensures !IsSelected(sel, sorted[j])
    {
      RankSelected(sel, sorted[i]);
      RankSelected(sel, sorted[j]);
      assert Rank(rev, sorted[i].key) >= Rank(rev, sorted[j].key);
    }
  }

  /** The first position of a value in the reversed list mirrors its last
      position in the list. */
  lemma RankIsLastIndex(sel: seq<string>, k: string)
    requires k in sel
    ensures IndexOf(Reverse(sel), k) == |sel| - 1 - LastIndexOf(sel, k)
  {
    var rev := Reverse(sel);
    var p := LastIndexOf(sel, k);
    var q := |sel| - 1 - p;
    assert rev[q] == k;
    assert k !in rev[..q] by {
      forall m | 0 <= m < q
        ensures rev[m] != k
      {
        var n := |sel| - 1 - m;
        assert rev[m] == sel[n] == sel[p + 1..][n - p - 1];
      }
    }
  }

  /** Selected buckets with different keys are listed in the order of the
      last occurrence of their values in the URL; with no repeated value,
      the value applied first is listed first. */
  lemma SelectedInUrlOrder(url: U.Pairs, name: string, buckets: seq<Bucket>, i: int, j: int)
    requires var sorted := SortBuckets(Reverse(SelectedValues(url, name)), buckets);
      0 <= i < j < |sorted|
      && IsSelected(SelectedValues(url, name), sorted[i])
      && IsSelected(SelectedValues(url, name), sorted[j])
      && sorted[i].key != sorted[j].key
    ensures var sel := SelectedValues(url, name);
      var sorted := SortBuckets(Reverse(sel), buckets);
      && LastIndexOf(sel, sorted[i].key.value) < LastIndexOf(sel, sorted[j].key.value)
      && (Distinct(sel) ==> IndexOf(sel, sorted[i].key.value) < IndexOf(sel, sorted[j].key.value))
  {
    var sel := SelectedValues(url, name);
    var rev := Reverse(sel);
    var sorted := SortBuckets(rev, buckets);
    var ki, kj := sorted[i].key.value, sorted[j].key.value;
    assert IndexOf(rev, ki) >= IndexOf(rev, kj) by {
      SortBucketsSpec(rev, buckets);
      assert Rank(rev, sorted[i].key) >= Rank(rev, sorted[j].key);
    }
    assert ki != kj && ki in sel && kj in sel;
    var li, lj := LastIndexOf(sel, ki), LastIndexOf(sel, kj);
    assert sel[li] == ki && sel[lj] == kj;
    assert li <= lj by {
      RankIsLastIndex(sel, ki);
      RankIsLastIndex(sel, kj);
    }
    if Distinct(sel) {
      LastIndexOfDistinct(sel, ki);
      LastIndexOfDistinct(sel, kj);
    }
  }

  /** With `a` selected, then `b`, then `a` again, `a` ranks by its later
      occurrence, so `b` is listed first. */
  lemma SortRepeatedExample()
    ensures var url := [("color[]", "a"), ("color[]", "b"), ("color[]", "a")];
      var buckets := [Bucket(Some("a"), 5), Bucket(Some("b"), 3)];
      SortBuckets(Reverse(SelectedValues(url, "color")), buckets)
        == [Bucket(Some("b"), 3), Bucket(Some("a"), 5)]
  {
    var url := [("color[]", "a"), ("color[]", "b"), ("color[]", "a")];
    var rev := Reverse(SelectedValues(url, "color"));
    assert SelectedValues(url, "color") == ["a", "b", "a"];
    assert rev == ["a", "b", "a"];
    var a, b := Bucket(Some("a"), 5), Bucket(Some("b"), 3);
    assert Rank(rev, a.key) == 0;
    assert Rank(rev, b.key) == 1;
    assert [a, b][..1] == [a];
    assert SortBuckets(rev, [a]) == [a];
    assert SortBuckets(rev, [a, b]) == Insert(rev, b, [a]) == [b, a];
  }

  /** Buckets `a(5)`, `b(3)`, `c(9)` with `c` then `a` selected: `c` comes
      first, as it appears first in the URL, then `a`, then the unselected `b`. */
  lemma SortExample()
    ensures var url := [("color[]", "c"), ("color[]", "a")];
      var buckets := [Bucket(Some("a"), 5), Bucket(Some("b"), 3), Bucket(Some("c"), 9)];
      SortBuckets(Reverse(SelectedValues(url, "color")), buckets)
        == [Bucket(Some("c"), 9), Bucket(Some("a"), 5), Bucket(Some("b"), 3)]
  {
    var url := [("color[]", "c"), ("color[]", "a")];
    var rev := Reverse(SelectedValues(url, "color"));
    assert SelectedValues(url, "color") == ["c", "a"];
    assert rev == ["a", "c"];
    var a, b, c := Bucket(Some("a"), 5), Bucket(Some("b"), 3), Bucket(Some("c"), 9);
    assert Rank(rev, a.key) == 0;
    assert Rank(rev, b.key) == -1;
    assert Rank(rev, c.key) == 1;
    var buckets := [a, b, c];
    assert buckets[..2][..1] == [a] && buckets[..2] == [a, b];
    assert SortBuckets(rev, [a]) == [a];
    assert Insert(rev, b, []) == [b];
    assert SortBuckets(rev, [a, b]) == Insert(rev, b, [a]) == [a, b];
    assert SortBuckets(rev, buckets) == Insert(rev, c, [a, b]) == [c, a, b];
  }

  /** A rendered facet value. */
  datatype FacetValue = FacetValue(value: Option<string>, docCount: nat, selected: bool)

  /** A rendered facet: its name, its display name, its values in order. */
  datatype Facet = Facet(name: string, displayName: string, values: seq<FacetValue>)

  /** The values of one facet: the sorted buckets, each marked selected
      when its key is among the URL's values for the facet. */
  function FacetValues(url: U.Pairs, name: string, buckets: seq<Bucket>): (r: seq<FacetValue>)
    ensures |r| == |buckets|
  {
    var sel := SelectedValues(url, name);
    var sorted := SortBuckets(Reverse(sel), buckets);
    SortBucketsSpec(Reverse(sel), buckets);
    assert |sorted| == |buckets| by {
      assert |multiset(sorted)| == |multiset(buckets)|;
    }
    seq(|sorted|, i requires 0 <= i < |sorted| =>
      FacetValue(sorted[i].key, sorted[i].docCount, IsSelected(sel, sorted[i])))
  }

  /** The facets shown and, when rendering stopped on an exception, its message. */
  datatype Rendered = Rendered(facets: seq<Facet>, error: Option<string>)

  /** `connectedCallback`'s loop over the facet names: a name with no
      aggregation throws, a name whose aggregation has no buckets is skipped,
      and a name that cannot be title-cased throws. Facets rendered before
      an exception stay. */
  function RenderFacets(aggs: Aggregations, keys: seq<string>, url: U.Pairs): Rendered {
    if |keys| == 0 then Rendered([], None)
    else
      var key := keys[0];
      match Get(aggs, key)
      case None => Rendered([], Some("Cannot destructure the aggregation of " + key))
      case Some(buckets) =>
        if |buckets| == 0 then RenderFacets(aggs, keys[1..], url)
        else
          match SnakeToTitleCase(key)
          case None => Rendered([], Some("Cannot title-case " + key))
          case Some(displayName) =>
            var rest := RenderFacets(aggs, keys[1..], url);
            Rendered([Facet(key, displayName, FacetValues(url, key, buckets))] + rest.facets, rest.error)
  }

  /** Whether a facet name can be rendered: it has an aggregation, and a
      non-empty one has a title-cased name. */
  predicate Renderable(aggs: Aggregations, key: string) {
    Has(aggs, key) && (|Get(aggs, key).value| > 0 ==> SnakeToTitleCase(key).Some?)
  }

  /** Whether a facet name is shown: its aggregation has buckets. */
  predicate Shown(aggs: Aggregations, key: string) {
    Has(aggs, key) && |Get(aggs, key).value| > 0
  }

  /** Rendering stops on an exception exactly when some name is not renderable. */
  lemma {:induction false} RenderFacetsError(aggs: Aggregations, keys: seq<string>, url: U.Pairs)
    ensures RenderFacets(aggs, keys, url).error.None? <==>
      forall i :: 0 <= i < |keys| ==> Renderable(aggs, keys[i])
  {
    if |keys| > 0 {
      RenderFacetsError(aggs, keys[1..], url);
      assert forall i :: 1 <= i < |keys| ==> keys[i] == keys[1..][i - 1];
    }
  }

  /** Every rendered facet is a shown name, with its title-cased display
      name and its sorted, flagged values. */
  lemma {:induction false} RenderFacetsFacets(aggs: Aggregations, keys: seq<string>, url: U.Pairs)
    ensures var r := RenderFacets(aggs, keys, url);
      && |r.facets| <= |keys|
      && forall i :: 0 <= i < |r.facets| ==>
           var f := r.facets[i];
           && f.name in keys && Shown(aggs, f.name)
           && SnakeToTitleCase(f.name) == Some(f.displayName)
           && f.values == FacetValues(url, f.name, Get(aggs, f.name).value)
  {
    if |keys| > 0 {
      RenderFacetsFacets(aggs, keys[1..], url);
      var r := RenderFacets(aggs, keys, url);
      var rest := RenderFacets(aggs, keys[1..], url);
      if |r.facets| > 0 && r.facets[0].name == keys[0] && Shown(aggs, keys[0]) {
        assert r.facets == [r.facets[0]] + rest.facets;
      }
    }
  }

  /** The names of rendered facets, in order. */
  function FacetNames(fs: seq<Facet>): (r: seq<string>)
    ensures |r| == |fs|
  {
    if |fs| == 0 then [] else [fs[0].name] + FacetNames(fs[1..])
  }

  /** One step of the loop, seen through the rendered names. */
  lemma RenderFacetsStep(aggs: Aggregations, keys: seq<string>, url: U.Pairs)
    requires |keys| > 0
    ensures var r := RenderFacets(aggs, keys, url);
      var rest := RenderFacets(aggs, keys[1..], url);
      r.error.None? ==>
        && rest.error.None?
        && FacetNames(r.facets) ==
             (if Shown(aggs, keys[0]) then [keys[0]] + FacetNames(rest.facets) else FacetNames(rest.facets))
  {
    var r := RenderFacets(aggs, keys, url);
    var rest := RenderFacets(aggs, keys[1..], url);
    if r.error.None? && Shown(aggs, keys[0]) {
      assert r.facets[1..] == rest.facets;
    }
  }

  /** Without an exception, the rendered facets are exactly the shown names,
      in the order the names were asked for and as often as they were asked. */
  lemma {:induction false} RenderFacetsComplete(aggs: Aggregations, keys: seq<string>, url: U.Pairs)
    ensures var r := RenderFacets(aggs, keys, url);
      r.error.None? ==> FacetNames(r.facets) == Filter(k => Shown(aggs, k), keys)
    ensures var r := RenderFacets(aggs, keys, url);
      r.error.None? ==> forall i :: 0 <= i < |keys| && Shown(aggs, keys[i]) ==> keys[i] in FacetNames(r.facets)
  {
    if |keys| > 0 {
      RenderFacetsComplete(aggs, keys[1..], url);
      RenderFacetsStep(aggs, keys, url);
    }
  }

  /** `renderFacets`' facet names: `collection` first on the multi-collection
      page, then the faceted fields. */
  function FacetKeys(isMulti: bool, facetedFields: seq<string>): (r: seq<string>)
    ensures isMulti ==> |r| == |facetedFields| + 1 && r[0] == "collection" && r[1..] == facetedFields
    ensures !isMulti ==> r == facetedFields
  {
    if isMulti then ["collection"] + facetedFields else facetedFields
  }
}
