/** The URL transitions of the search application's event handlers
    (`facetValueClickHandler`, `searchInputKeydownHandler`,
    `pageSizeSelectorChangeHandler`, `clearFiltersClickHandler`,
    `paginatorClickHandler`). Each returns the new query string; `None` means
    the handler returns early and no new search starts. Writing the address bar
    and starting the search are outside the model. */
module SearchHandlers {
  import opened Wrappers
  import opened Sequences
  import opened Strings
  import opened UrlSearchParams
  import Helpers

  /** The URL key of the facet `name`. */
  function FacetKey(name: string): (k: string)
    ensures Helpers.IsArrayKey(k)
    ensures k != "start" && k != "q" && k != "size"
  {
    var k := name + "[]";
    assert k[|k| - 2..] == "[]";
    assert k[|k| - 1] == ']';
    k
  }

  /** Toggle `value` in a list: remove every copy when present, else append it. */
  function Toggle(vals: seq<string>, value: string): seq<string> {
    if value in vals then Filter(x => x != value, vals) else vals + [value]
  }

  /** `facetValueClickHandler(name, value)`. */
  function FacetValueClick(url: Pairs, name: string, value: string): Pairs {
    var key := FacetKey(name);
    var vals := Toggle(GetAll(url, key), value);
    Delete(AppendAll(Delete(url, key), key, vals), "start")
  }

  lemma FilterAbsent(vals: seq<string>, value: string)
    ensures value !in Filter(x => x != value, vals)
  {
  }

  /** A facet click toggles the value: it is selected afterwards exactly when
      it was not before; the other selected values keep their order; a newly
      selected value goes last; `start` goes; all other keys are unchanged. */
  lemma FacetValueClickSpec(url: Pairs, name: string, value: string)
    ensures var after := GetAll(FacetValueClick(url, name, value), FacetKey(name));
      var before := GetAll(url, FacetKey(name));
      && (value in after <==> value !in before)
      && Filter(x => x != value, after) == Filter(x => x != value, before)
      && (value !in before ==> after == before + [value])
    ensures GetAll(FacetValueClick(url, name, value), "start") == []
    ensures forall k :: k != FacetKey(name) && k != "start" ==>
      GetAll(FacetValueClick(url, name, value), k) == GetAll(url, k)
  {
    var before := GetAll(url, FacetKey(name));
    var after := GetAll(FacetValueClick(url, name, value), FacetKey(name));
    assert after == Toggle(before, value);
    var p := x => x != value;
    if value in before {
      FilterAbsent(before, value);
      FilterIdempotent(p, before);
    } else {
      FilterAppend(p, before, [value]);
      assert Filter(p, [value]) == [];
    }
  }

  /** `searchInputKeydownHandler`: only Enter submits; it sets `q` to the
      input's text and drops `start`. */
  function SearchInputKeydown(url: Pairs, key: string, inputValue: string): (r: Option<Pairs>)
    ensures r.Some? <==> key == "Enter"
    ensures r.Some? ==> GetAll(r.value, "q") == [inputValue] && GetAll(r.value, "start") == []
    ensures r.Some? ==> forall k :: k != "q" && k != "start" ==> GetAll(r.value, k) == GetAll(url, k)
  {
    if key != "Enter" then None
    else Some(Delete(SetValue(url, "q", inputValue), "start"))
  }

  /** `pageSizeSelectorChangeHandler`: sets `size` to the selected option and
      drops `start`. */
  function PageSizeChange(url: Pairs, size: string): (r: Pairs)
    ensures GetAll(r, "size") == [size] && GetAll(r, "start") == []
    ensures forall k :: k != "size" && k != "start" ==> GetAll(r, k) == GetAll(url, k)
  {
    Delete(SetValue(url, "size", size), "start")
  }

  /** The pairs whose key is not in `ks`, in order. */
  function Without(url: Pairs, ks: seq<string>): Pairs {
    if |url| == 0 then []
    else (if url[0].0 in ks then [] else [url[0]]) + Without(url[1..], ks)
  }

  /** Deletes each key of `ks` in turn (`filterKeys.forEach(k => params.delete(k))`). */
  function DeleteKeys(url: Pairs, ks: seq<string>): Pairs
    decreases |ks|
  {
    if |ks| == 0 then url else DeleteKeys(Delete(url, ks[0]), ks[1..])
  }

  lemma {:induction false} WithoutDelete(url: Pairs, k: string, ks: seq<string>)
    ensures Without(Delete(url, k), ks) == Without(url, [k] + ks)
  {
    if |url| > 0 {
      WithoutDelete(url[1..], k, ks);
    }
  }

  lemma {:induction false} DeleteKeysWithout(url: Pairs, ks: seq<string>)
    ensures DeleteKeys(url, ks) == Without(url, ks)
    decreases |ks|
  {
    if |ks| == 0 {
      WithoutNone(url);
    } else {
      DeleteKeysWithout(Delete(url, ks[0]), ks[1..]);
      WithoutDelete(url, ks[0], ks[1..]);
      assert [ks[0]] + ks[1..] == ks;
    }
  }

  lemma {:induction false} WithoutNone(url: Pairs)
    ensures Without(url, []) == url
  {
    if |url| > 0 {
      WithoutNone(url[1..]);
    }
  }

  /** Two key lists that agree on every key of the URL remove the same pairs. */
  lemma {:induction false} WithoutSameKeys(url: Pairs, ks: seq<string>, ks': seq<string>)
    requires forall i :: 0 <= i < |url| ==> (url[i].0 in ks <==> url[i].0 in ks')
    ensures Without(url, ks) == Without(url, ks')
  {
    if |url| > 0 {
      assert url[0].0 in ks <==> url[0].0 in ks';
      WithoutSameKeys(url[1..], ks, ks');
    }
  }

  /** The array keys of the URL (the set `filterKeys`, as a list). */
  function ArrayKeys(url: Pairs): (ks: seq<string>)
    ensures forall k :: k in ks <==> Helpers.IsArrayKey(k) && Has(url, k)
  {
    if |url| == 0 then []
    else
      var rest := ArrayKeys(url[1..]);
      HasCons(url);
      if Helpers.IsArrayKey(url[0].0) then [url[0].0] + rest else rest
  }

  lemma HasCons(url: Pairs)
    requires |url| > 0
    ensures forall k :: Has(url, k) <==> url[0].0 == k || Has(url[1..], k)
  {
    forall k | Has(url[1..], k)
      ensures Has(url, k)
    {
      var i :| 0 <= i < |url[1..]| && url[1..][i].0 == k;
      assert url[i + 1].0 == k;
    }
    forall k | Has(url, k) && url[0].0 != k
      ensures Has(url[1..], k)
    {
      var i :| 0 <= i < |url| && url[i].0 == k;
      assert url[1..][i - 1].0 == k;
    }
  }

  /** `clearFiltersClickHandler`: delete every array key, then `start`. */
  function ClearFilters(url: Pairs): Pairs {
    Delete(DeleteKeys(url, ArrayKeys(url)), "start")
  }

  /** The pairs that clearing the filters keeps: those whose key neither ends
      in `[]` nor is `start`, in order. */
  function Kept(url: Pairs): (r: Pairs)
    ensures forall i :: 0 <= i < |r| ==> !Helpers.IsArrayKey(r[i].0) && r[i].0 != "start"
  {
    if |url| == 0 then []
    else
      (if Helpers.IsArrayKey(url[0].0) || url[0].0 == "start" then [] else [url[0]]) + Kept(url[1..])
  }

  lemma {:induction false} KeptValues(url: Pairs, k: string)
    ensures GetAll(Kept(url), k) == if Helpers.IsArrayKey(k) || k == "start" then [] else GetAll(url, k)
  {
    if |url| > 0 {
      KeptValues(url[1..], k);
      var head := if Helpers.IsArrayKey(url[0].0) || url[0].0 == "start" then [] else [url[0]];
      GetAllAppend(head, Kept(url[1..]), k);
    }
  }

  lemma {:induction false} KeptOfKept(url: Pairs)
    ensures Kept(Kept(url)) == Kept(url)
  {
    if |url| > 0 {
      KeptOfKept(url[1..]);
      var head := if Helpers.IsArrayKey(url[0].0) || url[0].0 == "start" then [] else [url[0]];
      KeptAppend(head, Kept(url[1..]));
    }
  }

  lemma {:induction false} KeptAppend(a: Pairs, b: Pairs)
    ensures Kept(a + b) == Kept(a) + Kept(b)
  {
    if |a| == 0 {
      assert a + b == b;
    } else {
      assert (a + b)[1..] == a[1..] + b;
      KeptAppend(a[1..], b);
    }
  }

  lemma {:induction false} DeleteStartWithout(url: Pairs, ks: seq<string>)
    requires forall i :: 0 <= i < |url| ==> (url[i].0 in ks <==> Helpers.IsArrayKey(url[i].0))
    ensures Delete(Without(url, ks), "start") == Kept(url)
  {
    if |url| > 0 {
      DeleteStartWithout(url[1..], ks);
      var w := Without(url[1..], ks);
      if url[0].0 !in ks {
        assert Without(url, ks) == [url[0]] + w;
        assert ([url[0]] + w)[1..] == w;
      } else {
        assert Without(url, ks) == w;
      }
    }
  }

  /** Clearing the filters keeps exactly the pairs whose key neither ends in
      `[]` nor is `start`, in order. */
  lemma ClearFiltersKeeps(url: Pairs)
    ensures ClearFilters(url) == Kept(url)
  {
    var ks := ArrayKeys(url);
    DeleteKeysWithout(url, ks);
    forall i | 0 <= i < |url|
      ensures url[i].0 in ks <==> Helpers.IsArrayKey(url[i].0)
    {
    }
    DeleteStartWithout(url, ks);
  }

  /** Clearing the filters removes every array key and `start`, leaves every
      other key's values as they were, and a second clear changes nothing. */
  lemma ClearFiltersSpec(url: Pairs, k: string)
    ensures GetAll(ClearFilters(url), k) ==
      if Helpers.IsArrayKey(k) || k == "start" then [] else GetAll(url, k)
    ensures ClearFilters(ClearFilters(url)) == ClearFilters(url)
  {
    ClearFiltersKeeps(url);
    ClearFiltersKeeps(Kept(url));
    KeptValues(url, k);
    KeptOfKept(url);
  }

  /** What a click on the paginator landed on. */
  datatype ClickTarget = PageButton(start: int) | NotAButton

  /** `paginatorClickHandler`: a button click sets `start` to the button's
      offset, or drops it for offset 0; other clicks do nothing. */
  function PaginatorClick(url: Pairs, target: ClickTarget): (r: Option<Pairs>)
    ensures r.Some? <==> target.PageButton?
    ensures r.Some? ==>
      GetAll(r.value, "start") == (if target.start == 0 then [] else [IntToString(target.start)])
    ensures r.Some? ==> forall k :: k != "start" ==> GetAll(r.value, k) == GetAll(url, k)
  {
    match target
    case NotAButton => None
    case PageButton(start) =>
      if start == 0 then Some(Delete(url, "start"))
      else Some(SetValue(url, "start", IntToString(start)))
  }
}
