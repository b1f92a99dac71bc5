/** The pure part of the `Search` component (`_search_app/src/components/Search.js`):
    reading its configuration attributes, and deriving from the URL the
    indices to search, the query parameters, the filters, the applied-filter
    count, the search query and the cross-collection count query. */
module SearchPlan {
  import opened Wrappers
  import opened Sequences
  import opened Strings
  import opened OrderedMaps
  import opened Helpers
  import opened Elasticsearch
  import U = UrlSearchParams
  import SearchHandlers
  import AggregationMerge

  /** One record of the indices directory. */
  datatype DirectoryEntry = DirectoryEntry(index: string, title: string)

  /** Record `i` is the last one for `index`. */
  predicate LastForIndex(dir: seq<DirectoryEntry>, i: int, index: string) {
    0 <= i < |dir| && dir[i].index == index && forall j :: i < j < |dir| ==> dir[j].index != index
  }

  /** Record `i` is the last one titled `title`. */
  predicate LastForTitle(dir: seq<DirectoryEntry>, i: int, title: string) {
    0 <= i < |dir| && dir[i].title == title && forall j :: i < j < |dir| ==> dir[j].title != title
  }

  /** The title of the last record for `index`, if any: the reference for
      the index-to-title table. */
  function TitleOfIndex(dir: seq<DirectoryEntry>, index: string): (r: Option<string>)
    ensures r.None? <==> forall i :: 0 <= i < |dir| ==> dir[i].index != index
    ensures forall i :: LastForIndex(dir, i, index) ==> r == Some(dir[i].title)
  {
    if |dir| == 0 then None
    else if dir[|dir| - 1].index == index then Some(dir[|dir| - 1].title)
    else
      var prev := dir[..|dir| - 1];
      assert forall i :: 0 <= i < |prev| ==> prev[i] == dir[i];
      assert forall i :: LastForIndex(dir, i, index) ==> LastForIndex(prev, i, index);
      TitleOfIndex(prev, index)
  }

  /** The index of the last record titled `title`, if any: the reference for
      the title-to-index table. */
  function IndexOfTitle(dir: seq<DirectoryEntry>, title: string): (r: Option<string>)
    ensures r.None? <==> forall i :: 0 <= i < |dir| ==> dir[i].title != title
    ensures forall i :: LastForTitle(dir, i, title) ==> r == Some(dir[i].index)
  {
    if |dir| == 0 then None
    else if dir[|dir| - 1].title == title then Some(dir[|dir| - 1].index)
    else
      var prev := dir[..|dir| - 1];
      assert forall i :: 0 <= i < |prev| ==> prev[i] == dir[i];
      assert forall i :: LastForTitle(dir, i, title) ==> LastForTitle(prev, i, title);
      IndexOfTitle(prev, title)
  }

  /** `indicesDirectoryIndexTitleMap`: index -> title, a later record's title winning. */
  function IndexTitleMap(dir: seq<DirectoryEntry>): (m: OrderedMap<string, string>)
    ensures Valid(m)
    ensures forall i :: 0 <= i < |dir| ==> Has(m, dir[i].index)
    ensures forall index :: Get(m, index) == TitleOfIndex(dir, index)
  {
    if |dir| == 0 then []
    else
      var prev := IndexTitleMap(dir[..|dir| - 1]);
      var last := dir[|dir| - 1];
      SetValid(prev, last.index, last.title);
      SetKeys(prev, last.index, last.title);
      SetGetAll(prev, last.index, last.title);
      assert forall i :: 0 <= i < |dir| - 1 ==> dir[i] == dir[..|dir| - 1][i];
      Set(prev, last.index, last.title)
  }

  /** `indicesDirectoryTitleIndexMap`: title -> index, a later record's index winning. */
  function TitleIndexMap(dir: seq<DirectoryEntry>): (m: OrderedMap<string, string>)
    ensures Valid(m)
    ensures forall i :: 0 <= i < |dir| ==> Has(m, dir[i].title)
    ensures forall title :: Get(m, title) == IndexOfTitle(dir, title)
  {
    if |dir| == 0 then []
    else
      var prev := TitleIndexMap(dir[..|dir| - 1]);
      var last := dir[|dir| - 1];
      SetValid(prev, last.title, last.index);
      SetKeys(prev, last.title, last.index);
      SetGetAll(prev, last.title, last.index);
      assert forall i :: 0 <= i < |dir| - 1 ==> dir[i] == dir[..|dir| - 1][i];
      Set(prev, last.title, last.index)
  }

  /** The comma-separated attribute lists (`fields`, `faceted-fields`,
      `display-fields`): split on `,` and drop the last piece, which the page
      template leaves empty by ending every name with a comma. */
  function ParseFieldList(attr: Option<string>): seq<string> {
    match attr
    case None => []
    case Some(s) =>
      var parts := Split(s, ',');
      parts[..|parts| - 1]
  }

  /** A list written with a comma after every name reads back as that list. */
  lemma ParseFieldListTerminated(names: seq<string>)
    requires forall i :: 0 <= i < |names| ==> ',' !in names[i]
    ensures ParseFieldList(Some(Join(names + [""], ','))) == names
  {
    SplitJoin(names + [""], ',');
  }

  /** The component's configuration, read once in `connectedCallback`. */
  datatype Config = Config(
    isMulti: bool,
    esIndex: Option<string>,
    allFields: seq<string>,
    facetedFields: seq<string>,
    displayFields: seq<string>,
    indexTitle: OrderedMap<string, string>,
    titleIndex: OrderedMap<string, string>)

  /** `connectedCallback`'s attribute checks and parsing. `isUrl` stands for
      the browser's URL parser accepting a text (`new URL(text)` not
      throwing); a missing `elasticsearch-url` is read as `null`, which it
      rejects. The URL is checked first; then, without `search-multi`, a
      missing or empty `elasticsearch-index` is an error. */
  function ReadConfig(attrs: Attributes, isUrl: string -> bool, dir: seq<DirectoryEntry>): (r: Result<Config, string>)
    ensures r.Failure? <==>
      || !UrlGiven(attrs, isUrl)
      || ("search-multi" !in attrs && ("elasticsearch-index" !in attrs || attrs["elasticsearch-index"] == ""))
    ensures !UrlGiven(attrs, isUrl) ==> r == Failure(UrlError)
    ensures r.Failure? && UrlGiven(attrs, isUrl) ==> r.error == IndexError
    ensures r.Success? ==> r.value.isMulti == ("search-multi" in attrs)
    ensures r.Success? ==> r.value.indexTitle == IndexTitleMap(dir) && r.value.titleIndex == TitleIndexMap(dir)
  {
    var isMulti := "search-multi" in attrs;
    var esIndex := if "elasticsearch-index" in attrs then Some(attrs["elasticsearch-index"]) else None;
    if !UrlGiven(attrs, isUrl) then
      Failure(UrlError)
    else if !isMulti && (esIndex.None? || esIndex.value == "") then
      Failure(IndexError)
    else
      Success(Config(
        isMulti,
        esIndex,
        ParseFieldList(if "fields" in attrs then Some(attrs["fields"]) else None),
        ParseFieldList(if "faceted-fields" in attrs then Some(attrs["faceted-fields"]) else None),
        ParseFieldList(if "display-fields" in attrs then Some(attrs["display-fields"]) else None),
        IndexTitleMap(dir),
        TitleIndexMap(dir)))
  }

  /** The `elasticsearch-url` attribute is present and parses as a URL. */
  predicate UrlGiven(attrs: Attributes, isUrl: string -> bool) {
    "elasticsearch-url" in attrs && isUrl(attrs["elasticsearch-url"])
  }

  const UrlError := "Please specify a valid <es-search> element \"elasticsearch-url\" value"
  const IndexError := "Please specify a valid <es-search> element \"elasticsearch-index\" value"

  /** A multi-collection page without `elasticsearch-url` fails, whatever
      else is given. */
  lemma ReadConfigNeedsUrl(isUrl: string -> bool, dir: seq<DirectoryEntry>)
    ensures ReadConfig(map["search-multi" := ""], isUrl, dir) == Failure(UrlError)
  {
  }

  /** The collection titles to search, the parameters left, and how many
      `collection[]` values count as applied filters. */
  datatype Selection = Selection(titles: seq<Option<string>>, params: Params, numCollections: nat)

  /** Choose the collection titles: the host collection's on a single-collection
      page; on the multi-collection page the `collection[]` values (removed
      from the parameters and counted as filters) or every title. */
  function SelectCollections(cfg: Config, params: Params): (r: Selection)
    ensures !cfg.isMulti ==> r.params == params && r.numCollections == 0 && |r.titles| == 1
    ensures !cfg.isMulti ==>
      r.titles == [match cfg.esIndex case None => None case Some(i) => Get(cfg.indexTitle, i)]
    ensures !cfg.isMulti && cfg.esIndex.Some? && Valid(cfg.indexTitle) ==>
      forall i :: 0 <= i < |cfg.indexTitle| && cfg.indexTitle[i].0 == cfg.esIndex.value ==>
        r.titles == [Some(cfg.indexTitle[i].1)]
    ensures cfg.isMulti ==> !Has(r.params, "collection[]")
    ensures cfg.isMulti && Has(params, "collection[]") ==>
      r.titles == Somes(Get(params, "collection[]").value.AsList())
      && r.numCollections == |Get(params, "collection[]").value.AsList()|
    ensures cfg.isMulti && !Has(params, "collection[]") ==>
      r.titles == Somes(Keys(cfg.titleIndex)) && r.numCollections == 0 && r.params == params
    ensures forall k :: k != "collection[]" ==> Get(r.params, k) == Get(params, k)
  {
    if !cfg.isMulti then
      var title := match cfg.esIndex case None => None case Some(i) => Get(cfg.indexTitle, i);
      Selection([title], params, 0)
    else
      match Get(params, "collection[]")
      case None => Selection(Somes(Keys(cfg.titleIndex)), params, 0)
      case Some(v) => Selection(Somes(v.AsList()), Delete(params, "collection[]"), |v.AsList()|)
  }

  /** Every element, as a defined value. */
  function Somes(s: seq<string>): (r: seq<Option<string>>)
    ensures |r| == |s| && forall i :: 0 <= i < |s| ==> r[i] == Some(s[i])
  {
    if |s| == 0 then [] else [Some(s[0])] + Somes(s[1..])
  }

  /** `indiceTitles.map(x => titleIndexMap.get(x))`. */
  function TitlesToIndices(titleIndex: OrderedMap<string, string>, titles: seq<Option<string>>): (r: seq<Option<string>>)
    ensures |r| == |titles|
    ensures forall i :: 0 <= i < |titles| ==>
      (r[i].Some? <==> titles[i].Some? && Has(titleIndex, titles[i].value))
    ensures forall i :: 0 <= i < |titles| && titles[i].Some? ==> r[i] == Get(titleIndex, titles[i].value)
    ensures forall i :: 0 <= i < |titles| && r[i].Some? ==> (titles[i].value, r[i].value) in titleIndex
  {
    if |titles| == 0 then []
    else
      var head := match titles[0] case None => None case Some(t) => Get(titleIndex, t);
      [head] + TitlesToIndices(titleIndex, titles[1..])
  }

  /** The query parameters pulled out of the URL and the parameters left over. */
  datatype Extracted = Extracted(q: string, start: IntOrNaN, size: IntOrNaN, fields: seq<string>, rest: Params)

  /** The text of a popped string parameter, or the default when it is absent
      or empty (`pop(k) || default`). Array values never sit under these keys. */
  function TextOr(v: Option<ParamValue>, default: string): string {
    match v
    case Some(One(s)) => if s == "" then default else s
    case _ => default
  }

  /** `parseInt(pop(k) || default, 10)`. */
  function IntOr(v: Option<ParamValue>, default: int): IntOrNaN {
    match v
    case Some(One(s)) => if s == "" then Int(default) else ParseInt(s)
    case _ => Int(default)
  }

  /** Default page size when the URL has none. */
  const DefaultSize := 10

  /** Pop `q`, `start`, `size` and (when present) `fields`, with their defaults. */
  function ExtractParams(params: Params): Extracted {
    var q := Pop(params, "q");
    var start := Pop(q.1, "start");
    var size := Pop(start.1, "size");
    if Has(size.1, "fields") then
      var fields := Pop(size.1, "fields");
      Extracted(TextOr(q.0, ""), IntOr(start.0, 0), IntOr(size.0, DefaultSize), Split(TextOr(fields.0, ""), ','), fields.1)
    else
      Extracted(TextOr(q.0, ""), IntOr(start.0, 0), IntOr(size.0, DefaultSize), ["*"], size.1)
  }

  /** The reserved keys, which never become filters. */
  predicate IsReserved(k: string) {
    k == "q" || k == "start" || k == "size" || k == "fields"
  }

  /** The parameters left after popping the reserved keys. */
  function PopReserved(params: Params): Params {
    Delete(Delete(Delete(Delete(params, "q"), "start"), "size"), "fields")
  }

  /** Popping the reserved keys removes exactly them. */
  lemma PopReservedGet(params: Params, k: string)
    ensures Get(PopReserved(params), k) == if IsReserved(k) then None else Get(params, k)
  {
    var p1 := Delete(params, "q");
    var p2 := Delete(p1, "start");
    var p3 := Delete(p2, "size");
    var p4 := Delete(p3, "fields");
    if k == "q" {
      assert Get(p4, k) == Get(p3, k) == Get(p2, k) == Get(p1, k);
    } else if k == "start" {
      assert Get(p4, k) == Get(p3, k) == Get(p2, k);
    } else if k == "size" {
      assert Get(p4, k) == Get(p3, k);
    } else if k != "fields" {
      assert Get(p4, k) == Get(p3, k) == Get(p2, k) == Get(p1, k) == Get(params, k);
    }
  }

  /** What remains after the extraction is the parameters without the reserved keys. */
  lemma ExtractParamsRest(params: Params)
    ensures ExtractParams(params).rest == PopReserved(params)
  {
    var p1 := Delete(params, "q");
    var p2 := Delete(p1, "start");
    var p3 := Delete(p2, "size");
    assert Pop(params, "q").1 == p1;
    assert Pop(p1, "start").1 == p2;
    assert Pop(p2, "size").1 == p3;
    assert Pop(p3, "fields").1 == Delete(p3, "fields");
    if !Has(p3, "fields") {
      assert Delete(p3, "fields") == p3;
    }
  }

  /** The extracted values are those the URL map holds, with their defaults. */
  lemma ExtractParamsValues(params: Params)
    ensures var r := ExtractParams(params);
      && r.q == TextOr(Get(params, "q"), "")
      && r.start == IntOr(Get(params, "start"), 0)
      && r.size == IntOr(Get(params, "size"), DefaultSize)
      && r.fields == (if Has(params, "fields") then Split(TextOr(Get(params, "fields"), ""), ',') else ["*"])
  {
    var p1 := Delete(params, "q");
    var p2 := Delete(p1, "start");
    var p3 := Delete(p2, "size");
    assert Pop(params, "q").1 == p1;
    assert Pop(p1, "start").1 == p2;
    assert Pop(p2, "size").1 == p3;
    assert Pop(p3, "fields").1 == Delete(p3, "fields");
    assert Get(p1, "start") == Get(params, "start");
    assert Get(p2, "size") == Get(params, "size");
    assert Get(p3, "fields") == Get(params, "fields");
  }

  /** The values of `q`, `start`, `size` and `fields` with their defaults
      (`""`, 0, 10 and `["*"]`, a given `fields` split on commas); those keys
      are removed, so they never become filters, and every other key is kept. */
  lemma ExtractParamsSpec(params: Params)
    ensures var r := ExtractParams(params);
      && r.q == TextOr(Get(params, "q"), "")
      && r.start == IntOr(Get(params, "start"), 0)
      && r.size == IntOr(Get(params, "size"), DefaultSize)
      && r.fields == (if Has(params, "fields") then Split(TextOr(Get(params, "fields"), ""), ',') else ["*"])
      && r.rest == PopReserved(params)
  {
    ExtractParamsValues(params);
    ExtractParamsRest(params);
  }

  /** The filter name of a remaining key: `<key>.raw`, after stripping a
      trailing `[]`. */
  function FilterName(k: string): string {
    (if IsArrayKey(k) then k[..|k| - 2] else k) + ".raw"
  }

  /** Builds the filters map from the remaining parameters, with the number
      of values they hold. Every value list is an array; a later key with the
      same filter name replaces the earlier one's values. */
  function BuildFilters(rest: Params): (OrderedMap<string, ParamValue>, nat) {
    if |rest| == 0 then ([], 0)
    else
      var (filters, n) := BuildFilters(rest[..|rest| - 1]);
      var (k, v) := rest[|rest| - 1];
      (Set(filters, FilterName(k), Many(v.AsList())), n + |v.AsList()|)
  }

  /** No two remaining keys share a filter name (as `color` and `color[]` would). */
  predicate NoFilterNameClash(rest: Params) {
    forall i, j :: 0 <= i < j < |rest| ==> FilterName(rest[i].0) != FilterName(rest[j].0)
  }

  /** The filters each remaining entry stands for, in order. */
  function Renamed(rest: Params): (r: OrderedMap<string, ParamValue>)
    ensures |r| == |rest|
    ensures forall i :: 0 <= i < |rest| ==> r[i] == (FilterName(rest[i].0), Many(rest[i].1.AsList()))
  {
    seq(|rest|, i requires 0 <= i < |rest| => (FilterName(rest[i].0), Many(rest[i].1.AsList())))
  }

  lemma TotalValuesLast(m: OrderedMap<string, ParamValue>)
    requires |m| > 0
    ensures TotalValues(m) == TotalValues(m[..|m| - 1]) + |m[|m| - 1].1.AsList()|
  {
    assert m == m[..|m| - 1] + [m[|m| - 1]];
    TotalValuesAppend(m[..|m| - 1], [m[|m| - 1]]);
  }

  /** The count `BuildFilters` returns is the number of remaining values. */
  lemma {:induction false} BuildFiltersCount(rest: Params)
    ensures BuildFilters(rest).1 == TotalValues(rest)
  {
    if |rest| > 0 {
      BuildFiltersCount(rest[..|rest| - 1]);
      TotalValuesLast(rest);
    }
  }

  lemma RenamedLast(rest: Params)
    requires |rest| > 0
    ensures Renamed(rest) == Renamed(rest[..|rest| - 1])
      + [(FilterName(rest[|rest| - 1].0), Many(rest[|rest| - 1].1.AsList()))]
  {
  }

  lemma NoFilterNameClashPrefix(rest: Params)
    requires |rest| > 0 && NoFilterNameClash(rest)
    ensures NoFilterNameClash(rest[..|rest| - 1])
    ensures !Has(Renamed(rest[..|rest| - 1]), FilterName(rest[|rest| - 1].0))
  {
    var prefix := rest[..|rest| - 1];
    forall i, j | 0 <= i < j < |prefix|
      ensures FilterName(prefix[i].0) != FilterName(prefix[j].0)
    {
      assert prefix[i] == rest[i] && prefix[j] == rest[j];
    }
    var before := Renamed(prefix);
    forall i | 0 <= i < |before|
      ensures Keys(before)[i] != FilterName(rest[|rest| - 1].0)
    {
      assert prefix[i] == rest[i];
    }
  }

  /** Without a clash of filter names, the filters are exactly the renamed
      entries, in order. */
  lemma {:induction false} BuildFiltersRenamed(rest: Params)
    requires NoFilterNameClash(rest)
    ensures BuildFilters(rest).0 == Renamed(rest)
  {
    if |rest| > 0 {
      var prefix := rest[..|rest| - 1];
      var last := rest[|rest| - 1];
      NoFilterNameClashPrefix(rest);
      BuildFiltersRenamed(prefix);
      SetAbsent(Renamed(prefix), FilterName(last.0), Many(last.1.AsList()));
      RenamedLast(rest);
    }
  }

  /** Renaming keeps every value list, so it keeps the number of values. */
  lemma {:induction false} RenamedTotalValues(rest: Params)
    ensures TotalValues(Renamed(rest)) == TotalValues(rest)
  {
    if |rest| > 0 {
      RenamedTotalValues(rest[..|rest| - 1]);
      RenamedLast(rest);
      TotalValuesLast(rest);
      TotalValuesLast(Renamed(rest));
      assert Renamed(rest)[..|rest| - 1] == Renamed(rest[..|rest| - 1]);
    }
  }

  /** `aggregationNameFieldMap`: each faceted field aggregates on its `.raw` field. */
  function AggregationNameFieldMap(facetedFields: seq<string>): OrderedMap<string, string> {
    if |facetedFields| == 0 then []
    else
      var name := facetedFields[|facetedFields| - 1];
      Set(AggregationNameFieldMap(facetedFields[..|facetedFields| - 1]), name, name + ".raw")
  }

  /** Every faceted field has an entry. */
  lemma {:induction false} AggregationNameFieldMapHas(facetedFields: seq<string>)
    ensures forall i :: 0 <= i < |facetedFields| ==> Has(AggregationNameFieldMap(facetedFields), facetedFields[i])
  {
    if |facetedFields| > 0 {
      var prefix := facetedFields[..|facetedFields| - 1];
      var name := facetedFields[|facetedFields| - 1];
      var before := AggregationNameFieldMap(prefix);
      var after := AggregationNameFieldMap(facetedFields);
      AggregationNameFieldMapHas(prefix);
      SetHas(before, name, name + ".raw");
      forall i | 0 <= i < |facetedFields|
        ensures Has(after, facetedFields[i])
      {
        if i < |prefix| {
          assert facetedFields[i] == prefix[i];
        }
      }
    }
  }

  /** Every entry maps a faceted field to its `.raw` field. */
  lemma {:induction false} AggregationNameFieldMapEntries(facetedFields: seq<string>)
    ensures forall e :: e in AggregationNameFieldMap(facetedFields) ==>
      e.0 in facetedFields && e.1 == e.0 + ".raw"
  {
    if |facetedFields| > 0 {
      var prefix := facetedFields[..|facetedFields| - 1];
      var name := facetedFields[|facetedFields| - 1];
      var before := AggregationNameFieldMap(prefix);
      AggregationNameFieldMapEntries(prefix);
      SetEntries(before, name, name + ".raw");
      forall e | e in before
        ensures e.0 in facetedFields
      {
        var j :| 0 <= j < |prefix| && prefix[j] == e.0;
        assert facetedFields[j] == e.0;
      }
      var m := AggregationNameFieldMap(facetedFields);
      forall e | e in m
        ensures e.0 in facetedFields && e.1 == e.0 + ".raw"
      {
        var k :| 0 <= k < |m| && m[k] == e;
      }
    }
  }

  /** Every faceted field has an entry, and every entry maps a faceted field
      to its `.raw` field. */
  lemma AggregationNameFieldMapSpec(facetedFields: seq<string>)
    ensures var m := AggregationNameFieldMap(facetedFields);
      && (forall i :: 0 <= i < |facetedFields| ==> Has(m, facetedFields[i]))
      && forall i :: 0 <= i < |m| ==> m[i].0 in facetedFields && m[i].1 == m[i].0 + ".raw"
  {
    AggregationNameFieldMapHas(facetedFields);
    AggregationNameFieldMapEntries(facetedFields);
    var m := AggregationNameFieldMap(facetedFields);
    assert forall i :: 0 <= i < |m| ==> m[i] in m;
  }

  /** The count query: no documents, the search query's own `query`, and one
      terms aggregation on `_index` sized to every known index. */
  datatype CountQuery = CountQuery(size: int, query: QueryBody, aggs: map<string, TermsAgg>)

  /** Everything `search()` derives before sending its two queries. */
  datatype Plan = Plan(
    indices: seq<Option<string>>,
    q: string,
    start: IntOrNaN,
    size: IntOrNaN,
    fields: seq<string>,
    filters: OrderedMap<string, ParamValue>,
    numAppliedFilters: nat,
    searchQuery: Query,
    countQuery: CountQuery)

  /** Fields left out of the returned documents. */
  const SourceExcludes: seq<string> := ["full_text"]

  /** The query parameters `search()` pops from the selected parameters. */
  function PlanExtracted(cfg: Config, pairs: U.Pairs): Extracted {
    ExtractParams(SelectCollections(cfg, GetUrlSearchParams(pairs).params).params)
  }

  /** The parameters that become filters. */
  function RemainingParams(cfg: Config, pairs: U.Pairs): Params {
    PopReserved(SelectCollections(cfg, GetUrlSearchParams(pairs).params).params)
  }

  /** The derivation in `search()` up to the two `executeQuery` calls. */
  function PlanSearch(cfg: Config, pairs: U.Pairs): Plan {
    var sel := SelectCollections(cfg, GetUrlSearchParams(pairs).params);
    var indices := TitlesToIndices(cfg.titleIndex, sel.titles);
    var ex := PlanExtracted(cfg, pairs);
    var (filters, numFilterValues) := BuildFilters(ex.rest);
    var searchQuery := BuildQuery(indices, QueryParams(
      ex.q, filters, ex.start, ex.size, ex.fields,
      AggregationNameFieldMap(cfg.facetedFields), Excludes(SourceExcludes)));
    var allIndices := Keys(cfg.indexTitle);
    var countQuery := CountQuery(0, searchQuery.query,
      map["collection" := TermsAgg("_index", |allIndices|)]);
    Plan(indices, ex.q, ex.start, ex.size, ex.fields, filters,
      sel.numCollections + numFilterValues, searchQuery, countQuery)
  }

  /** The first URL value of `k`, or `default` when absent or empty. */
  function UrlText(pairs: U.Pairs, k: string, default: string): string {
    var vs := U.GetAll(pairs, k);
    if |vs| == 0 || vs[0] == "" then default else vs[0]
  }

  /** `parseInt` of the first URL value of `k`, or `default` when absent or empty. */
  function UrlInt(pairs: U.Pairs, k: string, default: int): IntOrNaN {
    var vs := U.GetAll(pairs, k);
    if |vs| == 0 || vs[0] == "" then Int(default) else ParseInt(vs[0])
  }

  /** The decoded value of a reserved key as `search()` sees it. */
  lemma ReservedValue(cfg: Config, pairs: U.Pairs, k: string)
    requires IsReserved(k)
    ensures var params := SelectCollections(cfg, GetUrlSearchParams(pairs).params).params;
      var vs := U.GetAll(pairs, k);
      Get(params, k) == if |vs| == 0 then None else Some(One(vs[0]))
  {
    assert !IsArrayKey(k) by {
      assert k[|k| - 1] != ']';
    }
    DecodeValue(pairs, k);
  }

  /** `q`, `start`, `size` and `fields` come from the URL's first value of
      each, with the defaults `""`, 0, 10 and `["*"]`. */
  lemma PlanReservedValues(cfg: Config, pairs: U.Pairs)
    ensures var ex := PlanExtracted(cfg, pairs);
      && ex.q == UrlText(pairs, "q", "")
      && ex.start == UrlInt(pairs, "start", 0)
      && ex.size == UrlInt(pairs, "size", DefaultSize)
      && ex.fields == (var vs := U.GetAll(pairs, "fields");
                       if |vs| == 0 then ["*"] else Split(vs[0], ','))
  {
    var params := SelectCollections(cfg, GetUrlSearchParams(pairs).params).params;
    ExtractParamsSpec(params);
    PlanTextValue(cfg, pairs, "q", "");
    PlanIntValue(cfg, pairs, "start", 0);
    PlanIntValue(cfg, pairs, "size", DefaultSize);
    PlanTextValue(cfg, pairs, "fields", "");
    ReservedValue(cfg, pairs, "fields");
  }

  lemma PlanTextValue(cfg: Config, pairs: U.Pairs, k: string, default: string)
    requires IsReserved(k)
    ensures TextOr(Get(SelectCollections(cfg, GetUrlSearchParams(pairs).params).params, k), default)
      == UrlText(pairs, k, default)
  {
    ReservedValue(cfg, pairs, k);
  }

  lemma PlanIntValue(cfg: Config, pairs: U.Pairs, k: string, default: int)
    requires IsReserved(k)
    ensures IntOr(Get(SelectCollections(cfg, GetUrlSearchParams(pairs).params).params, k), default)
      == UrlInt(pairs, k, default)
  {
    ReservedValue(cfg, pairs, k);
  }

  /** The plan carries the extracted query parameters unchanged, and its
      search query uses them. */
  lemma PlanUsesExtracted(cfg: Config, pairs: U.Pairs)
    ensures var plan := PlanSearch(cfg, pairs);
      var ex := PlanExtracted(cfg, pairs);
      && plan.q == ex.q && plan.start == ex.start && plan.size == ex.size && plan.fields == ex.fields
      && plan.searchQuery.from == ex.start && plan.searchQuery.size == ex.size
      && plan.searchQuery.query.Text() == TextClauseOf(ex.q, ex.fields)
      && plan.searchQuery.source == Excludes(SourceExcludes)
  {
  }

  /** The applied-filter count is the number of remaining values plus, on the
      multi-collection page, the number of `collection[]` values; without a
      clash of filter names it is the number of filter values plus those. */
  lemma PlanNumAppliedFilters(cfg: Config, pairs: U.Pairs)
    ensures var plan := PlanSearch(cfg, pairs);
      var rest := RemainingParams(cfg, pairs);
      var collections := if cfg.isMulti then |U.GetAll(pairs, "collection[]")| else 0;
      && plan.numAppliedFilters == TotalValues(rest) + collections
      && (NoFilterNameClash(rest) ==>
            plan.filters == Renamed(rest)
            && plan.numAppliedFilters == TotalValues(plan.filters) + collections)
  {
    var params := GetUrlSearchParams(pairs).params;
    var sel := SelectCollections(cfg, params);
    var rest := PopReserved(sel.params);
    ExtractParamsSpec(sel.params);
    BuildFiltersCount(rest);
    if NoFilterNameClash(rest) {
      BuildFiltersRenamed(rest);
      RenamedTotalValues(rest);
    }
    CollectionCount(cfg, pairs);
  }

  /** On the multi-collection page, each `collection[]` value is one applied filter. */
  lemma CollectionCount(cfg: Config, pairs: U.Pairs)
    ensures SelectCollections(cfg, GetUrlSearchParams(pairs).params).numCollections
      == if cfg.isMulti then |U.GetAll(pairs, "collection[]")| else 0
  {
    assert IsArrayKey("collection[]") by {
      assert "collection[]"[|"collection[]"| - 2..] == "[]";
    }
    DecodeValue(pairs, "collection[]");
  }

  /** No reserved key, and on the multi-collection page no `collection[]`,
      remains to become a filter. */
  lemma RemainingParamsExclude(cfg: Config, pairs: U.Pairs)
    ensures var rest := RemainingParams(cfg, pairs);
      && !Has(rest, "q") && !Has(rest, "start") && !Has(rest, "size") && !Has(rest, "fields")
      && (cfg.isMulti ==> !Has(rest, "collection[]"))
  {
    var sel := SelectCollections(cfg, GetUrlSearchParams(pairs).params);
    PopReservedGet(sel.params, "q");
    PopReservedGet(sel.params, "start");
    PopReservedGet(sel.params, "size");
    PopReservedGet(sel.params, "fields");
    PopReservedGet(sel.params, "collection[]");
  }

  /** Every faceted field gets a terms aggregation on `<field>.raw` capped at
      25 buckets, and nothing else is aggregated. */
  lemma PlanAggregations(cfg: Config, pairs: U.Pairs)
    ensures var aggs := PlanSearch(cfg, pairs).searchQuery.aggs;
      && (forall f :: f in aggs <==> f in cfg.facetedFields)
      && forall f :: f in aggs ==> aggs[f] == TermsAgg(f + ".raw", FacetBucketCap)
  {
    var m := AggregationNameFieldMap(cfg.facetedFields);
    var aggs := Aggregations(m);
    AggregationNameFieldMapSpec(cfg.facetedFields);
    forall f | f in cfg.facetedFields
      ensures f in aggs
    {
      var i :| 0 <= i < |cfg.facetedFields| && cfg.facetedFields[i] == f;
      assert Has(m, f);
      var j :| 0 <= j < |m| && Keys(m)[j] == f;
    }
    forall f | f in aggs
      ensures f in cfg.facetedFields && aggs[f] == TermsAgg(f + ".raw", FacetBucketCap)
    {
      var j :| 0 <= j < |m| && m[j] == (f, aggs[f].field);
    }
  }

  /** The count query returns no documents, reuses the search query's
      `query`, and has one `collection` terms aggregation on `_index` whose
      bucket cap is the number of distinct indices in the directory. */
  lemma CountQuerySpec(cfg: Config, pairs: U.Pairs, dir: seq<DirectoryEntry>)
    requires cfg.indexTitle == IndexTitleMap(dir)
    ensures var plan := PlanSearch(cfg, pairs);
      && plan.countQuery.size == 0
      && plan.countQuery.query == plan.searchQuery.query
      && plan.countQuery.aggs.Keys == {"collection"}
      && plan.countQuery.aggs["collection"] == TermsAgg("_index", |set e | e in dir :: e.index|)
  {
    var m := IndexTitleMap(dir);
    var keys := Keys(m);
    assert Distinct(keys);
    DistinctCardinality(keys);
    assert (set x | x in keys) == (set e | e in dir :: e.index) by {
      forall x | x in keys
        ensures x in (set e | e in dir :: e.index)
      {
        var j :| 0 <= j < |keys| && keys[j] == x;
        IndexTitleMapKeys(dir, j);
      }
    }
  }

  /** Every key of the index-to-title table is some record's index. */
  lemma {:induction false} IndexTitleMapKeys(dir: seq<DirectoryEntry>, j: int)
    requires 0 <= j < |IndexTitleMap(dir)|
    ensures exists e :: e in dir && e.index == IndexTitleMap(dir)[j].0
  {
    var prev := IndexTitleMap(dir[..|dir| - 1]);
    var last := dir[|dir| - 1];
    SetEntries(prev, last.index, last.title);
    var m := IndexTitleMap(dir);
    if m[j] != (last.index, last.title) {
      var t :| 0 <= t < |prev| && prev[t] == m[j];
      IndexTitleMapKeys(dir[..|dir| - 1], t);
      var e :| e in dir[..|dir| - 1] && e.index == prev[t].0;
      assert e in dir;
    } else {
      assert last in dir;
    }
  }

  /** Every directory record's collection has a bucket in the merged
      `collection` aggregation, under the title of the last record for its
      index. */
  lemma DirectoryCollectionsCovered(countBuckets: seq<AggregationMerge.IndexBucket>, dir: seq<DirectoryEntry>)
    ensures var keys := AggregationMerge.BucketKeys(AggregationMerge.MergedCollection(countBuckets, IndexTitleMap(dir)));
      forall i :: 0 <= i < |dir| ==> TitleOfIndex(dir, dir[i].index) in keys
  {
    var m := IndexTitleMap(dir);
    var keys := AggregationMerge.BucketKeys(AggregationMerge.MergedCollection(countBuckets, m));
    AggregationMerge.MergedCollectionCovers(countBuckets, m);
    forall i | 0 <= i < |dir|
      ensures TitleOfIndex(dir, dir[i].index) in keys
    {
      assert Has(m, dir[i].index);
      var j :| 0 <= j < |m| && Keys(m)[j] == dir[i].index;
      assert Get(m, dir[i].index) == Some(m[j].1);
    }
  }

  /** Clicking a page button with offset `s` makes the next search start at `s`. */
  lemma PaginatorClickSetsStart(cfg: Config, url: U.Pairs, s: int)
    ensures PlanSearch(cfg, SearchHandlers.PaginatorClick(url, SearchHandlers.PageButton(s)).value).start == Int(s)
  {
    var next := SearchHandlers.PaginatorClick(url, SearchHandlers.PageButton(s)).value;
    PlanReservedValues(cfg, next);
    if s != 0 {
      ParseIntOfIntToString(s);
      assert IntToString(s) != "";
    }
  }

  /** Pressing Enter in the search box searches for the typed text from the
      first result. */
  lemma SubmitSearchPlan(cfg: Config, url: U.Pairs, inputValue: string)
    ensures var next := SearchHandlers.SearchInputKeydown(url, "Enter", inputValue).value;
      PlanSearch(cfg, next).q == inputValue && PlanSearch(cfg, next).start == Int(0)
  {
    PlanReservedValues(cfg, SearchHandlers.SearchInputKeydown(url, "Enter", inputValue).value);
  }

  /** Choosing a page size searches with that size from the first result. */
  lemma PageSizeChangePlan(cfg: Config, url: U.Pairs, size: string)
    ensures var plan := PlanSearch(cfg, SearchHandlers.PageSizeChange(url, size));
      && plan.size == (if size == "" then Int(DefaultSize) else ParseInt(size))
      && plan.start == Int(0)
  {
    PlanReservedValues(cfg, SearchHandlers.PageSizeChange(url, size));
  }

  /** Toggling a facet value, or clearing the filters, searches from the
      first result again. */
  lemma FilterChangesRestart(cfg: Config, url: U.Pairs, name: string, value: string)
    ensures PlanSearch(cfg, SearchHandlers.FacetValueClick(url, name, value)).start == Int(0)
    ensures PlanSearch(cfg, SearchHandlers.ClearFilters(url)).start == Int(0)
  {
    SearchHandlers.FacetValueClickSpec(url, name, value);
    PlanReservedValues(cfg, SearchHandlers.FacetValueClick(url, name, value));
    SearchHandlers.ClearFiltersSpec(url, "start");
    PlanReservedValues(cfg, SearchHandlers.ClearFilters(url));
  }
}
