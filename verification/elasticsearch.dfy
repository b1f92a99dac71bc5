/** `buildQuery` of `_search_app/src/lib/elasticsearch.js`: a pure function
    from search parameters to an Elasticsearch query object. The HTTP calls
    (`executeQuery`, `getIndicesDirectory`) are outside the model. */
module Elasticsearch {
  import opened Wrappers
  import opened Strings
  import opened OrderedMaps
  import opened Helpers

  /** The most buckets a facet's terms aggregation asks for. */
  const FacetBucketCap := 25

  /** The full-text part of a query. */
  datatype TextClause =
    | MatchAll
    | SimpleQueryString(query: string, defaultOperator: string, fields: seq<string>)

  /** `{ term: { [field]: value } }`. */
  datatype Term = Term(field: string, value: string)

  /** `query.query`: the text clause alone, or `bool` with `must` and `filter`. */
  datatype QueryBody =
    | Plain(text: TextClause)
    | Bool(must: TextClause, filter: seq<Term>)
  {
    /** The text clause, wherever it sits. */
    function Text(): TextClause {
      match this
      case Plain(t) => t
      case Bool(t, _) => t
    }
  }

  /** `{ terms: { field, size } }`. */
  datatype TermsAgg = TermsAgg(field: string, size: int)

  /** `_source`: `"*"` or `{ excludes: [...] }`. */
  datatype Source = AllFields | Excludes(excluded: seq<string>)

  datatype Query = Query(
    from: IntOrNaN,
    size: IntOrNaN,
    query: QueryBody,
    aggs: map<string, TermsAgg>,
    source: Source)

  /** The arguments of `buildQuery` after its destructuring defaults. */
  datatype QueryParams = QueryParams(
    q: string,
    filters: OrderedMap<string, ParamValue>,
    start: IntOrNaN,
    size: IntOrNaN,
    fields: seq<string>,
    aggregationNameFieldMap: OrderedMap<string, string>,
    source: Source)

  /** `match_all` for an empty query string, else a `simple_query_string`
      over `fields` whose terms are all required. */
  function TextClauseOf(q: string, fields: seq<string>): (r: TextClause)
    ensures r.MatchAll? <==> |q| == 0
    ensures r.SimpleQueryString? ==>
      r.query == q && r.defaultOperator == "and" && r.fields == fields
  {
    if |q| > 0 then SimpleQueryString(q, "and", fields) else MatchAll
  }

  /** One term clause per value, in value order. */
  function TermsFor(name: string, values: seq<string>): (r: seq<Term>)
    ensures |r| == |values|
    ensures forall k :: 0 <= k < |r| ==> r[k] == Term(name, values[k])
  {
    if |values| == 0 then [] else [Term(name, values[0])] + TermsFor(name, values[1..])
  }

  /** The total number of filter values; a lone value counts as one. */
  function TotalValues(filters: OrderedMap<string, ParamValue>): nat {
    if |filters| == 0 then 0 else |filters[0].1.AsList()| + TotalValues(filters[1..])
  }

  lemma {:induction false} TotalValuesAppend(a: OrderedMap<string, ParamValue>, b: OrderedMap<string, ParamValue>)
    ensures TotalValues(a + b) == TotalValues(a) + TotalValues(b)
  {
    if |a| == 0 {
      assert a + b == b;
    } else {
      assert (a + b)[1..] == a[1..] + b;
      TotalValuesAppend(a[1..], b);
    }
  }

  /** The filter context: the term clauses of each entry, in entry order. */
  function FilterClauses(filters: OrderedMap<string, ParamValue>): (r: seq<Term>)
    ensures |r| == TotalValues(filters)
  {
    if |filters| == 0 then []
    else TermsFor(filters[0].0, filters[0].1.AsList()) + FilterClauses(filters[1..])
  }

  /** The clauses of a list of entries are those of its parts, in order. */
  lemma {:induction false} FilterClausesAppend(a: OrderedMap<string, ParamValue>, b: OrderedMap<string, ParamValue>)
    ensures FilterClauses(a + b) == FilterClauses(a) + FilterClauses(b)
  {
    if |a| == 0 {
      assert a + b == b;
    } else {
      assert (a + b)[1..] == a[1..] + b;
      FilterClausesAppend(a[1..], b);
    }
  }

  /** `query.aggs`: one terms aggregation per (name, field) entry, assigned in
      order, so a later entry for a name wins. */
  function Aggregations(m: OrderedMap<string, string>): (r: map<string, TermsAgg>)
    ensures forall i :: 0 <= i < |m| ==> m[i].0 in r
    ensures forall name :: name in r ==>
      r[name].size == FacetBucketCap && (name, r[name].field) in m
  {
    if |m| == 0 then map[]
    else
      var last := m[|m| - 1];
      var r := Aggregations(m[..|m| - 1])[last.0 := TermsAgg(last.1, FacetBucketCap)];
      assert forall i :: 0 <= i < |m| - 1 ==> m[i] == m[..|m| - 1][i];
      r
  }

  /** `buildQuery(indices, params)`. */
  function BuildQuery(indices: seq<Option<string>>, p: QueryParams): (r: Query)
    ensures r.from == p.start && r.size == p.size && r.source == p.source
    ensures r.query.Text() == TextClauseOf(p.q, p.fields)
    ensures r.query.Bool? <==> TotalValues(p.filters) > 0
    ensures r.query.Bool? ==> r.query.filter == FilterClauses(p.filters) && |r.query.filter| > 0
    ensures r.aggs == Aggregations(p.aggregationNameFieldMap)
  {
    var text := TextClauseOf(p.q, p.fields);
    var filterContext := FilterClauses(p.filters);
    var body := if |filterContext| == 0 then Plain(text) else Bool(text, filterContext);
    Query(p.start, p.size, body, Aggregations(p.aggregationNameFieldMap), p.source)
  }

  /** The indices to search do not enter the query object. */
  lemma BuildQueryIgnoresIndices(a: seq<Option<string>>, b: seq<Option<string>>, p: QueryParams)
    ensures BuildQuery(a, p) == BuildQuery(b, p)
  {
  }
}
