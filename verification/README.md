# Search application core, modelled in Dafny

This project models the client-side search application of a digital-collections
website. The application has three parts, all modelled here:

- a browser component reads the page URL's query string and turns it into an
  Elasticsearch query;
- a second "count" query counts the hits in every collection;
- the results are shown as facets, a results header, a paginator and a
  page-size selector.

Clicks and key presses rewrite the query string and start a new search. The
project also models the small Rake task helpers that check task arguments,
read a yes/no answer and escape file names.

Modules, following the program's files:

- `Wrappers`, `Sequences`, `Strings`, `OrderedMaps` are shared vocabulary.
  - `OrderedMaps` models a JavaScript `Map` (and object key order) as a list
    of entries with distinct keys. `set` on an existing key keeps its position.
  - `Strings` holds `split`/`join`, ASCII case mapping, decimal printing and
    `parseInt(s, 10)`.
- `UrlSearchParams` is the browser's `URLSearchParams` over the decoded
  key/value pairs of a query string: `getAll`, `delete`, `append`, `set`.
- `Helpers` covers `_search_app/src/lib/helpers.js`: `PoppableMap.pop`,
  `getUrlSearchParams`, `snakeToTitleCase` and `getAttribute`.
- `Elasticsearch` covers `buildQuery` in `_search_app/src/lib/elasticsearch.js`.
- `SearchPlan` covers `Search.js`:
  - `connectedCallback`'s configuration;
  - everything `search()` derives before it sends its two queries: the
    indices, `q`, `start`, `size`, `fields`, the filters, the applied-filter
    count, the aggregations, the search query and the count query.
- `AggregationMerge` covers how `search()` completes the count response's
  `collection` buckets and puts them into the search response.
- `SearchHandlers` covers the five event handlers of `Search.js`, as
  rewrites of the query string.
- `SearchFacetsView` covers `SearchFacets.js`: which facets are shown, the
  sticky ordering of their values, and the `selected` flag. It also covers the
  facet-name list `renderFacets` passes in.
- `Paginator` covers `Paginator.js`. `BuildControls` and `AdjacentButtons`
  mirror the component's loop; `Controls` is the reference definition they
  are proved equal to.
- `ResultsHeader` covers `SearchResultsHeader.js`.
- `PageSizeSelector` covers `PageSizeSelector.js`.
- `TaskHelpers` covers `rakelib/lib/task-helpers.rb`.

Three behaviours of the code that a reader might not expect:

- **Facet value order.** The facets component sorts by a value's position in
  the *reversed* list of selected values, largest first. This lists selected
  values in the order of their last occurrence in the URL, so without repeats
  the value applied first comes first. For buckets `a, b, c` with `c` then `a`
  selected the order is `[c, a, b]` (`SearchFacetsView.SortExample`).
  `SearchFacetsView.SelectedInUrlOrder` proves the general rule, and
  `SearchFacetsView.SortRepeatedExample` shows a repeated value.
- **`collection[]` on a single-collection page.** The code removes
  `collection[]` only on the multi-collection page. On a single-collection
  page it stays in the parameters and becomes the filter `collection.raw`.
  `SearchPlan.RemainingParamsExclude` states the exclusion only for the
  multi-collection page.
- **Repeated filter names.** `color` and `color[]` both become the filter
  `color.raw`. The later one replaces the earlier one's values, but both count
  towards the applied-filter number. The filter lemmas state the one-to-one
  correspondence under `SearchPlan.NoFilterNameClash`.

## Model

| member | source | states |
|---|---|---|
| OrderedMaps.Pop | _search_app/src/lib/helpers.js:7-17 | On a missing key, `pop` returns undefined and leaves the map as it was. On a present key, it returns the stored value, removes the key, and keeps every other key's value. |
| OrderedMaps.SetGet | _search_app/src/components/Search.js:220-227 | After `Map.set(k, v)`, `get(k)` is `v` and every other key reads as before. |
| OrderedMaps.SetKeys | _search_app/src/components/Search.js:220-227 | `Map.set` keeps an existing key where it was and appends a new key at the end. |
| OrderedMaps.Delete | _search_app/src/components/Search.js:189-192 | `Map.delete(k)` removes `k`, keeps every other key's value, and changes nothing when `k` is absent. |
| UrlSearchParams.Delete | _search_app/src/components/Search.js:423-427 | `URLSearchParams.delete(k)` leaves no value for `k` and keeps the values of every other key. |
| UrlSearchParams.SetValue | _search_app/src/components/Search.js:446 | `URLSearchParams.set(k, v)` leaves exactly the one value `v` for `k` and keeps every other key's values. |
| Helpers.DecodeValue | _search_app/src/lib/helpers.js:38-54 | For each key of the query string: absent means undefined; a key ending in `[]` gets all its values in URL order; any other key gets its first value. |
| Helpers.DecodeKeys | _search_app/src/lib/helpers.js:41-52 | The decoded map's keys are the query string's distinct keys, in order of first appearance. |
| Helpers.DecodeWellFormed | _search_app/src/lib/helpers.js:44-49 | The decoded map has distinct keys. Exactly the keys ending in `[]` hold arrays. |
| Helpers.DecodeWarnings | _search_app/src/lib/helpers.js:47-51 | A repeated key not ending in `[]` warns once for every occurrence after the first. An array key never warns. |
| Helpers.SnakeToTitleCaseSpec | _search_app/src/lib/helpers.js:29-32 | Title-casing throws exactly when some `_`-separated segment is empty. Otherwise the result has the input's length and no `_`: each `_` becomes a space and each segment's first character is upper-cased. |
| Helpers.GetAttribute | _search_app/src/lib/helpers.js:64-78 | Succeeds exactly when the attribute is present or a default is given. It returns the attribute when present, else the default. |
| Strings.ParseIntOfIntToString | _search_app/src/components/Search.js:203-204 | `parseInt` of a printed integer gives the integer back, so an offset written into the URL is read back unchanged. |
| Strings.SplitJoin | _search_app/src/components/Search.js:209 | Splitting a comma-joined list of comma-free names gives the names back. |
| Elasticsearch.TextClauseOf | _search_app/src/lib/elasticsearch.js:33-45 | `match_all` exactly when the query text is empty. Otherwise a `simple_query_string` over the given fields with the operator `and`. |
| Elasticsearch.FilterClauses | _search_app/src/lib/elasticsearch.js:47-55 | One term clause per filter value: as many clauses as values in all. |
| Elasticsearch.FilterClausesAppend | _search_app/src/lib/elasticsearch.js:47-55 | The clauses follow the filters' entry order: the clauses of a concatenation are the concatenation of the clauses. |
| Elasticsearch.Aggregations | _search_app/src/lib/elasticsearch.js:77-89 | Every aggregation name gets a terms aggregation capped at 25 buckets, on a field the name was paired with. |
| Elasticsearch.BuildQuery | _search_app/src/lib/elasticsearch.js:20-95 | `from`, `size` and `_source` are passed through. The query is a `bool` with `must` = the text clause and `filter` = all term clauses exactly when there is a filter value. Otherwise it is the bare text clause. `aggs` is one terms aggregation per entry of the aggregation map. |
| Elasticsearch.BuildQueryIgnoresIndices | _search_app/src/lib/elasticsearch.js:20-30 | The query object does not depend on the indices argument: the indices only choose where the query is sent. |
| SearchPlan.IndexTitleMap | _search_app/src/components/Search.js:135-140 | The index-to-title table has distinct keys and an entry for every directory record's index. Each index maps to the title of the last record for it, and an index with no record is absent (`TitleOfIndex`). |
| SearchPlan.TitleOfIndex | _search_app/src/components/Search.js:137-138 | An index has no title exactly when no record has it. Otherwise its title is that of the last record for it, because a later `set` overwrites an earlier one. |
| SearchPlan.TitleIndexMap | _search_app/src/components/Search.js:135-140 | The title-to-index table has distinct keys and an entry for every directory record's title. Each title maps to the index of the last record with it, and a title with no record is absent (`IndexOfTitle`). |
| SearchPlan.IndexOfTitle | _search_app/src/components/Search.js:137-139 | A title has no index exactly when no record has it. Otherwise its index is that of the last record with it. |
| SearchPlan.ParseFieldListTerminated | _search_app/src/components/Search.js:102-133 | An attribute that writes each field name followed by a comma parses back to exactly those names. |
| SearchPlan.ReadConfig | _search_app/src/components/Search.js:79-140 | Configuration fails exactly when `elasticsearch-url` is missing or not a URL the parser accepts, or when `search-multi` is absent and `elasticsearch-index` is missing or empty. The URL error comes first. On success the page is multi-collection exactly when `search-multi` is present, and the two tables are built from the directory. |
| SearchPlan.ReadConfigNeedsUrl | _search_app/src/components/Search.js:81-89 | A multi-collection page without `elasticsearch-url` fails with the URL error. |
| SearchPlan.SelectCollections | _search_app/src/components/Search.js:174-194 | Single-collection page: the parameters are untouched, no collection filters, and the one title is the host index's title in the index-to-title table (undefined when the table lacks it). Multi-collection page: `collection[]`'s values are the titles and count as applied filters, or every title is used when it is absent. `collection[]` is removed. Every other key is kept. |
| SearchPlan.TitlesToIndices | _search_app/src/components/Search.js:195-197 | One index per title, defined exactly when the title is known. Each defined title's index is the one the title-to-index table holds for it. |
| SearchPlan.PopReservedGet | _search_app/src/components/Search.js:199-210 | Popping the reserved keys removes exactly `q`, `start`, `size` and `fields`. |
| SearchPlan.ExtractParamsSpec | _search_app/src/components/Search.js:199-210 | `q`, `start`, `size` and `fields` take their popped values or the defaults `""`, 0, 10 and `["*"]`. A given `fields` is split on commas. The reserved keys are removed and the rest is kept. |
| SearchPlan.BuildFiltersCount | _search_app/src/components/Search.js:219-227 | The applied-filter count from the remaining parameters is their total number of values. |
| SearchPlan.BuildFiltersRenamed | _search_app/src/components/Search.js:219-227 | When no two names clash, the filters are the remaining entries in order. Each is renamed to `<key without []>.raw` and holds its values as a list. |
| SearchPlan.AggregationNameFieldMapSpec | _search_app/src/components/Search.js:229-233 | Every faceted field has an entry, and every entry maps a faceted field to `<field>.raw`. |
| SearchPlan.PlanReservedValues | _search_app/src/components/Search.js:169-210 | From the URL: `q`, `start`, `size` and `fields` are the first value of each key, or the defaults when the key is absent or empty. `start` and `size` go through `parseInt`. A `fields` that is absent gives `["*"]`; a present one, even empty, is split on commas, so an empty one gives `[""]`. |
| SearchPlan.PlanNumAppliedFilters | _search_app/src/components/Search.js:171-227 | The applied-filter count is the number of remaining values, plus the number of `collection[]` values on the multi-collection page. When no names clash, it is the number of filter values plus those. |
| SearchPlan.CollectionCount | _search_app/src/components/Search.js:184-193 | On the multi-collection page each `collection[]` value in the URL counts as one applied filter; on a single-collection page none does. |
| SearchPlan.RemainingParamsExclude | _search_app/src/components/Search.js:189-210 | No reserved key becomes a filter. On the multi-collection page, `collection[]` does not either. |
| SearchPlan.PlanAggregations | _search_app/src/components/Search.js:229-243 | The search query aggregates exactly the faceted fields, each on `<field>.raw` with 25 buckets. |
| SearchPlan.CountQuerySpec | _search_app/src/components/Search.js:245-260 | The count query returns no documents and reuses the search query's `query`. It has exactly one aggregation, `collection`, on `_index`, capped at the number of distinct directory indices. |
| SearchPlan.PaginatorClickSetsStart | _search_app/src/components/Search.js:494-519 | After a click on a page button with offset `s`, the next search starts at `s`. |
| SearchPlan.SubmitSearchPlan | _search_app/src/components/Search.js:433-453 | After Enter in the search box, the next search looks for the typed text from the first result. |
| SearchPlan.PageSizeChangePlan | _search_app/src/components/Search.js:455-468 | After choosing a page size, the next search uses it (parsed by `parseInt`, 10 when empty) from the first result. |
| SearchPlan.FilterChangesRestart | _search_app/src/components/Search.js:410-431 | Toggling a facet value, or clearing the filters, makes the next search start from the first result. |
| SearchHandlers.FacetKey | _search_app/src/components/Search.js:415 | A facet's URL key ends in `[]`, so it is never `q`, `start` or `size`. |
| SearchHandlers.FacetValueClickSpec | _search_app/src/components/Search.js:410-431 | A facet click toggles the value: selected afterwards exactly when not before. The other selected values keep their order, a newly selected value goes last, `start` goes, and other keys are unchanged. |
| SearchHandlers.SearchInputKeydown | _search_app/src/components/Search.js:433-453 | Only Enter submits. It leaves `q` equal to the input text, removes `start`, and keeps every other key. |
| SearchHandlers.PageSizeChange | _search_app/src/components/Search.js:455-468 | `size` becomes the chosen value, `start` goes, and every other key is kept. |
| SearchHandlers.ArrayKeys | _search_app/src/components/Search.js:475-479 | The keys collected for deletion are exactly the URL's keys that end in `[]`. |
| SearchHandlers.ClearFiltersSpec | _search_app/src/components/Search.js:470-492 | Clearing removes every key ending in `[]` and `start`, and keeps every other key's values. Clearing twice equals clearing once. |
| SearchHandlers.PaginatorClick | _search_app/src/components/Search.js:494-519 | Only a button click acts. Offset 0 removes `start`, any other offset becomes `start`'s one value, and other keys are kept. |
| AggregationMerge.AddMissingBucketsSpec | _search_app/src/components/Search.js:268-275 | The backend's buckets stay first and unchanged. Each added bucket has a zero count and an unreported directory index. The added buckets' indices are the directory's unreported indices, filtered in directory order. Afterwards every directory index has a bucket. |
| AggregationMerge.AddMissingBucketsAppended | _search_app/src/components/Search.js:270-275 | The added indices are a subsequence of the directory list, so they keep its order. Each unreported index is added as often as the directory lists it, and no reported index is added. |
| AggregationMerge.AddMissingBucketsComplete | _search_app/src/components/Search.js:268-275 | If the backend reports each index once and only directory indices, the completed list has exactly one bucket per directory index. |
| AggregationMerge.SwapKeys | _search_app/src/components/Search.js:276-280 | Retitling keeps every count. A bucket gets a title exactly when its index is in the table, and then it gets that index's title. |
| AggregationMerge.MergedCollectionOrder | _search_app/src/components/Search.js:266-281 | The merged `collection` facet lists the backend's buckets first, with their counts and titles. The added buckets after them have zero counts and known titles. |
| AggregationMerge.MergedCollectionCovers | _search_app/src/components/Search.js:268-281 | Every entry of the index-to-title table has a bucket under its title. |
| SearchPlan.DirectoryCollectionsCovered | _search_app/src/components/Search.js:135-140 | Every directory record's index has a bucket in the merged facet, under the title of the last record for that index. |
| AggregationMerge.MergedCollectionExact | _search_app/src/components/Search.js:268-281 | If the backend reports only directory indices, every bucket has a title. If it also reports each index once, there is exactly one bucket per collection. |
| AggregationMerge.MergeCollectionSpec | _search_app/src/components/Search.js:281 | The merge sets the response's `collection` aggregation and leaves every other aggregation as it was. |
| SearchFacetsView.Rank | _search_app/src/components/SearchFacets.js:45-48 | The sort key is -1 exactly for values that are not selected. |
| SearchFacetsView.SortBucketsSpec | _search_app/src/components/SearchFacets.js:43-48 | The sort is a permutation and orders by non-increasing key. It is stable: the buckets of each key keep the backend's order. |
| SearchFacetsView.RankSelected | _search_app/src/components/SearchFacets.js:45-55 | A bucket's sort key is non-negative exactly when the bucket is flagged `selected`. |
| SearchFacetsView.SelectedFirst | _search_app/src/components/SearchFacets.js:43-48 | Selected values come first. After an unselected value only unselected ones follow, in the backend's order. |
| SearchFacetsView.SelectedInUrlOrder | _search_app/src/components/SearchFacets.js:18-48 | Selected values with different keys are listed in the order of their last occurrence in the URL. Without repeats, that is the order they first appear. |
| SearchFacetsView.SortExample | _search_app/src/components/SearchFacets.js:45-48 | `a(5), b(3), c(9)` with `c` then `a` selected is listed `c, a, b`. |
| SearchFacetsView.SortRepeatedExample | _search_app/src/components/SearchFacets.js:45-48 | With `a`, `b`, `a` in the URL, `b` is listed before `a`, because `a` ranks by its later occurrence. |
| SearchFacetsView.RenderFacetsError | _search_app/src/components/SearchFacets.js:35-60 | Rendering stops on an exception exactly when some facet name has no aggregation, or has buckets but cannot be title-cased. |
| SearchFacetsView.RenderFacetsFacets | _search_app/src/components/SearchFacets.js:35-65 | Every rendered facet is a requested name with buckets. Its display name is the title-cased name. Its values are the sorted buckets, each flagged `selected` when its key is among the URL's values. |
| SearchFacetsView.RenderFacetsStep | _search_app/src/components/SearchFacets.js:35-41 | One turn of the loop: when the first name is shown it is rendered first and the rest follow. Otherwise it adds nothing. |
| SearchFacetsView.RenderFacetsComplete | _search_app/src/components/SearchFacets.js:35-41 | Without an exception, the rendered facet names are exactly the requested names whose aggregation has buckets, in the order requested and as often as requested. Empty ones are skipped. |
| SearchFacetsView.FacetKeys | _search_app/src/components/Search.js:315-320 | On the multi-collection page `collection` comes first, then the faceted fields. Otherwise the faceted fields alone. |
| Paginator.CeilDiv | _search_app/src/components/Paginator.js:24 | The last page is the least number of pages of the given size that hold every result. |
| Paginator.AdjacentButtons | _search_app/src/components/Paginator.js:50-68 | The loop over the five page offsets, with its four guards, yields exactly the page buttons of the window: between 1 and the last page, within two of the current one. |
| Paginator.BuildControls | _search_app/src/components/Paginator.js:18-87 | The component's children are, in order: prev; page 1 with an ellipsis; the window; an ellipsis with the last page; next. |
| Paginator.ControlsPageNumbers | _search_app/src/components/Paginator.js:30-78 | The page numbers shown are 1 when the current page is beyond 3, then the window, then the last page when it is more than two pages ahead. |
| Paginator.ControlsPagesIncreasing | _search_app/src/components/Paginator.js:50-68 | Page numbers strictly increase, so none repeats. For a current page between 1 and the last page, all are real pages and the current one is among them. |
| Paginator.ControlsButtons | _search_app/src/components/Paginator.js:34-83 | prev and next go one page back and forward. prev is disabled exactly on page 1, next exactly on the last page. Each page button goes to its page's first result. Only the current page is marked, and it is disabled. |
| Paginator.ControlsEnds | _search_app/src/components/Paginator.js:30-78 | The first-page button and its ellipsis appear when the current page is beyond 3. The last-page button and its ellipsis appear when the last page is more than two ahead. An ellipsis appears only then. |
| Paginator.ControlsExample | _search_app/src/components/Paginator.js:18-87 | 1000 hits, 10 per page, on page 50: pages 1, 48 to 52, and 100. |
| ResultsHeader.Header | _search_app/src/components/SearchResultsHeader.js:24-63 | "No results" exactly when there are no hits. The out-of-range warning exactly when there are hits and the end position is before the start position. Otherwise the size is at least 1, and the page handed to the paginator is the page holding `start`, plus one when `start` is the last offset of its page. |
| ResultsHeader.EndIdxIsMin | _search_app/src/components/SearchResultsHeader.js:18-19 | The last position shown is the smaller of the total and the end of the page. |
| ResultsHeader.OutOfRangeIff | _search_app/src/components/SearchResultsHeader.js:35-43 | With hits, the warning shows exactly when `start` is at or past the total, or the size is below 1. |
| ResultsHeader.ShowingBounds | _search_app/src/components/SearchResultsHeader.js:45-48 | On the normal branch the size is at least 1. The range lies within the results and covers the smaller of a page and what is left. |
| ResultsHeader.CurrentPageInRange | _search_app/src/components/SearchResultsHeader.js:57 | The corrected current page lies between 1 and the last page, and it is the page containing `start`. |
| ResultsHeader.CurrentPageOfPageStart | _search_app/src/components/SearchResultsHeader.js:57 | The corrected current page of a page button's offset is that page, so the header and the paginator agree. |
| ResultsHeader.CurrentPageAsWrittenOffByOne | _search_app/src/components/SearchResultsHeader.js:57 | The template's formula is one more than the current page exactly when `start` is the last offset of a page. |
| ResultsHeader.CurrentPageAsWrittenExample | _search_app/src/components/SearchResultsHeader.js:57 | With 5 hits of size 1, the template marks page 2 on the first page and page 6 of 5 on the last. |
| ResultsHeader.CurrentPageAsWrittenPastEnd | _search_app/src/components/SearchResultsHeader.js:18-57 | When the hits fill their last page, the template's page for the last hit is one past the last page. |
| ResultsHeader.PaginatorAttributes | _search_app/src/components/SearchResultsHeader.js:56-57 | The paginator parses its attributes back to the total, the size and the template's current page. On the last hit of a full last page, that page is one past the last page. |
| PageSizeSelector.OptionValuesSpec | _search_app/src/components/PageSizeSelector.js:18-24 | The listed options stay first and in order. The initial value is always an option, appended only when missing. |
| PageSizeSelector.SelectedCount | _search_app/src/components/PageSizeSelector.js:26-35 | One option per occurrence of the initial value is selected, or one when it was appended. With distinct options, exactly one is selected. |
| PageSizeSelector.StandardOptionValues | _search_app/src/components/SearchResultsHeader.js:52 | The header offers 10, 25, 50 and 100, followed by the current size when it is none of them. |
| TaskHelpers.AssertEnvArgIsValid | rakelib/lib/task-helpers.rb:7-11 | The check passes exactly when the environment is among the valid ones. |
| TaskHelpers.DefaultEnvs | rakelib/lib/task-helpers.rb:7 | By default, exactly DEVELOPMENT, PRODUCTION_PREVIEW and PRODUCTION are valid. |
| TaskHelpers.MissingArgsSpec | rakelib/lib/task-helpers.rb:17-19 | The missing list holds exactly the required names that are absent or nil. They come in the order required, each as often as it is required, so there are no repeats when the required names have none. |
| TaskHelpers.AssertRequiredArgsSpec | rakelib/lib/task-helpers.rb:15-21 | The check passes exactly when every required argument has a non-nil value. Otherwise it aborts, listing the missing ones. |
| TaskHelpers.AnswerOfSpec | rakelib/lib/task-helpers.rb:32-40 | After chomping, a line means yes exactly when it is empty, `y` or `Y`, and no exactly when it is `n` or `N`. |
| TaskHelpers.AnswerExamples | rakelib/lib/task-helpers.rb:32-40 | Enter and `Y` confirm, `N` with CRLF declines, and `yes` is no answer. |
| TaskHelpers.ConfirmFails | rakelib/lib/task-helpers.rb:26-46 | The prompt gets no answer exactly when no line gives one. |
| TaskHelpers.ConfirmAnswer | rakelib/lib/task-helpers.rb:26-46 | The prompt returns the first answering line's answer, after one retry message for each line before it. |
| TaskHelpers.FilenameEscapeSpec | rakelib/lib/task-helpers.rb:50-52 | Escaping keeps the length. Each lower-cased character is kept when it is `a`-`z`, `0`-`9`, `-` or `_`, and becomes `_` otherwise. |
| TaskHelpers.FilenameEscapeIdempotent | rakelib/lib/task-helpers.rb:50-52 | Escaping an escaped name changes nothing. |
| TaskHelpers.FilenameEscapeExample | rakelib/lib/task-helpers.rb:50-52 | `A.b/1` becomes `a_b_1`. |

## Left out

- I/O is parameters or absent. The model has no DOM, element creation, `pushState`, `window.location`, HTTP requests (`executeQuery`, `getIndicesDirectory`), console warnings (`getUrlSearchParams` returns them as a list), `print`/`STDIN` or `abort` (they become `Outcome`/`Result` values).
- Browser query-string decoding (percent-escapes, `+`) is not modelled. The URL is its list of decoded key/value pairs.
- Concurrency is not modelled. The two queries' `Promise.all` and the overlay spinner are outside the model.
- `parseInt` is modelled on integers. Float precision for very long digit strings, white space beyond ASCII, Latin-1 and the byte-order mark, and the sign of `-0` are not modelled.
- NaN for `start` or `size` is not modelled in the results header: `ResultsHeader` takes integers. NaN flows through `SearchPlan` and `Elasticsearch` as `IntOrNaN` unchanged.
- Case mapping is ASCII only. `toUpperCase` in `snakeToTitleCase` and Ruby's `downcase` in `filename_escape` and the prompt map other letters too.
- Paginator.Controls: page sizes below 1 (`Math.ceil` of a division by zero or by a negative) are not modelled. Its only caller, the results header, renders the paginator only when the size is at least 1 (`ResultsHeader.ShowingBounds`).
- SearchPlan.RemainingParamsExclude: states the exclusion of `collection[]` only for the multi-collection page, because the code keeps it as a filter on a single-collection page.
- SearchPlan.BuildFiltersRenamed: relates the filters to the parameters only when no two keys share a filter name (`k` and `k[]`). With a clash, the later entry replaces the earlier one's values while both still count.
- AggregationMerge.MergedCollectionExact: the exact one-bucket-per-collection count is stated only when the backend reports each directory index at most once and nothing else. The count query runs over exactly the directory's indices, but the backend's answer is outside the model.
- SearchPlan.ReadConfig: the browser's URL parser is the parameter `isUrl`. The origin it yields (`esUrl`) only addresses the HTTP requests, so the configuration does not keep it.
- `buildQuery`'s parameter defaults (`size = 20`, `_source = "*"`, and so on) are not modelled, because `search()` passes every parameter.
- The results-rendering components, the multi-collection call-to-action facet, the mobile facet modal and `ensure_dir_exists` are only rendering or file-system code and are not modelled.
- The prompt's end of input (Ruby raises on `nil.chomp`) is modelled as a failure, not as a particular exception.
- A query-string encoder is not modelled, so there is no decode/encode round trip: the code only reads the URL through the browser's own parser.

## Findings

| source | as written | input that shows it | evidently intended | confidence | as-written member | corrected member |
|---|---|---|---|---|---|---|
| _search_app/src/components/SearchResultsHeader.js:57 | The current page handed to the paginator is `Math.floor(startIdx / size) + 1`, using the 1-based `startIdx = start + 1`. That is one too high whenever `start` is the last offset of a page. With a page size of 1, every page is affected. | 5 hits, `size` 1, `start` 0 marks page 2 as current. `start` 4 marks page 6 of 5, so "next" stays enabled on the last page. | `Math.floor(start / size) + 1`: the page containing `start`, which equals the page whose button led there | not executed | ResultsHeader.CurrentPageAsWrittenOffByOne | ResultsHeader.CurrentPageInRange |

`ResultsHeader.Header` hands the paginator the page as written, as the component does. `ResultsHeader.CurrentPage` is the corrected page. `CurrentPageInRange` and `CurrentPageOfPageStart` prove the intended properties about it.
