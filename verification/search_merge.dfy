/** The merge in `search()` of the cross-collection count response into the
    search response (`_search_app/src/components/Search.js`): the count
    query's `collection` buckets are completed with a zero bucket for every
    index they miss, their index names are replaced by collection titles, and
    the result becomes the search response's `collection` aggregation. */
module AggregationMerge {
  import opened Wrappers
  import opened Sequences
  import opened OrderedMaps

  /** A bucket of the count query's `collection` terms aggregation on `_index`. */
  datatype IndexBucket = IndexBucket(index: string, docCount: nat)

  /** A facet bucket as the facets component receives it. A key the
      index-to-title table does not know becomes `undefined`, here `None`. */
  datatype Bucket = Bucket(key: Option<string>, docCount: nat)

  /** A search response's aggregations: name -> buckets, in response order. */
  type Aggregations = OrderedMap<string, seq<Bucket>>

  /** `buckets.map(({ key }) => key)`. */
  function Represented(buckets: seq<IndexBucket>): (r: seq<string>)
    ensures |r| == |buckets|
    ensures forall i :: 0 <= i < |buckets| ==> r[i] == buckets[i].index
  {
    seq(|buckets|, i requires 0 <= i < |buckets| => buckets[i].index)
  }

  /** The directory indices the count response has no bucket for, in directory order. */
  function Unrepresented(buckets: seq<IndexBucket>, allIndices: seq<string>): seq<string> {
    var represented := Represented(buckets);
    Filter((x: string) => x !in represented, allIndices)
  }

  /** Zero-count buckets for `indices`, in order. */
  function ZeroBuckets(indices: seq<string>): (r: seq<IndexBucket>)
    ensures |r| == |indices|
    ensures forall i :: 0 <= i < |indices| ==> r[i] == IndexBucket(indices[i], 0)
  {
    seq(|indices|, i requires 0 <= i < |indices| => IndexBucket(indices[i], 0))
  }

  /** Push a zero bucket for every unrepresented index. */
  function AddMissingBuckets(buckets: seq<IndexBucket>, allIndices: seq<string>): seq<IndexBucket> {
    buckets + ZeroBuckets(Unrepresented(buckets, allIndices))
  }

  /** The indices of zero buckets are the indices they were made for. */
  lemma RepresentedZeroBuckets(indices: seq<string>)
    ensures Represented(ZeroBuckets(indices)) == indices
  {
  }

  /** The backend's buckets stay first and unchanged; each added bucket has a
      zero count and an index of the directory the backend did not report;
      the added buckets' indices are the unreported directory indices in
      directory order; and afterwards every directory index has a bucket. */
  lemma AddMissingBucketsSpec(buckets: seq<IndexBucket>, allIndices: seq<string>)
    ensures var r := AddMissingBuckets(buckets, allIndices);
      && r[..|buckets|] == buckets
      && Represented(r[|buckets|..]) == Unrepresented(buckets, allIndices)
      && (forall i :: |buckets| <= i < |r| ==>
            r[i].docCount == 0 && r[i].index in allIndices && r[i].index !in Represented(buckets))
      && forall i :: 0 <= i < |allIndices| ==> allIndices[i] in Represented(r)
  {
    var r := AddMissingBuckets(buckets, allIndices);
    var missing := Unrepresented(buckets, allIndices);
    assert r[|buckets|..] == ZeroBuckets(missing);
    RepresentedZeroBuckets(missing);
    forall i | 0 <= i < |allIndices|
      ensures allIndices[i] in Represented(r)
    {
      if allIndices[i] in Represented(buckets) {
        var j :| 0 <= j < |buckets| && buckets[j].index == allIndices[i];
        assert r[j] == buckets[j];
      } else {
        assert allIndices[i] in missing;
        var j :| 0 <= j < |missing| && missing[j] == allIndices[i];
        assert r[|buckets| + j].index == allIndices[i];
      }
    }
  }

  /** The added buckets' indices are the directory list with the reported
      indices deleted: they keep the directory's order, and each unreported
      index is added as often as the directory lists it and no other index is. */
  lemma AddMissingBucketsAppended(buckets: seq<IndexBucket>, allIndices: seq<string>)
    ensures var added := Represented(AddMissingBuckets(buckets, allIndices)[|buckets|..]);
      && Subsequence(added, allIndices)
      && forall x :: Count(added, x) == if x in Represented(buckets) then 0 else Count(allIndices, x)
  {
    var represented := Represented(buckets);
    var p := (x: string) => x !in represented;
    AddMissingBucketsSpec(buckets, allIndices);
    FilterSubsequence(p, allIndices);
    forall x
      ensures Count(Filter(p, allIndices), x) == if x in represented then 0 else Count(allIndices, x)
    {
      FilterCount(p, allIndices, x);
    }
  }

  /** When the backend reports each index once and only indices of the
      directory, the completed list has exactly one bucket per directory index. */
  lemma AddMissingBucketsComplete(buckets: seq<IndexBucket>, allIndices: seq<string>)
    requires Distinct(allIndices)
    requires Distinct(Represented(buckets))
    requires forall i :: 0 <= i < |buckets| ==> buckets[i].index in allIndices
    ensures Distinct(Represented(AddMissingBuckets(buckets, allIndices)))
    ensures |AddMissingBuckets(buckets, allIndices)| == |allIndices|
  {
    var r := AddMissingBuckets(buckets, allIndices);
    var represented := Represented(buckets);
    var missing := Unrepresented(buckets, allIndices);
    AddMissingBucketsSpec(buckets, allIndices);
    FilterDistinct((x: string) => x !in represented, allIndices);
    var keys := Represented(r);
    forall i, j | 0 <= i < j < |keys|
      ensures keys[i] != keys[j]
    {
      if j < |buckets| {
        assert keys[i] == represented[i] && keys[j] == represented[j];
      } else if i < |buckets| {
        assert keys[i] in represented;
      } else {
        assert keys[i] == missing[i - |buckets|] && keys[j] == missing[j - |buckets|];
      }
    }
    assert (set x | x in keys) == (set x | x in allIndices) by {
      forall x | x in keys
        ensures x in allIndices
      {
        var i :| 0 <= i < |keys| && keys[i] == x;
        if i < |buckets| {
          assert x == buckets[i].index;
        }
      }
    }
    DistinctCardinality(keys);
    DistinctCardinality(allIndices);
  }

  /** Replace every index name by its collection title. */
  function SwapKeys(buckets: seq<IndexBucket>, indexTitle: OrderedMap<string, string>): (r: seq<Bucket>)
    ensures |r| == |buckets|
    ensures forall i :: 0 <= i < |buckets| ==>
      r[i].docCount == buckets[i].docCount
      && (r[i].key.Some? <==> Has(indexTitle, buckets[i].index))
      && (r[i].key.Some? ==> (buckets[i].index, r[i].key.value) in indexTitle)
  {
    seq(|buckets|, i requires 0 <= i < |buckets| =>
      Bucket(Get(indexTitle, buckets[i].index), buckets[i].docCount))
  }

  /** The completed, retitled `collection` aggregation. */
  function MergedCollection(countBuckets: seq<IndexBucket>, indexTitle: OrderedMap<string, string>): seq<Bucket> {
    SwapKeys(AddMissingBuckets(countBuckets, Keys(indexTitle)), indexTitle)
  }

  /** `searchResponse.aggregations.collection = collectionAgg`. */
  function MergeCollection(searchAggs: Aggregations, countBuckets: seq<IndexBucket>,
                           indexTitle: OrderedMap<string, string>): Aggregations {
    Set(searchAggs, "collection", MergedCollection(countBuckets, indexTitle))
  }

  /** The keys of a bucket list, in order. */
  function BucketKeys(buckets: seq<Bucket>): (r: seq<Option<string>>)
    ensures |r| == |buckets|
    ensures forall i :: 0 <= i < |buckets| ==> r[i] == buckets[i].key
  {
    seq(|buckets|, i requires 0 <= i < |buckets| => buckets[i].key)
  }

  /** The merged `collection` facet lists the backend's buckets first, with
      their counts and their index's title; the buckets after them have a
      zero count and a known title. */
  lemma MergedCollectionOrder(countBuckets: seq<IndexBucket>, indexTitle: OrderedMap<string, string>)
    ensures var r := MergedCollection(countBuckets, indexTitle);
      && |r| >= |countBuckets|
      && (forall i :: 0 <= i < |countBuckets| ==>
            r[i].docCount == countBuckets[i].docCount && r[i].key == Get(indexTitle, countBuckets[i].index))
      && (forall i :: |countBuckets| <= i < |r| ==> r[i].docCount == 0 && r[i].key.Some?)
  {
    var allIndices := Keys(indexTitle);
    var full := AddMissingBuckets(countBuckets, allIndices);
    var r := SwapKeys(full, indexTitle);
    AddMissingBucketsSpec(countBuckets, allIndices);
    forall i | 0 <= i < |countBuckets|
      ensures r[i].key == Get(indexTitle, countBuckets[i].index)
    {
      assert full[i] == countBuckets[i];
    }
    forall i | |countBuckets| <= i < |r|
      ensures r[i].key.Some?
    {
      var j :| 0 <= j < |allIndices| && allIndices[j] == full[i].index;
      assert Has(indexTitle, full[i].index);
    }
  }

  /** Every collection of the directory has a bucket under its title. */
  lemma MergedCollectionCovers(countBuckets: seq<IndexBucket>, indexTitle: OrderedMap<string, string>)
    requires Valid(indexTitle)
    ensures forall i :: 0 <= i < |indexTitle| ==>
      Some(indexTitle[i].1) in BucketKeys(MergedCollection(countBuckets, indexTitle))
  {
    var allIndices := Keys(indexTitle);
    var full := AddMissingBuckets(countBuckets, allIndices);
    var r := SwapKeys(full, indexTitle);
    AddMissingBucketsSpec(countBuckets, allIndices);
    forall i | 0 <= i < |indexTitle|
      ensures Some(indexTitle[i].1) in BucketKeys(r)
    {
      assert allIndices[i] in Represented(full);
      var j :| 0 <= j < |full| && full[j].index == indexTitle[i].0;
      assert BucketKeys(r)[j] == Some(indexTitle[i].1);
    }
  }

  /** The backend reports only indices of the directory. */
  predicate KnownIndices(countBuckets: seq<IndexBucket>, indexTitle: OrderedMap<string, string>) {
    forall i :: 0 <= i < |countBuckets| ==> Has(indexTitle, countBuckets[i].index)
  }

  /** When the backend reports only directory indices, every bucket has a
      title; if it also reports each index once, there is exactly one bucket
      per collection. */
  lemma MergedCollectionExact(countBuckets: seq<IndexBucket>, indexTitle: OrderedMap<string, string>)
    requires Valid(indexTitle)
    ensures KnownIndices(countBuckets, indexTitle) ==>
      forall i :: 0 <= i < |MergedCollection(countBuckets, indexTitle)| ==>
        MergedCollection(countBuckets, indexTitle)[i].key.Some?
    ensures KnownIndices(countBuckets, indexTitle) && Distinct(Represented(countBuckets)) ==>
      |MergedCollection(countBuckets, indexTitle)| == |indexTitle|
  {
    var allIndices := Keys(indexTitle);
    MergedCollectionOrder(countBuckets, indexTitle);
    if KnownIndices(countBuckets, indexTitle) {
      var r := MergedCollection(countBuckets, indexTitle);
      forall i | 0 <= i < |countBuckets|
        ensures r[i].key.Some?
      {
        assert Has(indexTitle, countBuckets[i].index);
      }
      if Distinct(Represented(countBuckets)) {
        forall i | 0 <= i < |countBuckets|
          ensures countBuckets[i].index in allIndices
        {
          assert Has(indexTitle, countBuckets[i].index);
        }
        assert Distinct(allIndices) by {
          forall i, j | 0 <= i < j < |allIndices|
            ensures allIndices[i] != allIndices[j]
          {
            assert indexTitle[i].0 != indexTitle[j].0;
          }
        }
        AddMissingBucketsComplete(countBuckets, allIndices);
      }
    }
  }

  /** The merge sets the `collection` aggregation and leaves every other
      aggregation of the search response as it was. */
  lemma MergeCollectionSpec(searchAggs: Aggregations, countBuckets: seq<IndexBucket>,
                            indexTitle: OrderedMap<string, string>, name: string)
    ensures Get(MergeCollection(searchAggs, countBuckets, indexTitle), "collection")
      == Some(MergedCollection(countBuckets, indexTitle))
    ensures name != "collection" ==>
      Get(MergeCollection(searchAggs, countBuckets, indexTitle), name) == Get(searchAggs, name)
  {
    SetGet(searchAggs, "collection", MergedCollection(countBuckets, indexTitle), name);
  }
}
