/** The browser's `URLSearchParams` over an already percent-decoded query
    string: an ordered list of (name, value) pairs in which a name may repeat.
    Percent-encoding and the address bar itself are outside the model. */
module UrlSearchParams {
  import opened Wrappers
  import opened Sequences

  type Pairs = seq<(string, string)>

  /** `params.getAll(k)`: every value named `k`, in order. */
  function GetAll(p: Pairs, k: string): (r: seq<string>)
    ensures |r| <= |p|
    ensures |r| == 0 <==> forall i :: 0 <= i < |p| ==> p[i].0 != k
  {
    if |p| == 0 then []
    else (if p[0].0 == k then [p[0].1] else []) + GetAll(p[1..], k)
  }

  lemma {:induction false} GetAllAppend(p: Pairs, q: Pairs, k: string)
    ensures GetAll(p + q, k) == GetAll(p, k) + GetAll(q, k)
  {
    if |p| == 0 {
      assert p + q == q;
    } else {
      var h := if p[0].0 == k then [p[0].1] else [];
      assert (p + q)[0] == p[0];
      assert (p + q)[1..] == p[1..] + q;
      assert GetAll(p + q, k) == h + GetAll(p[1..] + q, k);
      GetAllAppend(p[1..], q, k);
      assert h + (GetAll(p[1..], k) + GetAll(q, k)) == (h + GetAll(p[1..], k)) + GetAll(q, k);
    }
  }

  /** The values of `k` in a list are those of its prefix, then its last pair's. */
  lemma GetAllLast(p: Pairs, k: string)
    requires |p| > 0
    ensures GetAll(p, k) ==
      GetAll(p[..|p| - 1], k) + (if p[|p| - 1].0 == k then [p[|p| - 1].1] else [])
  {
    assert p == p[..|p| - 1] + [p[|p| - 1]];
    GetAllAppend(p[..|p| - 1], [p[|p| - 1]], k);
  }

  /** `params.has(k)`. */
  predicate Has(p: Pairs, k: string) {
    exists i :: 0 <= i < |p| && p[i].0 == k
  }

  /** `params.delete(k)`: every pair named `k` goes, the others stay in order. */
  function Delete(p: Pairs, k: string): (r: Pairs)
    ensures !Has(r, k)
    ensures GetAll(r, k) == []
    ensures forall k' :: k' != k ==> GetAll(r, k') == GetAll(p, k')
    ensures !Has(p, k) ==> r == p
  {
    if |p| == 0 then []
    else if p[0].0 == k then Delete(p[1..], k)
    else [p[0]] + Delete(p[1..], k)
  }

  /** `params.append(k, v)`. */
  function Append(p: Pairs, k: string, v: string): (r: Pairs)
    ensures GetAll(r, k) == GetAll(p, k) + [v]
    ensures forall k' :: k' != k ==> GetAll(r, k') == GetAll(p, k')
  {
    GetAllAppend(p, [(k, v)], k);
    forall k' | k' != k
      ensures GetAll(p + [(k, v)], k') == GetAll(p, k')
    {
      GetAllAppend(p, [(k, v)], k');
    }
    p + [(k, v)]
  }

  /** Appends each value under `k`, in order (`vs.forEach(v => params.append(k, v))`). */
  function AppendAll(p: Pairs, k: string, vs: seq<string>): (r: Pairs)
    ensures GetAll(r, k) == GetAll(p, k) + vs
    ensures forall k' :: k' != k ==> GetAll(r, k') == GetAll(p, k')
    decreases |vs|
  {
    if |vs| == 0 then p
    else
      var r := AppendAll(Append(p, k, vs[0]), k, vs[1..]);
      assert GetAll(p, k) + [vs[0]] + vs[1..] == GetAll(p, k) + vs;
      r
  }

  /** `params.set(k, v)`: the first pair named `k` takes the value `v` and the
      later ones go; with no such pair, `(k, v)` is appended. */
  function SetValue(p: Pairs, k: string, v: string): (r: Pairs)
    ensures GetAll(r, k) == [v]
    ensures forall k' :: k' != k ==> GetAll(r, k') == GetAll(p, k')
  {
    if |p| == 0 then [(k, v)]
    else if p[0].0 == k then [(k, v)] + Delete(p[1..], k)
    else [p[0]] + SetValue(p[1..], k, v)
  }
}
