/**
 * The ignore array of `merge(to, from, ignoredProperties)` and the guard of
 * the loop in `mergeValues`, which both copies of the service share word for
 * word.
 */
module IgnoreArray {
  import opened Wrappers

  /** The ignore array's contents, `None` for a `null` array. */
  function IgnoreList(a: array?<string>): (r: Option<seq<string>>)
    reads a
  {
    if a == null then None else Some(a[..])
  }

  /** The loop acts on key `k`: the ignore array is not `null` and lacks `k`. */
  predicate Processed(ignored: Option<seq<string>>, k: string)
  {
    ignored.Some? && k !in ignored.value
  }

  /** Sorting the ignore array first does not change which keys the loop acts
      on: the guard depends only on the array's contents as a multiset. */
  lemma ProcessedPermutation(s: seq<string>, u: seq<string>, k: string)
    requires multiset(s) == multiset(u)
    ensures Processed(Some(s), k) <==> Processed(Some(u), k)
  {
    assert k in s <==> k in multiset(s);
    assert k in u <==> k in multiset(u);
  }
}
