/**
 * The three pieces of the Java library the merge loop relies on for its
 * ignore list: the natural order of strings (`String.compareTo`), the in-place
 * `Arrays.sort` on a `String[]` and `Arrays.binarySearch` on the sorted array.
 */
module JavaStrings {

  /** `a.compareTo(b)`: the difference of the first pair of differing characters,
      or of the lengths when one string is a prefix of the other. */
  function CompareTo(a: string, b: string): (r: int)
    ensures r == 0 <==> a == b
  {
    if |a| == 0 || |b| == 0 then |a| - |b|
    else if a[0] != b[0] then a[0] as int - b[0] as int
    else
      var r := CompareTo(a[1..], b[1..]);
      assert a == [a[0]] + a[1..] && b == [b[0]] + b[1..];
      r
  }

  lemma {:induction false} CompareAntisymmetric(a: string, b: string)
    ensures CompareTo(b, a) == -CompareTo(a, b)
  {
    if |a| > 0 && |b| > 0 && a[0] == b[0] {
      CompareAntisymmetric(a[1..], b[1..]);
    }
  }

  lemma {:induction false} CompareTransitive(a: string, b: string, c: string)
    requires CompareTo(a, b) < 0 && CompareTo(b, c) < 0
    ensures CompareTo(a, c) < 0
  {
    if |a| > 0 && |b| > 0 && |c| > 0 && a[0] == b[0] && b[0] == c[0] {
      CompareTransitive(a[1..], b[1..], c[1..]);
    }
  }

  /** "At most, then below" is below. */
  lemma CompareAtMostBelow(a: string, b: string, c: string)
    requires CompareTo(a, b) <= 0 && CompareTo(b, c) < 0
    ensures CompareTo(a, c) < 0
  {
    if a != b {
      CompareTransitive(a, b, c);
    }
  }

  /** "Below, then at most" is below. */
  lemma CompareBelowAtMost(a: string, b: string, c: string)
    requires CompareTo(a, b) < 0 && CompareTo(b, c) <= 0
    ensures CompareTo(a, c) < 0
  {
    if b != c {
      CompareTransitive(a, b, c);
    }
  }

  /** Ascending under `CompareTo`, stated on neighbours. */
  ghost predicate Sorted(s: seq<string>)
  {
    forall k :: 0 < k < |s| ==> CompareTo(s[k - 1], s[k]) <= 0
  }

  lemma {:induction false} SortedPairwise(s: seq<string>, i: nat, j: nat)
    requires Sorted(s) && i <= j < |s|
    ensures CompareTo(s[i], s[j]) <= 0
    decreases j - i
  {
    if i < j {
      SortedPairwise(s, i + 1, j);
      if s[i] != s[i + 1] {
        if s[i + 1] == s[j] {
        } else {
          CompareTransitive(s[i], s[i + 1], s[j]);
        }
      }
    }
  }

  /** A sorted arrangement of a multiset of strings is unique, so any sorting
      algorithm leaves the array in the same final state. */
  lemma {:induction false} SortedPermutationUnique(s: seq<string>, u: seq<string>)
    requires Sorted(s) && Sorted(u) && multiset(s) == multiset(u)
    ensures s == u
    decreases |s|
  {
    assert |u| == |multiset(u)| == |multiset(s)| == |s|;
    if |s| > 0 {
      SortedHeadsEqual(s, u);
      assert multiset(s[1..]) == multiset(u[1..]) by {
        TailMultiset(s);
        TailMultiset(u);
      }
      SortedPermutationUnique(s[1..], u[1..]);
      assert s == [s[0]] + s[1..] && u == [u[0]] + u[1..];
    }
  }

  lemma SortedHeadsEqual(s: seq<string>, u: seq<string>)
    requires Sorted(s) && Sorted(u) && multiset(s) == multiset(u) && |s| > 0
    ensures |u| > 0 && s[0] == u[0]
  {
    assert s[0] in multiset(u);
    var j :| 0 <= j < |u| && u[j] == s[0];
    assert u[0] in multiset(s);
    var i :| 0 <= i < |s| && s[i] == u[0];
    SortedPairwise(s, 0, i);
    SortedPairwise(u, 0, j);
    CompareAntisymmetric(s[0], u[0]);
  }

  lemma TailMultiset(s: seq<string>)
    requires |s| > 0
    ensures multiset(s[1..]) == multiset(s) - multiset{s[0]}
  {
    assert s == [s[0]] + s[1..];
    assert multiset(s) == multiset{s[0]} + multiset(s[1..]);
  }

  /** `Arrays.sort(a)`: reorders the array in place into ascending order.
      (The library uses a merge sort; by SortedPermutationUnique the final
      state does not depend on the algorithm, so an insertion sort stands in.) */
  method Sort(a: array<string>)
    modifies a
    ensures Sorted(a[..])
    ensures multiset(a[..]) == multiset(old(a[..]))
  {
    var i := 0;
    while i < a.Length
      invariant 0 <= i <= a.Length
      invariant forall k :: 0 < k < i ==> CompareTo(a[k - 1], a[k]) <= 0
      invariant multiset(a[..]) == multiset(old(a[..]))
    {
      Insert(a, i);
      i := i + 1;
    }
  }

  /** One pass of the insertion sort: moves `a[i]` down into the sorted prefix `a[..i]`. */
  method Insert(a: array<string>, i: nat)
    requires i < a.Length
    requires forall k :: 0 < k < i ==> CompareTo(a[k - 1], a[k]) <= 0
    modifies a
    ensures forall k :: 0 < k <= i ==> CompareTo(a[k - 1], a[k]) <= 0
    ensures multiset(a[..]) == multiset(old(a[..]))
  {
    var j: nat := i;
    while 0 < j && CompareTo(a[j - 1], a[j]) > 0
      invariant j <= i
      invariant Inserting(a[..], i, j)
      invariant multiset(a[..]) == multiset(old(a[..]))
    {
      ghost var before := a[..];
      a[j - 1], a[j] := a[j], a[j - 1];
      assert a[..] == before[j - 1 := before[j]][j := before[j - 1]];
      InsertStep(before, i, j);
      j := j - 1;
    }
    InsertDone(a[..], i, j);
  }

  /** The state of an insertion pass moving element `i` down, now at `j`: both
      `s[..j]` and `s[j..i + 1]` are ascending, and the element left of the gap
      is at most the one right of the moving element. */
  ghost predicate Inserting(s: seq<string>, i: nat, j: nat)
  {
    && j <= i < |s|
    && (forall k :: 0 < k < j ==> CompareTo(s[k - 1], s[k]) <= 0)
    && (forall k :: j < k <= i ==> CompareTo(s[k - 1], s[k]) <= 0)
    && (0 < j < i ==> CompareTo(s[j - 1], s[j + 1]) <= 0)
  }

  lemma InsertStep(s: seq<string>, i: nat, j: nat)
    requires Inserting(s, i, j) && 0 < j && CompareTo(s[j - 1], s[j]) > 0
    ensures Inserting(s[j - 1 := s[j]][j := s[j - 1]], i, j - 1)
  {
    CompareAntisymmetric(s[j - 1], s[j]);
  }

  lemma InsertDone(s: seq<string>, i: nat, j: nat)
    requires Inserting(s, i, j) && (j == 0 || CompareTo(s[j - 1], s[j]) <= 0)
    ensures forall k :: 0 < k <= i ==> CompareTo(s[k - 1], s[k]) <= 0
  {
  }

  /** `Arrays.binarySearch(a, key)` on a sorted array: the index of `key` when
      present, otherwise `-(insertion point) - 1`. */
  method BinarySearch(a: array<string>, key: string) returns (r: int)
    requires Sorted(a[..])
    ensures r < 0 <==> key !in a[..]
    ensures 0 <= r ==> r < a.Length && a[r] == key
    ensures r < 0 ==> -(r + 1) <= a.Length
    ensures r < 0 ==> forall k :: 0 <= k < -(r + 1) ==> CompareTo(a[k], key) < 0
    ensures r < 0 ==> forall k :: -(r + 1) <= k < a.Length ==> CompareTo(a[k], key) > 0
  {
    var low, high := 0, a.Length - 1;
    while low <= high
      invariant 0 <= low <= high + 1 <= a.Length
      invariant forall k :: 0 <= k < low ==> CompareTo(a[k], key) < 0
      invariant forall k :: high < k < a.Length ==> CompareTo(a[k], key) > 0
      decreases high - low
    {
      var mid := (low + high) / 2;
      var cmp := CompareTo(a[mid], key);
      if cmp < 0 {
        forall k | 0 <= k <= mid
          ensures CompareTo(a[k], key) < 0
        {
          SortedPairwise(a[..], k, mid);
          CompareAtMostBelow(a[k], a[mid], key);
        }
        low := mid + 1;
      } else if cmp > 0 {
        forall k | mid <= k < a.Length
          ensures CompareTo(a[k], key) > 0
        {
          SortedPairwise(a[..], mid, k);
          CompareAntisymmetric(a[mid], key);
          CompareBelowAtMost(key, a[mid], a[k]);
          CompareAntisymmetric(key, a[k]);
        }
        high := mid - 1;
      } else {
        return mid;
      }
    }
    r := -(low + 1);
  }
}
