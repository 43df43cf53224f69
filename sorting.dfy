/** In-place sorting of a slice of names under a caller-supplied `Less`, as
    Go's `sort.Sort` does it through the `Len`/`Less`/`Swap` interface. */
module Sorting {
  import opened Strings

  /** No element is out of order with its predecessor. */
  predicate SortedBy(less: (Bytes, Bytes) -> bool, s: seq<Bytes>) {
    forall i :: 0 < i < |s| ==> !less(s[i], s[i - 1])
  }

  /** An element is never less than one that is less than it. */
  ghost predicate Asymmetric(less: (Bytes, Bytes) -> bool) {
    forall a, b :: less(a, b) ==> !less(b, a)
  }

  /** "Not less" is transitive: what makes adjacent order imply global order
      (every strict weak order, and so every strict total order, has it). */
  ghost predicate NotLessTransitive(less: (Bytes, Bytes) -> bool) {
    forall a, b, c :: !less(b, a) && !less(c, b) ==> !less(c, a)
  }

  /** Sorts `a` in place by adjacent swaps (insertion sort). The result is a
      permutation of the input in which no element is less than the one
      before it. */
  method Sort(a: array<Bytes>, less: (Bytes, Bytes) -> bool)
    requires Asymmetric(less)
    modifies a
    ensures SortedBy(less, a[..])
    ensures multiset(a[..]) == multiset(old(a[..]))
  {
    var i := 1;
    while i < a.Length
      invariant a.Length == 0 || 1 <= i <= a.Length
      invariant forall k :: 0 < k < i && k < a.Length ==> !less(a[k], a[k - 1])
      invariant multiset(a[..]) == multiset(old(a[..]))
    {
      Insert(a, i, less);
      i := i + 1;
    }
  }

  /** Moves `a[i]` down into the sorted prefix `a[..i]`, leaving `a[..i + 1]`
      sorted. */
  method Insert(a: array<Bytes>, i: int, less: (Bytes, Bytes) -> bool)
    requires Asymmetric(less)
    requires 0 < i < a.Length
    requires forall k :: 0 < k < i ==> !less(a[k], a[k - 1])
    modifies a
    ensures forall k :: 0 < k <= i ==> !less(a[k], a[k - 1])
    ensures multiset(a[..]) == multiset(old(a[..]))
  {
    var j := i;
    while j > 0 && less(a[j], a[j - 1])
      invariant 0 <= j <= i
      invariant forall k :: 0 < k <= i && k != j ==> !less(a[k], a[k - 1])
      invariant 0 < j < i ==> !less(a[j + 1], a[j - 1])
      invariant multiset(a[..]) == multiset(old(a[..]))
    {
      Swap(a, j, j - 1);
      j := j - 1;
    }
  }

  /** `Swap(i, j)` of the sort interface: exchanges two elements and
      nothing else. */
  method Swap(a: array<Bytes>, i: int, j: int)
    requires 0 <= i < a.Length && 0 <= j < a.Length
    modifies a
    ensures a[i] == old(a[j]) && a[j] == old(a[i])
    ensures forall k :: 0 <= k < a.Length && k != i && k != j ==> a[k] == old(a[k])
    ensures multiset(a[..]) == multiset(old(a[..]))
  {
    a[i], a[j] := a[j], a[i];
  }

  /** Under a transitive "not less", adjacent order is order between any two
      positions. */
  lemma {:induction false} SortedAll(less: (Bytes, Bytes) -> bool, s: seq<Bytes>, i: int, j: int)
    requires NotLessTransitive(less) && SortedBy(less, s)
    requires 0 <= i <= j < |s|
    ensures i < j ==> !less(s[j], s[i])
    decreases j - i
  {
    if i + 1 < j {
      SortedAll(less, s, i, j - 1);
      assert !less(s[j], s[j - 1]);
    }
  }
}
