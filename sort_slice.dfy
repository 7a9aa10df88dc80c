/** The three functions of Go's `sort` package that the tuple sorts wrap:
    `sort.SliceIsSorted`, `sort.SliceStable` and `sort.Slice`, each driven by
    a `less` callback that may panic instead of answering. The callback is a
    function of two elements (Go's is one of two indices, read from the slice
    at the time of the call, which comes to the same thing). */
module SortSlice {
  import opened Faults

  /** What the callback says about its two arguments, or its panic. */
  type Less<!T> = (T, T) -> Result<bool>

  /** `less` never says true both ways about elements of s: one of the things
      Go's sort asks of its callback, which must be a strict weak order. */
  ghost predicate AsymmetricOn<T>(s: seq<T>, less: Less<T>)
  {
    forall i, j :: 0 <= i < |s| && 0 <= j < |s| && less(s[i], s[j]) == Ok(true) ==> less(s[j], s[i]) == Ok(false)
  }

  /** The element at k does not compare less than the one before it. */
  ghost predicate InOrderAt<T>(s: seq<T>, less: Less<T>, k: int)
    requires 0 < k < |s|
  {
    less(s[k], s[k - 1]) == Ok(false)
  }

  /** No element compares less than the one before it (and no such comparison
      panics): what `sort.SliceIsSorted` reports true for. */
  ghost predicate Sorted<T>(s: seq<T>, less: Less<T>)
  {
    forall k :: 0 < k < |s| ==> InOrderAt(s, less, k)
  }

  /** Every element after index i is in order with its predecessor. */
  ghost predicate InOrderAfter<T>(s: seq<T>, less: Less<T>, i: int)
  {
    forall k :: i < k < |s| && 0 < k ==> InOrderAt(s, less, k)
  }

  /** Dropping the first element keeps a slice sorted. */
  lemma SortedTail<T>(s: seq<T>, less: Less<T>)
    requires |s| > 0 && Sorted(s, less)
    ensures Sorted(s[1..], less)
  {
    forall k | 0 < k < |s[1..]|
      ensures InOrderAt(s[1..], less, k)
    {
      assert InOrderAt(s, less, k + 1);
    }
  }

  /** Any two elements compare without a panic. */
  ghost predicate Comparable<T>(s: seq<T>, less: Less<T>)
  {
    forall i, j :: 0 <= i < |s| && 0 <= j < |s| ==> less(s[i], s[j]).Ok?
  }

  /** Comparing some two elements panics with p. */
  ghost predicate PanicsAmong<T>(s: seq<T>, less: Less<T>, p: PanicReason)
  {
    exists i, j :: 0 <= i < |s| && 0 <= j < |s| && less(s[i], s[j]) == Panic(p)
  }

  /** `less` is a strict weak order on the elements of s: no comparison
      panics, it is asymmetric and irreflexive, and "not less" is transitive
      (so "neither is less" is an equivalence). This is what Go's sort
      functions need of their callback to promise a sorted result. */
  ghost predicate StrictWeakOrderOn<T>(s: seq<T>, less: Less<T>)
  {
    Comparable(s, less) && AsymmetricOn(s, less) &&
    (forall i :: 0 <= i < |s| ==> less(s[i], s[i]) == Ok(false)) &&
    (forall i, j, k ::
       0 <= i < |s| && 0 <= j < |s| && 0 <= k < |s| && less(s[j], s[i]) == Ok(false) && less(s[k], s[j]) == Ok(false)
       ==> less(s[k], s[i]) == Ok(false))
  }

  // ---------------------------------------------------------------------------
  // Rearrangements
  // ---------------------------------------------------------------------------

  /** `perm` is a bijection on [0, n). */
  ghost predicate IsIndexPermutation(perm: seq<int>, n: nat)
  {
    |perm| == n &&
    (forall k :: 0 <= k < n ==> 0 <= perm[k] < n) &&
    (forall k, l :: 0 <= k < l < n ==> perm[k] != perm[l])
  }

  /** `s` holds at each position k the element `orig` held at `perm[k]`. */
  ghost predicate Rearranges<T>(perm: seq<int>, s: seq<T>, orig: seq<T>)
  {
    |s| == |orig| && IsIndexPermutation(perm, |s|) &&
    forall k :: 0 <= k < |s| ==> s[k] == orig[perm[k]]
  }

  /** Rearranging by an index permutation keeps the multiset of elements. */
  lemma {:induction false} RearrangesMultiset<T>(perm: seq<int>, s: seq<T>, orig: seq<T>)
    requires Rearranges(perm, s, orig)
    ensures multiset(s) == multiset(orig)
    decreases |s|
  {
    if |s| > 0 {
      var n := |s| - 1;
      var m := perm[n];
      // drop the last element of s and the element of orig it came from
      var orig' := orig[..m] + orig[m + 1..];
      var perm' := seq(n, k requires 0 <= k < n => if perm[k] < m then perm[k] else perm[k] - 1);
      forall k | 0 <= k < n
        ensures 0 <= perm'[k] < n && s[..n][k] == orig'[perm'[k]]
      {
        assert perm[k] != m;
      }
      forall k, l | 0 <= k < l < n
        ensures perm'[k] != perm'[l]
      {
        assert perm[k] != m && perm[l] != m && perm[k] != perm[l];
      }
      RearrangesMultiset(perm', s[..n], orig');
      assert s == s[..n] + [s[n]];
      assert orig == orig[..m] + [orig[m]] + orig[m + 1..];
    }
  }

  /** Stability: two elements have changed their relative order only if the
      one now in front compares strictly less. Elements that tie keep their
      original order. */
  ghost predicate OnlyStrictInversions<T>(perm: seq<int>, s: seq<T>, less: Less<T>)
    requires |perm| == |s|
  {
    forall k, l :: 0 <= k < l < |s| && perm[l] < perm[k] ==> less(s[k], s[l]) == Ok(true)
  }

  /** `s` is `orig` rearranged by `perm`, with only strict inversions. */
  ghost predicate Tracks<T>(perm: seq<int>, s: seq<T>, orig: seq<T>, less: Less<T>)
  {
    Rearranges(perm, s, orig) && OnlyStrictInversions(perm, s, less)
  }

  /** The neighbours at j - 1 and j exchanged. */
  function Swap<T>(s: seq<T>, j: int): (t: seq<T>)
    requires 0 < j < |s|
    ensures |t| == |s| && t[j - 1] == s[j] && t[j] == s[j - 1]
    ensures forall k :: 0 <= k < |s| && k != j - 1 && k != j ==> t[k] == s[k]
    ensures multiset(t) == multiset(s)
  {
    assert s == s[..j - 1] + [s[j - 1], s[j]] + s[j + 1..];
    assert s[j - 1 := s[j]][j := s[j - 1]] == s[..j - 1] + [s[j], s[j - 1]] + s[j + 1..];
    s[j - 1 := s[j]][j := s[j - 1]]
  }

  /** Swapping the neighbours at j - 1 and j, the later of which is strictly
      less, in the sequence and in the permutation alike keeps the
      rearrangement and adds only a strict inversion. */
  lemma SwapKeepsTracking<T>(s: seq<T>, perm: seq<int>, orig: seq<T>, less: Less<T>, j: int)
    requires 0 < j < |s|
    requires Tracks(perm, s, orig, less)
    requires less(s[j], s[j - 1]) == Ok(true)
    ensures Tracks(Swap(perm, j), Swap(s, j), orig, less)
  {
    var t := Swap(s, j);
    var p := Swap(perm, j);
    forall k, l | 0 <= k < l < |t|
      ensures p[k] != p[l]
      ensures p[l] < p[k] ==> less(t[k], t[l]) == Ok(true)
    {
      // the positions k and l held before the swap
      var k0 := if k == j - 1 then j else if k == j then j - 1 else k;
      var l0 := if l == j - 1 then j else if l == j then j - 1 else l;
      assert t[k] == s[k0] && t[l] == s[l0] && p[k] == perm[k0] && p[l] == perm[l0];
      if k0 > l0 {
        assert k == j - 1 && l == j;
      }
    }
  }

  // ---------------------------------------------------------------------------
  // Insertion
  // ---------------------------------------------------------------------------

  /** The inner loop of an insertion of the element at i: every neighbour pair
      up to i is in order except the one ending at j, where the element being
      inserted now is, and the element after it is in order with the one
      before it. */
  ghost predicate Inserting<T>(s: seq<T>, less: Less<T>, i: int, j: int)
    requires 0 <= j <= i < |s|
  {
    (forall k :: 0 < k <= i && k != j ==> InOrderAt(s, less, k)) &&
    (0 < j < i ==> less(s[j + 1], s[j - 1]) == Ok(false))
  }

  /** Moving the element being inserted one place to the front, past one that
      is strictly greater, keeps the inner loop's invariant. */
  lemma SwapKeepsInserting<T>(s: seq<T>, less: Less<T>, i: int, j: int)
    requires 0 < j <= i < |s| && Inserting(s, less, i, j)
    requires less(s[j], s[j - 1]) == Ok(true) && less(s[j - 1], s[j]) == Ok(false)
    ensures Inserting(Swap(s, j), less, i, j - 1)
  {
    var t := Swap(s, j);
    assert InOrderAt(t, less, j);
    forall k | 0 < k <= i && k != j - 1
      ensures InOrderAt(t, less, k)
    {
      if k == j + 1 {
        assert t[k] == s[j + 1] && t[k - 1] == s[j - 1];
      } else if k != j {
        assert InOrderAt(s, less, k);
        assert t[k] == s[k] && t[k - 1] == s[k - 1];
      }
    }
    if 0 < j - 1 {
      assert InOrderAt(s, less, j - 1);
      assert t[j] == s[j - 1] && t[j - 2] == s[j - 2];
    }
  }

  // ---------------------------------------------------------------------------
  // The sort functions
  // ---------------------------------------------------------------------------

  /** `sort.SliceIsSorted`: looks at neighbours from the end of the slice
      down, returns false at the first element less than its predecessor,
      and passes on the first panic. */
  method IsSortedBy<T>(a: array<T>, less: Less<T>) returns (r: Result<bool>)
    ensures r == Ok(true) <==> Sorted(a[..], less)
    ensures r == Ok(false) ==>
              exists i :: 0 < i < a.Length && less(a[i], a[i - 1]) == Ok(true) && InOrderAfter(a[..], less, i)
    ensures r.Panic? ==>
              exists i :: 0 < i < a.Length && less(a[i], a[i - 1]) == r && InOrderAfter(a[..], less, i)
  {
    var i := a.Length - 1;
    while i > 0
      invariant -1 <= i < a.Length && (a.Length > 0 ==> 0 <= i)
      invariant InOrderAfter(a[..], less, i)
    {
      var c := less(a[i], a[i - 1]);
      if c.Panic? {
        assert !InOrderAt(a[..], less, i);
        return c;
      }
      if c.value {
        assert !InOrderAt(a[..], less, i);
        return Ok(false);
      }
      assert InOrderAt(a[..], less, i);
      i := i - 1;
    }
    return Ok(true);
  }

  /** One pass of the insertion sort: the element at i moves to the front,
      one swap of neighbours at a time, while it is less than the element
      before it. The elements before i are in order on entry and, unless a
      comparison panics, those up to i are in order on exit. */
  method InsertAt<T>(a: array<T>, less: Less<T>, i: int, ghost orig: seq<T>, ghost perm0: seq<int>)
      returns (r: Outcome, ghost perm: seq<int>)
    requires 0 <= i < a.Length
    requires AsymmetricOn(orig, less) && Tracks(perm0, a[..], orig, less)
    requires forall k :: 0 < k < i ==> InOrderAt(a[..], less, k)
    modifies a
    ensures Tracks(perm, a[..], orig, less)
    ensures r.Completed? ==> forall k :: 0 < k <= i ==> InOrderAt(a[..], less, k)
    ensures r.Panicked? ==> PanicsAmong(orig, less, r.reason)
    ensures (i == 0 || InOrderAt(old(a[..]), less, i)) ==> r.Completed? && a[..] == old(a[..])
  {
    perm := perm0;
    var j := i;
    while 0 < j
      invariant 0 <= j <= i
      invariant Tracks(perm, a[..], orig, less)
      invariant Inserting(a[..], less, i, j)
      invariant (i == 0 || InOrderAt(old(a[..]), less, i)) ==> a[..] == old(a[..]) && j == i
    {
      var c := less(a[j], a[j - 1]);
      if c.Panic? {
        assert less(orig[perm[j]], orig[perm[j - 1]]) == Panic(c.reason);
        return Panicked(c.reason), perm;
      }
      if !c.value {
        return Completed, perm;
      }
      assert less(orig[perm[j]], orig[perm[j - 1]]) == Ok(true);
      SwapKeepsTracking(a[..], perm, orig, less, j);
      SwapKeepsInserting(a[..], less, i, j);
      ghost var s := a[..];
      a[j - 1], a[j] := a[j], a[j - 1];
      perm := Swap(perm, j);
      assert a[..] == Swap(s, j);
      j := j - 1;
    }
    return Completed, perm;
  }

  /** `sort.SliceStable`, as an insertion sort by swaps of neighbours (the
      insertion sort Go runs on short slices). A comparison that panics ends
      the sort, with the slice left a rearrangement of what it was. `perm`
      records where each element came from. */
  method StableSortBy<T>(a: array<T>, less: Less<T>) returns (r: Outcome, ghost perm: seq<int>)
    requires AsymmetricOn(a[..], less)
    modifies a
    ensures Rearranges(perm, a[..], old(a[..]))
    ensures multiset(a[..]) == multiset(old(a[..]))
    ensures OnlyStrictInversions(perm, a[..], less)
    ensures r.Completed? ==> Sorted(a[..], less)
    ensures r.Panicked? ==> PanicsAmong(old(a[..]), less, r.reason)
    ensures Comparable(old(a[..]), less) ==> r.Completed?
    ensures Sorted(old(a[..]), less) ==> r.Completed? && a[..] == old(a[..])
  {
    ghost var orig := a[..];
    perm := seq(a.Length, k => k);
    var i := 0;
    while i < a.Length
      invariant 0 <= i <= a.Length
      invariant Tracks(perm, a[..], orig, less)
      invariant forall k :: 0 < k < i ==> InOrderAt(a[..], less, k)
      invariant Sorted(orig, less) ==> a[..] == orig
    {
      assert Sorted(orig, less) && 0 < i ==> InOrderAt(a[..], less, i);
      r, perm := InsertAt(a, less, i, orig, perm);
      if r.Panicked? {
        RearrangesMultiset(perm, a[..], orig);
        return;
      }
      i := i + 1;
    }
    RearrangesMultiset(perm, a[..], orig);
    return Completed, perm;
  }

  /** `sort.Slice`. Its algorithm is not part of this model: this contract,
      which promises nothing about the order of elements that tie, is met by
      any correct sort when `less` is a strict weak order on the slice
      (`StrictWeakOrderOn`), and the insertion sort of StableSortBy stands in for Go's. */
  method SortBy<T>(a: array<T>, less: Less<T>) returns (r: Outcome)
    requires AsymmetricOn(a[..], less)
    modifies a
    ensures multiset(a[..]) == multiset(old(a[..]))
    ensures r.Completed? ==> Sorted(a[..], less)
    ensures r.Panicked? ==> PanicsAmong(old(a[..]), less, r.reason)
    ensures Comparable(old(a[..]), less) ==> r.Completed?
  {
    ghost var perm;
    r, perm := StableSortBy(a, less);
  }
}
