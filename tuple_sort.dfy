/** `Tuple`, `TupleStable` and `TupleIsSorted`: Go's `sort.Slice`,
    `sort.SliceStable` and `sort.SliceIsSorted` driven by `sliceLess` of the
    key tuples a key function gives the elements. The key function is a
    function of an element's content, so it follows the elements as the sort
    moves them. */
module TupleSort {
  import opened GoValues
  import opened Faults
  import opened Comparator
  import opened TupleOrder
  import opened SortSlice

  /** The callback the three entry points hand to Go's sort: `sliceLess` of
      the two elements' keys. */
  function KeyLess<T>(key: T -> seq<Component>): Less<T>
  {
    (x, y) => SliceLess(key(x), key(y))
  }

  /** Whatever the key function, `sliceLess` of keys is asymmetric, as Go's
      sort requires of its callback. */
  lemma KeyLessAsymmetric<T>(s: seq<T>, key: T -> seq<Component>)
    ensures AsymmetricOn(s, KeyLess(key))
  {
    forall i, j | 0 <= i < |s| && 0 <= j < |s|
      ensures KeyLess(key)(s[i], s[j]) == Ok(true) ==> KeyLess(key)(s[j], s[i]) == Ok(false)
    {
      SliceLessAsymmetric(key(s[i]), key(s[j]));
    }
  }

  /** `TupleIsSorted`: true exactly when no element's key is less than its
      predecessor's; false, or the panic, from the last place (scanning from
      the end) where that fails. */
  method TupleIsSorted<T>(a: array<T>, key: T -> seq<Component>) returns (r: Result<bool>)
    ensures r == Ok(true) <==> Sorted(a[..], KeyLess(key))
    ensures r == Ok(false) ==>
              exists i :: 0 < i < a.Length && SliceLess(key(a[i]), key(a[i - 1])) == Ok(true) &&
                InOrderAfter(a[..], KeyLess(key), i)
    ensures r.Panic? ==>
              exists i :: 0 < i < a.Length && SliceLess(key(a[i]), key(a[i - 1])) == r &&
                InOrderAfter(a[..], KeyLess(key), i)
  {
    r := IsSortedBy(a, KeyLess(key));
  }

  /** `TupleStable`: sorts by key, keeping elements whose keys tie in their
      original order, unless a comparison of keys panics. */
  method TupleStable<T>(a: array<T>, key: T -> seq<Component>) returns (r: Outcome, ghost perm: seq<int>)
    modifies a
    ensures Rearranges(perm, a[..], old(a[..]))
    ensures multiset(a[..]) == multiset(old(a[..]))
    ensures OnlyStrictInversions(perm, a[..], KeyLess(key))
    ensures r.Completed? ==> Sorted(a[..], KeyLess(key))
    ensures r.Panicked? ==> PanicsAmong(old(a[..]), KeyLess(key), r.reason)
    ensures Comparable(old(a[..]), KeyLess(key)) ==> r.Completed?
    ensures Sorted(old(a[..]), KeyLess(key)) ==> r.Completed? && a[..] == old(a[..])
  {
    KeyLessAsymmetric(a[..], key);
    r, perm := StableSortBy(a, KeyLess(key));
  }

  /** `Tuple`: sorts by key, unless a comparison of keys panics; the order of
      elements whose keys tie is unspecified. */
  method Tuple<T>(a: array<T>, key: T -> seq<Component>) returns (r: Outcome)
    modifies a
    ensures multiset(a[..]) == multiset(old(a[..]))
    ensures r.Completed? ==> Sorted(a[..], KeyLess(key))
    ensures r.Panicked? ==> PanicsAmong(old(a[..]), KeyLess(key), r.reason)
    ensures Comparable(old(a[..]), KeyLess(key)) ==> r.Completed?
  {
    KeyLessAsymmetric(a[..], key);
    r := SortBy(a, KeyLess(key));
  }

  /** What stability means for the result of TupleStable: two elements whose
      keys are equal (and orderable, so not less than each other) are in the
      order they had in the input. */
  lemma EqualKeysKeepOrder<T>(perm: seq<int>, s: seq<T>, orig: seq<T>, key: T -> seq<Component>, k: int, l: int)
    requires Rearranges(perm, s, orig) && OnlyStrictInversions(perm, s, KeyLess(key))
    requires 0 <= k < l < |s| && key(s[k]) == key(s[l])
    requires forall c :: 0 <= c < |key(s[k])| ==> Orderable(key(s[k])[c])
    ensures perm[k] < perm[l]
  {
    SliceLessIrreflexive(key(s[k]));
    assert perm[k] != perm[l];
  }

  // ---------------------------------------------------------------------------
  // Slices whose keys are strings and integers typed alike column by column
  // ---------------------------------------------------------------------------

  /** Every element's key conforms to the schema. */
  ghost predicate KeysConform<T>(s: seq<T>, key: T -> seq<Component>, schema: seq<Kind>)
  {
    forall i :: 0 <= i < |s| ==> Conforms(key(s[i]), schema)
  }

  /** Elements with equal keys are equal. */
  ghost predicate KeyInjective<T>(s: seq<T>, key: T -> seq<Component>)
  {
    forall i, j :: 0 <= i < |s| && 0 <= j < |s| && key(s[i]) == key(s[j]) ==> s[i] == s[j]
  }

  /** Keys of one schema never panic, so neither do the sorts. */
  lemma ConformingKeysComparable<T>(s: seq<T>, key: T -> seq<Component>, schema: seq<Kind>)
    requires KeysConform(s, key, schema)
    ensures Comparable(s, KeyLess(key))
  {
    forall i, j | 0 <= i < |s| && 0 <= j < |s|
      ensures KeyLess(key)(s[i], s[j]).Ok?
    {
      ConformingNeverPanics(key(s[i]), key(s[j]), schema);
    }
  }

  /** Keys of one schema make `sliceLess` a strict weak order on the slice,
      so Go's sort functions promise a sorted result for them. */
  lemma ConformingKeysStrictWeakOrder<T>(s: seq<T>, key: T -> seq<Component>, schema: seq<Kind>)
    requires KeysConform(s, key, schema)
    ensures StrictWeakOrderOn(s, KeyLess(key))
  {
    ConformingKeysComparable(s, key, schema);
    KeyLessAsymmetric(s, key);
    forall i | 0 <= i < |s|
      ensures KeyLess(key)(s[i], s[i]) == Ok(false)
    {
      assert Conforms(key(s[i]), schema);
    }
    forall i, j, k | 0 <= i < |s| && 0 <= j < |s| && 0 <= k < |s| &&
        KeyLess(key)(s[j], s[i]) == Ok(false) && KeyLess(key)(s[k], s[j]) == Ok(false)
      ensures KeyLess(key)(s[k], s[i]) == Ok(false)
    {
      NotLessTransitive(key(s[i]), key(s[j]), key(s[k]), schema);
    }
  }

  /** In a sorted slice with keys of one schema, no key is less than any key
      before it, neighbour or not. */
  lemma {:induction false} SortedKeysAscend<T>(s: seq<T>, key: T -> seq<Component>, schema: seq<Kind>, i: int, j: int)
    requires KeysConform(s, key, schema) && Sorted(s, KeyLess(key))
    requires 0 <= i < j < |s|
    ensures SliceLess(key(s[j]), key(s[i])) == Ok(false)
    decreases j - i
  {
    assert InOrderAt(s, KeyLess(key), j);
    if i < j - 1 {
      SortedKeysAscend(s, key, schema, i, j - 1);
      NotLessTransitive(key(s[i]), key(s[j - 1]), key(s[j]), schema);
    }
  }

  /** Two sorted arrangements of one multiset, with keys of one schema and no
      two elements sharing a key, start with the same element. */
  lemma SortedHeadsAgree<T>(s: seq<T>, t: seq<T>, key: T -> seq<Component>, schema: seq<Kind>)
    requires KeysConform(s, key, schema) && KeyInjective(s, key)
    requires multiset(s) == multiset(t) && |s| > 0 && |t| > 0
    requires Sorted(s, KeyLess(key)) && Sorted(t, KeyLess(key))
    ensures s[0] == t[0]
  {
    assert t[0] in multiset(s) && s[0] in multiset(t);
    var p :| 0 <= p < |s| && s[p] == t[0];
    var q :| 0 <= q < |t| && t[q] == s[0];
    if p != 0 && q != 0 {
      SortedKeysAscend(s, key, schema, 0, p);
      assert KeysConform(t, key, schema) by {
        forall k | 0 <= k < |t|
          ensures Conforms(key(t[k]), schema)
        {
          assert t[k] in multiset(s);
        }
      }
      SortedKeysAscend(t, key, schema, 0, q);
      SliceLessTrichotomous(key(s[0]), key(t[0]), schema);
    }
  }

  /** With keys of one schema and no two elements sharing a key, there is only
      one sorted arrangement of a multiset: whatever algorithm `Tuple` uses,
      its result is determined. */
  lemma {:induction false} SortedArrangementUnique<T>(s: seq<T>, t: seq<T>, key: T -> seq<Component>, schema: seq<Kind>)
    requires KeysConform(s, key, schema) && KeyInjective(s, key)
    requires multiset(s) == multiset(t)
    requires Sorted(s, KeyLess(key)) && Sorted(t, KeyLess(key))
    ensures s == t
    decreases |s|
  {
    assert |s| == |multiset(s)| == |multiset(t)| == |t|;
    if |s| > 0 {
      SortedHeadsAgree(s, t, key, schema);
      assert s == [s[0]] + s[1..] && t == [t[0]] + t[1..];
      assert multiset(s[1..]) == multiset(s) - multiset{s[0]};
      assert multiset(t[1..]) == multiset(t) - multiset{t[0]};
      SortedTail(s, KeyLess(key));
      SortedTail(t, KeyLess(key));
      SortedArrangementUnique(s[1..], t[1..], key, schema);
    }
  }
}
