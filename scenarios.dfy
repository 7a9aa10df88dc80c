/** The repository's own examples of the tuple sort: a slice of records
    sorted by (string, int) and by (int, string), and the inputs on which
    `sliceLess` panics or stops early. */
module Scenarios {
  import opened GoValues
  import opened Faults
  import opened Comparator
  import opened TupleOrder
  import opened SortSlice
  import opened TupleSort

  /** The record the example sorts. */
  datatype Case = Case(s: seq<Byte>, i: GoInt)

  /** The test's first key: the string, then the integer. */
  function ByStringThenInt(c: Case): (k: seq<Component>)
    ensures Conforms(k, [KString, KInt])
  {
    [Str(c.s), Int(c.i)]
  }

  /** The test's second key: the integer, then the string. */
  function ByIntThenString(c: Case): (k: seq<Component>)
    ensures Conforms(k, [KInt, KString])
  {
    [Int(c.i), Str(c.s)]
  }

  // The one-letter strings of the example, as bytes.
  const B: seq<Byte> := [98]
  const X: seq<Byte> := [120]
  const Z: seq<Byte> := [122]

  const Initial: seq<Case> := [Case(B, 2), Case(B, 1), Case(Z, 0), Case(X, 3)]
  const ByStringExpected: seq<Case> := [Case(B, 1), Case(B, 2), Case(X, 3), Case(Z, 0)]
  const ByIntExpected: seq<Case> := [Case(Z, 0), Case(B, 1), Case(B, 2), Case(X, 3)]

  /** Both keys have a fixed schema and tell every two records apart. */
  lemma KeysWellTyped(s: seq<Case>)
    ensures KeysConform(s, ByStringThenInt, [KString, KInt]) && KeyInjective(s, ByStringThenInt)
    ensures KeysConform(s, ByIntThenString, [KInt, KString]) && KeyInjective(s, ByIntThenString)
    ensures Comparable(s, KeyLess(ByStringThenInt)) && Comparable(s, KeyLess(ByIntThenString))
  {
    ConformingKeysComparable(s, ByStringThenInt, [KString, KInt]);
    ConformingKeysComparable(s, ByIntThenString, [KInt, KString]);
  }

  /** At the first column where two keys differ, that column decides. */
  lemma KeysDecideAt(c: Case, d: Case)
    ensures c.s != d.s ==> SliceLess(ByStringThenInt(c), ByStringThenInt(d)) == Ok(BytesLess(c.s, d.s))
    ensures c.s == d.s ==> SliceLess(ByStringThenInt(c), ByStringThenInt(d)) == Ok(c.i < d.i)
    ensures c.i != d.i ==> SliceLess(ByIntThenString(c), ByIntThenString(d)) == Ok(c.i < d.i)
    ensures c.i == d.i ==> SliceLess(ByIntThenString(c), ByIntThenString(d)) == Ok(BytesLess(c.s, d.s))
  {
    var k1, l1 := ByStringThenInt(c), ByStringThenInt(d);
    var k2, l2 := ByIntThenString(c), ByIntThenString(d);
    if c.s != d.s {
      DecidedAt(k1, l1, 0);
    } else {
      assert Continues(k1[0], l1[0]);
      if c.i == d.i {
        AllEqualNotLess(k1, l1);
      } else {
        DecidedAt(k1, l1, 1);
      }
    }
    if c.i != d.i {
      DecidedAt(k2, l2, 0);
    } else {
      assert Continues(k2[0], l2[0]);
      if c.s == d.s {
        AllEqualNotLess(k2, l2);
        BytesLessIrreflexive(c.s);
      } else {
        DecidedAt(k2, l2, 1);
      }
    }
  }

  lemma ByStringExpectedSorted()
    ensures Sorted(ByStringExpected, KeyLess(ByStringThenInt))
    ensures !Sorted(ByStringExpected, KeyLess(ByIntThenString))
  {
    var s := ByStringExpected;
    forall k | 0 < k < 4
      ensures InOrderAt(s, KeyLess(ByStringThenInt), k)
    {
      KeysDecideAt(s[k], s[k - 1]);
    }
    KeysDecideAt(s[3], s[2]);
    assert !InOrderAt(s, KeyLess(ByIntThenString), 3);
  }

  lemma ByIntExpectedSorted()
    ensures Sorted(ByIntExpected, KeyLess(ByIntThenString))
    ensures !Sorted(ByIntExpected, KeyLess(ByStringThenInt))
  {
    var t := ByIntExpected;
    forall k | 0 < k < 4
      ensures InOrderAt(t, KeyLess(ByIntThenString), k)
    {
      KeysDecideAt(t[k], t[k - 1]);
    }
    KeysDecideAt(t[1], t[0]);
    assert !InOrderAt(t, KeyLess(ByStringThenInt), 1);
  }

  lemma InitialUnsorted()
    ensures !Sorted(Initial, KeyLess(ByStringThenInt)) && !Sorted(Initial, KeyLess(ByIntThenString))
  {
    KeysDecideAt(Initial[1], Initial[0]);
    assert !InOrderAt(Initial, KeyLess(ByStringThenInt), 1);
    KeysDecideAt(Initial[2], Initial[1]);
    assert !InOrderAt(Initial, KeyLess(ByIntThenString), 2);
  }

  /** The three slices of the example hold the same records. */
  lemma SameRecords()
    ensures multiset(Initial) == multiset(ByStringExpected) == multiset(ByIntExpected)
  {
    assert Initial == [Initial[0], Initial[1], Initial[2], Initial[3]];
  }

  /** Sorting the initial records by (string, int), with any algorithm, can
      only give the expected slice. */
  lemma SortedByStringIsExpected(s: seq<Case>)
    requires multiset(s) == multiset(Initial) && Sorted(s, KeyLess(ByStringThenInt))
    ensures s == ByStringExpected
  {
    ByStringExpectedSorted();
    SameRecords();
    KeysWellTyped(s);
    SortedArrangementUnique(s, ByStringExpected, ByStringThenInt, [KString, KInt]);
  }

  /** Sorting those by (int, string) can only give the other expected slice. */
  lemma SortedByIntIsExpected(s: seq<Case>)
    requires multiset(s) == multiset(ByStringExpected) && Sorted(s, KeyLess(ByIntThenString))
    ensures s == ByIntExpected
  {
    ByIntExpectedSorted();
    SameRecords();
    KeysWellTyped(s);
    SortedArrangementUnique(s, ByIntExpected, ByIntThenString, [KInt, KString]);
  }

  /** `TupleIsSorted` reports exactly whether the slice is sorted when no key
      comparison can panic. */
  method CheckSorted(a: array<Case>, key: Case -> seq<Component>) returns (r: Result<bool>)
    requires Comparable(a[..], KeyLess(key))
    ensures r == Ok(Sorted(a[..], KeyLess(key)))
  {
    r := TupleIsSorted(a, key);
    assert r.Ok?;
    assert r.value ==> Sorted(a[..], KeyLess(key));
    assert !r.value ==> !Sorted(a[..], KeyLess(key));
  }

  /** Before sorting: `TupleIsSorted` by both keys. */
  method CheckInitial(a: array<Case>) returns (checks: (Result<bool>, Result<bool>))
    requires a[..] == Initial
    ensures checks == (Ok(false), Ok(false))
  {
    InitialUnsorted();
    KeysWellTyped(a[..]);
    var r1 := CheckSorted(a, ByStringThenInt);
    var r2 := CheckSorted(a, ByIntThenString);
    checks := (r1, r2);
  }

  /** The first step of the example: `Tuple` by (string, int), then
      `TupleIsSorted` by both keys. */
  method SortByString(a: array<Case>) returns (checks: (Result<bool>, Result<bool>))
    requires multiset(a[..]) == multiset(Initial)
    modifies a
    ensures a[..] == ByStringExpected && checks == (Ok(true), Ok(false))
  {
    KeysWellTyped(a[..]);
    var o := Tuple(a, ByStringThenInt);
    SortedByStringIsExpected(a[..]);
    ByStringExpectedSorted();
    KeysWellTyped(a[..]);
    var r1 := CheckSorted(a, ByStringThenInt);
    var r2 := CheckSorted(a, ByIntThenString);
    checks := (r1, r2);
  }

  /** The second step: `Tuple` by (int, string), then `TupleIsSorted` by
      both keys. */
  method SortByInt(a: array<Case>) returns (checks: (Result<bool>, Result<bool>))
    requires multiset(a[..]) == multiset(ByStringExpected)
    modifies a
    ensures a[..] == ByIntExpected && checks == (Ok(false), Ok(true))
  {
    KeysWellTyped(a[..]);
    var o := Tuple(a, ByIntThenString);
    SortedByIntIsExpected(a[..]);
    ByIntExpectedSorted();
    KeysWellTyped(a[..]);
    var r1 := CheckSorted(a, ByStringThenInt);
    var r2 := CheckSorted(a, ByIntThenString);
    checks := (r1, r2);
  }

  /** The example of the repository's tests: the initial slice is sorted by
      neither key; sorting by (string, int) and then by (int, string) gives
      the expected slices, each sorted by its own key and not the other. */
  method TupleExample() returns (before: (Result<bool>, Result<bool>), first: seq<Case>, checks1: (Result<bool>, Result<bool>),
                                  second: seq<Case>, checks2: (Result<bool>, Result<bool>))
    ensures before == (Ok(false), Ok(false))
    ensures first == ByStringExpected && checks1 == (Ok(true), Ok(false))
    ensures second == ByIntExpected && checks2 == (Ok(false), Ok(true))
  {
    var a := new Case[4];
    a[0], a[1], a[2], a[3] := Initial[0], Initial[1], Initial[2], Initial[3];
    assert a[..] == Initial;
    before := CheckInitial(a);
    SameRecords();
    checks1 := SortByString(a);
    first := a[..];
    checks2 := SortByInt(a);
    second := a[..];
  }

  // ---------------------------------------------------------------------------
  // Where `sliceLess` panics, and where it stops looking
  // ---------------------------------------------------------------------------

  /** Keys of lengths 1 and 2 panic, naming both lengths. */
  lemma LengthMismatchExample()
    ensures SliceLess([Int(1)], [Int(1), Int(2)]) == Panic(LengthMismatch(1, 2))
    ensures Message(LengthMismatch(1, 2)) == "slices " + "provided by key function have mismatched lengths: " + "1 vs 2"
  {
  }

  /** Two equal booleans panic: `interfaceLess` is consulted first and has no
      boolean case. */
  lemma BoolExample()
    ensures SliceLess([Bool(true)], [Bool(true)]) == Panic(UnsupportedType("bool"))
  {
    ReachedUnorderablePanics([Bool(true)], [Bool(true)], 0);
  }

  /** A string against an int fails the type assertion to string. */
  lemma TypeMismatchExample()
    ensures SliceLess([Str(B)], [Int(1)]) == Panic(TypeAssertion(KString, KInt))
  {
    ReachedMismatchPanics([Str(B)], [Int(1)], 0);
  }

  /** A decision in the first column hides a type mismatch in the second. */
  lemma ShortCircuitExample()
    ensures SliceLess([Int(1), Str(B)], [Int(2), U8(3)]) == Ok(true)
  {
    DecidedAt([Int(1), Str(B)], [Int(2), U8(3)], 0);
  }

  /** The text of the boolean example's panic. */
  lemma UnsupportedMessageExample()
    ensures Message(UnsupportedType("bool")) == "unsupported type " + "bool" + " provided by key function"
  {
  }

  /** The text of the type-mismatch example's panic. */
  lemma AssertionMessageExample()
    ensures Message(TypeAssertion(KString, KInt)) == "interface " + "conversion: interface {} is " + "int, not string"
  {
  }

  // ---------------------------------------------------------------------------
  // Where `sliceLess` is not a strict weak order
  // ---------------------------------------------------------------------------

  /** Three float keys that agree in the first column. */
  const FiveKey: seq<Component> := [F64(Finite(1.0)), F64(Finite(5.0))]
  const NaNKey: seq<Component> := [F64(Finite(1.0)), F64(NaN)]
  const ThreeKey: seq<Component> := [F64(Finite(1.0)), F64(Finite(3.0))]

  /** A NaN in a later column breaks the strict weak order Go's sorts rely
      on: the NaN key is unordered with both others, yet those two are
      ordered, so "not less" is not transitive. */
  lemma NaNKeysNotStrictWeakOrder()
    ensures SliceLess(NaNKey, FiveKey) == Ok(false) && SliceLess(FiveKey, NaNKey) == Ok(false)
    ensures SliceLess(NaNKey, ThreeKey) == Ok(false) && SliceLess(ThreeKey, NaNKey) == Ok(false)
    ensures SliceLess(ThreeKey, FiveKey) == Ok(true)
    ensures !StrictWeakOrderOn([FiveKey, NaNKey, ThreeKey], KeyLess((t: seq<Component>) => t))
  {
    assert Continues(FiveKey[0], NaNKey[0]) && Continues(ThreeKey[0], NaNKey[0]);
    DecidedAt(NaNKey, FiveKey, 1);
    DecidedAt(FiveKey, NaNKey, 1);
    DecidedAt(NaNKey, ThreeKey, 1);
    DecidedAt(ThreeKey, NaNKey, 1);
    DecidedAt(ThreeKey, FiveKey, 1);
    var s := [FiveKey, NaNKey, ThreeKey];
    var less := KeyLess((t: seq<Component>) => t);
    assert less(s[1], s[0]) == Ok(false) && less(s[2], s[1]) == Ok(false) && less(s[2], s[0]) == Ok(true);
  }
}
