/** What `sliceLess` promises about key tuples: where it panics, that it looks
    no further than the first difference, and that on tuples of strings and
    integers typed alike column by column it is a strict total order. */
module TupleOrder {
  import opened GoValues
  import opened Faults
  import opened Comparator
  import Decimal

  // ---------------------------------------------------------------------------
  // Panics
  // ---------------------------------------------------------------------------

  /** Tuples of different lengths panic, and the message gives both lengths
      in decimal (which MismatchMessageNamesLengths shows to be unambiguous). */
  lemma LengthMismatchPanics(s1: seq<Component>, s2: seq<Component>)
    requires |s1| != |s2|
    ensures SliceLess(s1, s2).Panic?
    ensures Message(SliceLess(s1, s2).reason) ==
              LengthMismatchPrefix + Decimal.Format(|s1|) + " vs " + Decimal.Format(|s2|)
  {
  }

  /** A component the scan reaches that `interfaceLess` has no case for panics
      as unsupported. This takes in booleans, even two equal ones: the scan
      consults `interfaceLess` before `interfaceEq`, so the boolean case of
      `interfaceEq` is never reached from `sliceLess`. */
  lemma ReachedUnorderablePanics(s1: seq<Component>, s2: seq<Component>, k: nat)
    requires |s1| == |s2| && k < |s1|
    requires ContinuesThrough(s1, s2, 0, k) && !Orderable(s1[k])
    ensures SliceLess(s1, s2) == Panic(UnsupportedType(TypeName(KindOf(s1[k]))))
    ensures s1[k].Bool? ==> SliceLess(s1, s2) == Panic(UnsupportedType("bool"))
  {
    StopIndexAt(s1, s2, 0, k);
  }

  /** A component the scan reaches whose counterpart has another type fails
      the type assertion. */
  lemma ReachedMismatchPanics(s1: seq<Component>, s2: seq<Component>, k: nat)
    requires |s1| == |s2| && k < |s1|
    requires ContinuesThrough(s1, s2, 0, k) && Orderable(s1[k]) && KindOf(s2[k]) != KindOf(s1[k])
    ensures SliceLess(s1, s2) == Panic(TypeAssertion(KindOf(s1[k]), KindOf(s2[k])))
  {
    StopIndexAt(s1, s2, 0, k);
  }

  // ---------------------------------------------------------------------------
  // Short-circuiting
  // ---------------------------------------------------------------------------

  /** The scan returns what `interfaceLess` says at the first index it does
      not go past. */
  lemma DecidedAt(s1: seq<Component>, s2: seq<Component>, k: nat)
    requires |s1| == |s2| && k < |s1|
    requires ContinuesThrough(s1, s2, 0, k) && !Continues(s1[k], s2[k])
    ensures SliceLess(s1, s2) == InterfaceLess(s1[k], s2[k])
  {
    StopIndexAt(s1, s2, 0, k);
  }

  /** Tuples whose components are pairwise the same orderable, non-NaN value
      are not less than each other. */
  lemma AllEqualNotLess(s1: seq<Component>, s2: seq<Component>)
    requires |s1| == |s2| && ContinuesThrough(s1, s2, 0, |s1|)
    ensures SliceLess(s1, s2) == Ok(false)
  {
    StopIndexAt(s1, s2, 0, |s1|);
  }

  /** At the first index where the tuples differ, with the scan going past
      every earlier index, `interfaceLess` decides. */
  lemma FirstDifferenceDecides(s1: seq<Component>, s2: seq<Component>, k: nat)
    requires |s1| == |s2| && k < |s1|
    requires s1[..k] == s2[..k] && s1[k] != s2[k]
    requires forall j :: 0 <= j < k ==> Orderable(s1[j]) && !IsNaN(s1[j])
    ensures SliceLess(s1, s2) == InterfaceLess(s1[k], s2[k])
  {
    forall j | 0 <= j < k
      ensures Continues(s1[j], s2[j])
    {
      assert s1[j] == s1[..k][j] == s2[..k][j] == s2[j];
    }
    StopIndexAt(s1, s2, 0, k);
  }

  /** Once the scan stops at index k, nothing after k matters: tuples that
      agree with s1 and s2 up to and including k compare the same way, whatever
      follows (a type mismatch included). */
  lemma SuffixIgnored(s1: seq<Component>, s2: seq<Component>, t1: seq<Component>, t2: seq<Component>, k: nat)
    requires |s1| == |s2| && |t1| == |t2| && k < |s1| && k < |t1|
    requires s1[..k + 1] == t1[..k + 1] && s2[..k + 1] == t2[..k + 1]
    requires ContinuesThrough(s1, s2, 0, k) && !Continues(s1[k], s2[k])
    ensures SliceLess(t1, t2) == SliceLess(s1, s2)
  {
    forall j | 0 <= j <= k
      ensures t1[j] == s1[j] && t2[j] == s2[j]
    {
      assert t1[j] == t1[..k + 1][j] && s1[j] == s1[..k + 1][j];
      assert t2[j] == t2[..k + 1][j] && s2[j] == s2[..k + 1][j];
    }
    assert ContinuesThrough(t1, t2, 0, k);
    StopIndexAt(s1, s2, 0, k);
    StopIndexAt(t1, t2, 0, k);
  }

  // ---------------------------------------------------------------------------
  // Order properties that hold whatever the component types
  // ---------------------------------------------------------------------------

  /** A tuple is never less than itself, floats and NaN included, as long as
      every component is orderable. */
  lemma SliceLessIrreflexive(s: seq<Component>)
    requires forall i :: 0 <= i < |s| ==> Orderable(s[i])
    ensures SliceLess(s, s) == Ok(false)
  {
    var k := StopIndex(s, s, 0);
    if k < |s| {
      assert IsNaN(s[k]);
    }
  }

  /** `sliceLess` never says true both ways. */
  lemma SliceLessAsymmetric(s1: seq<Component>, s2: seq<Component>)
    ensures SliceLess(s1, s2) == Ok(true) ==> SliceLess(s2, s1) == Ok(false)
  {
    if |s1| == |s2| {
      var k := StopIndex(s1, s2, 0);
      assert ContinuesThrough(s2, s1, 0, k);
      StopIndexAt(s2, s1, 0, k);
      if k < |s1| {
        LessAsymmetric(s1[k], s2[k]);
      }
    }
  }

  /** With a NaN in the first column, two different tuples are neither less
      than the other: the float cases are no total order. */
  lemma NaNTuplesUnordered()
    ensures SliceLess([F64(NaN), Int(1)], [F64(NaN), Int(2)]) == Ok(false)
    ensures SliceLess([F64(NaN), Int(2)], [F64(NaN), Int(1)]) == Ok(false)
  {
    assert !Continues(F64(NaN), F64(NaN));
    assert ContinuesThrough([F64(NaN), Int(1)], [F64(NaN), Int(2)], 0, 0);
    assert ContinuesThrough([F64(NaN), Int(2)], [F64(NaN), Int(1)], 0, 0);
  }

  // ---------------------------------------------------------------------------
  // Strict total order on well-typed tuples
  // ---------------------------------------------------------------------------

  /** The tuple has one string or integer component per column of the schema,
      of the column's kind. */
  ghost predicate Conforms(t: seq<Component>, schema: seq<Kind>)
  {
    |t| == |schema| &&
    forall i :: 0 <= i < |t| ==> KindOf(t[i]) == schema[i] && TotallyOrdered(t[i])
  }

  /** On conforming tuples the scan goes past an index exactly when the
      components there are equal. */
  lemma ConformingContinues(s1: seq<Component>, s2: seq<Component>, schema: seq<Kind>, i: nat)
    requires Conforms(s1, schema) && Conforms(s2, schema) && i < |s1|
    ensures Continues(s1[i], s2[i]) <==> s1[i] == s2[i]
  {
  }

  /** Tuples of one schema compare without panicking. */
  lemma ConformingNeverPanics(s1: seq<Component>, s2: seq<Component>, schema: seq<Kind>)
    requires Conforms(s1, schema) && Conforms(s2, schema)
    ensures SliceLess(s1, s2).Ok?
  {
    var k := StopIndex(s1, s2, 0);
    if k < |s1| {
      assert KindOf(s1[k]) == KindOf(s2[k]);
    }
  }

  lemma SliceLessTransitive(s1: seq<Component>, s2: seq<Component>, s3: seq<Component>, schema: seq<Kind>)
    requires Conforms(s1, schema) && Conforms(s2, schema) && Conforms(s3, schema)
    ensures SliceLess(s1, s2) == Ok(true) && SliceLess(s2, s3) == Ok(true) ==> SliceLess(s1, s3) == Ok(true)
  {
    if SliceLess(s1, s2) == Ok(true) && SliceLess(s2, s3) == Ok(true) {
      var k1 := StopIndex(s1, s2, 0);
      var k2 := StopIndex(s2, s3, 0);
      assert k1 < |s1| && k2 < |s1|;
      var m := if k1 < k2 then k1 else k2;
      forall j | 0 <= j < m
        ensures Continues(s1[j], s3[j])
      {
        assert Continues(s1[j], s2[j]) && Continues(s2[j], s3[j]);
      }
      assert ContinuesThrough(s1, s3, 0, m);
      if k1 < k2 {
        assert s2[m] == s3[m];
      } else if k2 < k1 {
        assert s1[m] == s2[m];
      } else {
        LessTransitive(s1[m], s2[m], s3[m]);
      }
      assert InterfaceLess(s1[m], s3[m]) == Ok(true);
      LessIrreflexive(s1[m]);
      assert !Continues(s1[m], s3[m]);
      StopIndexAt(s1, s3, 0, m);
    }
  }

  /** Two different tuples of one schema are ordered one way or the other. */
  lemma SliceLessConnected(s1: seq<Component>, s2: seq<Component>, schema: seq<Kind>)
    requires Conforms(s1, schema) && Conforms(s2, schema)
    ensures s1 != s2 ==> SliceLess(s1, s2) == Ok(true) || SliceLess(s2, s1) == Ok(true)
  {
    var k := StopIndex(s1, s2, 0);
    if k == |s1| {
      assert forall j :: 0 <= j < |s1| ==> s1[j] == s2[j];
      assert s1 == s2;
    } else {
      assert ContinuesThrough(s2, s1, 0, k);
      StopIndexAt(s2, s1, 0, k);
      LessConnected(s1[k], s2[k]);
    }
  }

  /** Exactly one of s1 < s2, s1 == s2, s2 < s1 holds on tuples of one schema. */
  lemma SliceLessTrichotomous(s1: seq<Component>, s2: seq<Component>, schema: seq<Kind>)
    requires Conforms(s1, schema) && Conforms(s2, schema)
    ensures SliceLess(s1, s2).Ok? && SliceLess(s2, s1).Ok?
    ensures (s1 == s2) <==> (SliceLess(s1, s2) == Ok(false) && SliceLess(s2, s1) == Ok(false))
    ensures !(SliceLess(s1, s2) == Ok(true) && SliceLess(s2, s1) == Ok(true))
  {
    ConformingNeverPanics(s1, s2, schema);
    ConformingNeverPanics(s2, s1, schema);
    if s1 == s2 {
      SliceLessIrreflexive(s1);
    }
    SliceLessConnected(s1, s2, schema);
    SliceLessAsymmetric(s1, s2);
  }

  /** "Not less", the order a sorted slice keeps between neighbours, is
      transitive on tuples of one schema. */
  lemma NotLessTransitive(s1: seq<Component>, s2: seq<Component>, s3: seq<Component>, schema: seq<Kind>)
    requires Conforms(s1, schema) && Conforms(s2, schema) && Conforms(s3, schema)
    requires SliceLess(s2, s1) == Ok(false) && SliceLess(s3, s2) == Ok(false)
    ensures SliceLess(s3, s1) == Ok(false)
  {
    if SliceLess(s1, s2) == Ok(false) {
      SliceLessTrichotomous(s1, s2, schema);
      assert s1 == s2;
      assert SliceLess(s3, s1) == SliceLess(s3, s2);
    } else {
      ConformingNeverPanics(s1, s2, schema);
      ConformingNeverPanics(s3, s1, schema);
      SliceLessTransitive(s3, s1, s2, schema);
    }
  }
}
