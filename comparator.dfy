/** The tuple comparator of tuplesort.go: per-component `<` and `==` that
    dispatch on the first operand's dynamic type, and the lexicographic scan
    that combines them. */
module Comparator {
  import opened GoValues
  import opened Faults

  /** What the failed type assertion `k2.(T)` reports, T being k1's type. */
  function AssertionPanic<T>(k1: Component, k2: Component): Result<T>
  {
    Panic(TypeAssertion(KindOf(k1), KindOf(k2)))
  }

  /** `interfaceLess`: `<` on two components of the same orderable type. A
      boolean, or any type without a case, panics as unsupported; a second
      operand of another type than the first fails the type assertion. */
  function InterfaceLess(k1: Component, k2: Component): (r: Result<bool>)
    ensures r.Ok? <==> Orderable(k1) && KindOf(k2) == KindOf(k1)
    ensures !Orderable(k1) ==> r == Panic(UnsupportedType(TypeName(KindOf(k1))))
    ensures Orderable(k1) && KindOf(k2) != KindOf(k1) ==> r == Panic(TypeAssertion(KindOf(k1), KindOf(k2)))
    ensures r.Ok? && k1.Str? ==> r.value == BytesLess(k1.s, k2.s)
    ensures r.Ok? && IsInteger(k1) ==> r.value == (IntegerValue(k1) < IntegerValue(k2))
    ensures r.Ok? && IsFloat(k1) ==> r.value == FloatLess(FloatValue(k1), FloatValue(k2))
  {
    match k1
    case Str(v) => if k2.Str? then Ok(BytesLess(v, k2.s)) else AssertionPanic(k1, k2)
    case Int(v) => if k2.Int? then Ok(v < k2.i) else AssertionPanic(k1, k2)
    case I8(v) => if k2.I8? then Ok(v < k2.i8) else AssertionPanic(k1, k2)
    case I16(v) => if k2.I16? then Ok(v < k2.i16) else AssertionPanic(k1, k2)
    case I32(v) => if k2.I32? then Ok(v < k2.i32) else AssertionPanic(k1, k2)
    case I64(v) => if k2.I64? then Ok(v < k2.i64) else AssertionPanic(k1, k2)
    case Uint(v) => if k2.Uint? then Ok(v < k2.u) else AssertionPanic(k1, k2)
    case U8(v) => if k2.U8? then Ok(v < k2.u8) else AssertionPanic(k1, k2)
    case U16(v) => if k2.U16? then Ok(v < k2.u16) else AssertionPanic(k1, k2)
    case U32(v) => if k2.U32? then Ok(v < k2.u32) else AssertionPanic(k1, k2)
    case U64(v) => if k2.U64? then Ok(v < k2.u64) else AssertionPanic(k1, k2)
    case F32(v) => if k2.F32? then Ok(FloatLess(v, k2.f32)) else AssertionPanic(k1, k2)
    case F64(v) => if k2.F64? then Ok(FloatLess(v, k2.f64)) else AssertionPanic(k1, k2)
    case Bool(_) => Panic(UnsupportedType("bool"))
    case Unsupported(name) => Panic(UnsupportedType(name))
  }

  /** `interfaceEq`: `==` on two components of the same type. Unlike
      `interfaceLess` it has a case for booleans; a float NaN equals nothing. */
  function InterfaceEq(k1: Component, k2: Component): (r: Result<bool>)
    ensures r.Ok? <==> !k1.Unsupported? && KindOf(k2) == KindOf(k1)
    ensures k1.Unsupported? ==> r == Panic(UnsupportedType(k1.typeName))
    ensures !k1.Unsupported? && KindOf(k2) != KindOf(k1) ==> r == Panic(TypeAssertion(KindOf(k1), KindOf(k2)))
    ensures r.Ok? ==> (r.value <==> k1 == k2 && !IsNaN(k1))
  {
    match k1
    case Str(v) => if k2.Str? then Ok(v == k2.s) else AssertionPanic(k1, k2)
    case Int(v) => if k2.Int? then Ok(v == k2.i) else AssertionPanic(k1, k2)
    case I8(v) => if k2.I8? then Ok(v == k2.i8) else AssertionPanic(k1, k2)
    case I16(v) => if k2.I16? then Ok(v == k2.i16) else AssertionPanic(k1, k2)
    case I32(v) => if k2.I32? then Ok(v == k2.i32) else AssertionPanic(k1, k2)
    case I64(v) => if k2.I64? then Ok(v == k2.i64) else AssertionPanic(k1, k2)
    case Uint(v) => if k2.Uint? then Ok(v == k2.u) else AssertionPanic(k1, k2)
    case U8(v) => if k2.U8? then Ok(v == k2.u8) else AssertionPanic(k1, k2)
    case U16(v) => if k2.U16? then Ok(v == k2.u16) else AssertionPanic(k1, k2)
    case U32(v) => if k2.U32? then Ok(v == k2.u32) else AssertionPanic(k1, k2)
    case U64(v) => if k2.U64? then Ok(v == k2.u64) else AssertionPanic(k1, k2)
    case Bool(v) => if k2.Bool? then Ok(v == k2.b) else AssertionPanic(k1, k2)
    case F32(v) => if k2.F32? then Ok(FloatEq(v, k2.f32)) else AssertionPanic(k1, k2)
    case F64(v) => if k2.F64? then Ok(FloatEq(v, k2.f64)) else AssertionPanic(k1, k2)
    case Unsupported(name) => Panic(UnsupportedType(name))
  }

  /** The scan of `sliceLess` goes past index i exactly when the two
      components there are the same orderable, non-NaN value: then
      `interfaceLess` says false and `interfaceEq` says true. */
  predicate Continues(x: Component, y: Component)
  {
    x == y && Orderable(x) && !IsNaN(x)
  }

  /** The scan goes past every index in [i, k). */
  ghost predicate ContinuesThrough(s1: seq<Component>, s2: seq<Component>, i: nat, k: nat)
    requires i <= k <= |s1| == |s2|
  {
    forall j :: i <= j < k ==> Continues(s1[j], s2[j])
  }

  /** The index where the scan of s1 against s2 stops, looking from i on
      (|s1| if it never stops). */
  ghost function StopIndex(s1: seq<Component>, s2: seq<Component>, i: nat): (k: nat)
    requires |s1| == |s2| && i <= |s1|
    ensures i <= k <= |s1| && ContinuesThrough(s1, s2, i, k)
    ensures k < |s1| ==> !Continues(s1[k], s2[k])
    decreases |s1| - i
  {
    if i == |s1| || !Continues(s1[i], s2[i]) then i else StopIndex(s1, s2, i + 1)
  }

  /** What the scan returns when it stops at k: the verdict of
      `interfaceLess` there, or false when it ran off the end. */
  ghost function VerdictAt(s1: seq<Component>, s2: seq<Component>, k: nat): Result<bool>
    requires k <= |s1| == |s2|
  {
    if k < |s1| then InterfaceLess(s1[k], s2[k]) else Ok(false)
  }

  /** The scan stops at k, looking from i on, exactly when it goes past
      [i, k) and not past k. */
  lemma {:induction false} StopIndexAt(s1: seq<Component>, s2: seq<Component>, i: nat, k: nat)
    requires i <= k <= |s1| == |s2|
    requires ContinuesThrough(s1, s2, i, k) && (k < |s1| ==> !Continues(s1[k], s2[k]))
    ensures StopIndex(s1, s2, i) == k
    decreases k - i
  {
    if i < k {
      assert Continues(s1[i], s2[i]);
      StopIndexAt(s1, s2, i + 1, k);
    }
  }

  /** The `for` loop of `sliceLess`, from index i on. Its result is the
      result of `interfaceLess` at the first index where the scan stops,
      and false if it never stops. */
  function ScanFrom(s1: seq<Component>, s2: seq<Component>, i: nat): (r: Result<bool>)
    requires |s1| == |s2| && i <= |s1|
    ensures r == VerdictAt(s1, s2, StopIndex(s1, s2, i))
    decreases |s1| - i
  {
    if i == |s1| then Ok(false)
    else
      match InterfaceLess(s1[i], s2[i])
      case Panic(p) => Panic(p)
      case Ok(less) =>
        if less then
          LessIrreflexive(s1[i]);
          Ok(true)
        else
          match InterfaceEq(s1[i], s2[i])
          case Panic(p) => Panic(p)
          case Ok(eq) => if !eq then Ok(false) else ScanFrom(s1, s2, i + 1)
  }

  /** `sliceLess`: lexicographic `<` on key tuples. Tuples of different
      lengths panic with both lengths; otherwise the first index where the
      components are not the same orderable, non-NaN value decides, through
      `interfaceLess` there, and tuples where there is no such index are not
      less. */
  function SliceLess(s1: seq<Component>, s2: seq<Component>): (r: Result<bool>)
    ensures |s1| != |s2| ==> r == Panic(LengthMismatch(|s1|, |s2|))
    ensures |s1| == |s2| ==> r == VerdictAt(s1, s2, StopIndex(s1, s2, 0))
  {
    if |s1| != |s2| then
      Panic(LengthMismatch(|s1|, |s2|))
    else
      ScanFrom(s1, s2, 0)
  }

  // ---------------------------------------------------------------------------
  // Properties of the per-component comparison
  // ---------------------------------------------------------------------------

  lemma LessIrreflexive(x: Component)
    requires Orderable(x)
    ensures InterfaceLess(x, x) == Ok(false)
  {
    if x.Str? {
      BytesLessIrreflexive(x.s);
    }
  }

  /** `interfaceLess` never says true both ways, whatever the types. */
  lemma LessAsymmetric(x: Component, y: Component)
    ensures InterfaceLess(x, y) == Ok(true) ==> InterfaceLess(y, x) == Ok(false)
  {
    if x.Str? && y.Str? {
      BytesLessAsymmetric(x.s, y.s);
    }
  }

  lemma LessTransitive(x: Component, y: Component, z: Component)
    ensures InterfaceLess(x, y) == Ok(true) && InterfaceLess(y, z) == Ok(true) ==>
              InterfaceLess(x, z) == Ok(true)
  {
    if x.Str? && y.Str? && z.Str? {
      BytesLessTransitive(x.s, y.s, z.s);
    }
  }

  /** Two different strings, or two different integers of one type, are
      ordered one way or the other. */
  lemma LessConnected(x: Component, y: Component)
    requires TotallyOrdered(x) && KindOf(y) == KindOf(x)
    ensures x != y ==> InterfaceLess(x, y) == Ok(true) || InterfaceLess(y, x) == Ok(true)
  {
    if x.Str? {
      BytesLessConnected(x.s, y.s);
    }
  }
}
