/** Go panics, as values: every operation of the comparator either returns
    normally (`Ok`) or panics (`Panic`) with one of the reasons below. */
module Faults {
  import opened GoValues
  import Decimal

  datatype PanicReason =
    /** The two key tuples had different lengths. */
    | LengthMismatch(len1: nat, len2: nat)
    /** The type switch met a dynamic type it has no case for. */
    | UnsupportedType(typeName: string)
    /** The type assertion on the second operand failed: `asserted`
        is the first operand's kind, `actual` the second's. */
    | TypeAssertion(asserted: Kind, actual: Kind)

  datatype Result<T> = Ok(value: T) | Panic(reason: PanicReason)

  /** The result of a sort, which returns nothing unless it panics. */
  datatype Outcome = Completed | Panicked(reason: PanicReason)

  const LengthMismatchPrefix: string := "slices " + "provided by key function have mismatched lengths: "

  const UnsupportedPrefix: string := "unsupported type "
  const UnsupportedSuffix: string := " provided by key function"
  const ConversionPrefix: string := "interface " + "conversion: interface {} is "

  /** The text the panic carries. The first two are the comparator's own
      `fmt.Sprintf` messages; the third is the Go runtime's, for a failed
      assertion from `interface{}` to a concrete type. Each kind of panic
      has its own opening words. */
  function Message(p: PanicReason): (r: string)
    ensures p.LengthMismatch? ==> LengthMismatchPrefix <= r
    ensures p.UnsupportedType? ==> UnsupportedPrefix <= r
    ensures p.TypeAssertion? ==> ConversionPrefix <= r
    ensures |r| > 0 && (p.LengthMismatch? <==> r[0] == 's') && (p.UnsupportedType? <==> r[0] == 'u')
  {
    match p
    case LengthMismatch(l1, l2) =>
      var r := LengthMismatchPrefix + Decimal.Format(l1) + " vs " + Decimal.Format(l2);
      assert LengthMismatchPrefix <= r;
      assert r[0] == 's';
      r
    case UnsupportedType(name) =>
      var r := UnsupportedPrefix + name + UnsupportedSuffix;
      assert UnsupportedPrefix <= r;
      assert r[0] == 'u';
      r
    case TypeAssertion(asserted, actual) =>
      var r := ConversionPrefix + TypeName(actual) + ", not " + TypeName(asserted);
      assert ConversionPrefix <= r;
      assert r[0] == 'i';
      r
  }

  /** The unsupported-type message names the type: distinct names give
      distinct messages. */
  lemma UnsupportedMessageNamesType(n1: string, n2: string)
    requires Message(UnsupportedType(n1)) == Message(UnsupportedType(n2))
    ensures n1 == n2
  {
    var m1, m2 := Message(UnsupportedType(n1)), Message(UnsupportedType(n2));
    var p, q := |UnsupportedPrefix|, |UnsupportedSuffix|;
    assert |n1| == |m1| - p - q == |n2|;
    assert n1 == m1[p..p + |n1|];
    assert n2 == m2[p..p + |n2|];
  }

  /** The position of the first space in `s`, or `|s|` if there is none. */
  function SpaceIndex(s: string): (k: nat)
    ensures k <= |s|
  {
    if s == [] || s[0] == ' ' then 0 else 1 + SpaceIndex(s[1..])
  }

  lemma {:induction false} SpaceAfterDigits(x: string, rest: string)
    requires Decimal.AllDigits(x) && |rest| > 0 && rest[0] == ' '
    ensures SpaceIndex(x + rest) == |x|
  {
    if x != [] {
      assert (x + rest)[1..] == x[1..] + rest;
      SpaceAfterDigits(x[1..], rest);
    }
  }

  /** Two digit strings each followed by the same separator split the same way. */
  lemma DigitsSplit(x: string, y: string, z: string, w: string)
    requires Decimal.AllDigits(x) && Decimal.AllDigits(z)
    requires x + " vs " + y == z + " vs " + w
    ensures x == z && y == w
  {
    var l := x + " vs " + y;
    assert l == x + (" vs " + y);
    assert z + " vs " + w == z + (" vs " + w);
    SpaceAfterDigits(x, " vs " + y);
    SpaceAfterDigits(z, " vs " + w);
    assert x == l[..|x|] == z;
    assert y == l[|x| + 4..] == w;
  }

  /** The length-mismatch message names both lengths: distinct pairs of lengths
      give distinct messages. */
  lemma MismatchMessageNamesLengths(l1: nat, l2: nat, m1: nat, m2: nat)
    requires Message(LengthMismatch(l1, l2)) == Message(LengthMismatch(m1, m2))
    ensures l1 == m1 && l2 == m2
  {
    var x, y := Decimal.Format(l1), Decimal.Format(l2);
    var z, w := Decimal.Format(m1), Decimal.Format(m2);
    var p := LengthMismatchPrefix;
    assert p + x + " vs " + y == p + (x + " vs " + y);
    assert p + z + " vs " + w == p + (z + " vs " + w);
    assert (p + (x + " vs " + y))[|p|..] == x + " vs " + y;
    assert (p + (z + " vs " + w))[|p|..] == z + " vs " + w;
    DigitsSplit(x, y, z, w);
    Decimal.FormatInjective(l1, m1);
    Decimal.FormatInjective(l2, m2);
  }
}
