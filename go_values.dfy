/** The dynamically typed values a key function may put in a tuple: Go strings,
    every signed and unsigned integer width, booleans, the two floating-point
    widths, and anything else (which the comparator rejects). */
module GoValues {

  type Byte = b: int | 0 <= b < 0x100

  type Int8 = x: int | -0x80 <= x < 0x80
  type Int16 = x: int | -0x8000 <= x < 0x8000
  type Int32 = x: int | -0x8000_0000 <= x < 0x8000_0000
  type Int64 = x: int | -0x8000_0000_0000_0000 <= x < 0x8000_0000_0000_0000
  type Uint8 = x: int | 0 <= x < 0x100
  type Uint16 = x: int | 0 <= x < 0x1_0000
  type Uint32 = x: int | 0 <= x < 0x1_0000_0000
  type Uint64 = x: int | 0 <= x < 0x1_0000_0000_0000_0000

  /** Go's `int` and `uint`, as on the 64-bit platforms. */
  type GoInt = Int64
  type GoUint = Uint64

  // ---------------------------------------------------------------------------
  // Go string order: bytewise lexicographic
  // ---------------------------------------------------------------------------

  /** Go's `<` on strings: the first differing byte decides, and a proper
      prefix comes first. */
  predicate BytesLess(a: seq<Byte>, b: seq<Byte>): (r: bool)
    ensures r ==> a != b
    ensures a < b ==> r
    ensures b <= a ==> !r
  {
    if |a| == 0 then |b| > 0
    else if |b| == 0 then false
    else if a[0] != b[0] then a[0] < b[0]
    else BytesLess(a[1..], b[1..])
  }

  /** `a` precedes `b` with their first difference at index `k`: either `a`
      ends there and `b` goes on, or both go on and `a`'s byte is smaller. */
  ghost predicate PrecedesAt(a: seq<Byte>, b: seq<Byte>, k: nat)
    requires k <= |a| && k <= |b|
  {
    a[..k] == b[..k] && ((k == |a| && k < |b|) || (k < |a| && k < |b| && a[k] < b[k]))
  }

  /** The textbook definition of lexicographic order, as a reference for BytesLess. */
  ghost predicate LexPrecedes(a: seq<Byte>, b: seq<Byte>)
  {
    exists k: nat :: k <= |a| && k <= |b| && PrecedesAt(a, b, k)
  }

  lemma {:induction false} BytesLessIsLexPrecedes(a: seq<Byte>, b: seq<Byte>)
    ensures BytesLess(a, b) <==> LexPrecedes(a, b)
  {
    if |a| == 0 || |b| == 0 {
      if BytesLess(a, b) {
        assert PrecedesAt(a, b, 0);
      }
    } else if a[0] != b[0] {
      if BytesLess(a, b) {
        assert PrecedesAt(a, b, 0);
      }
    } else {
      BytesLessIsLexPrecedes(a[1..], b[1..]);
      if LexPrecedes(a[1..], b[1..]) {
        var k: nat :| k <= |a[1..]| && k <= |b[1..]| && PrecedesAt(a[1..], b[1..], k);
        assert a[..k + 1] == [a[0]] + a[1..][..k];
        assert b[..k + 1] == [b[0]] + b[1..][..k];
        assert PrecedesAt(a, b, k + 1);
      }
      if LexPrecedes(a, b) {
        var k: nat :| k <= |a| && k <= |b| && PrecedesAt(a, b, k);
        assert k != 0;
        assert a[1..][..k - 1] == a[..k][1..] == b[..k][1..] == b[1..][..k - 1];
        assert PrecedesAt(a[1..], b[1..], k - 1);
      }
    }
  }

  lemma {:induction false} BytesLessIrreflexive(a: seq<Byte>)
    ensures !BytesLess(a, a)
  {
    if |a| > 0 {
      BytesLessIrreflexive(a[1..]);
    }
  }

  lemma {:induction false} BytesLessAsymmetric(a: seq<Byte>, b: seq<Byte>)
    ensures BytesLess(a, b) ==> !BytesLess(b, a)
  {
    if |a| > 0 && |b| > 0 && a[0] == b[0] {
      BytesLessAsymmetric(a[1..], b[1..]);
    }
  }

  lemma {:induction false} BytesLessTransitive(a: seq<Byte>, b: seq<Byte>, c: seq<Byte>)
    ensures BytesLess(a, b) && BytesLess(b, c) ==> BytesLess(a, c)
  {
    if |a| > 0 && |b| > 0 && |c| > 0 && a[0] == b[0] == c[0] {
      BytesLessTransitive(a[1..], b[1..], c[1..]);
    }
  }

  lemma {:induction false} BytesLessConnected(a: seq<Byte>, b: seq<Byte>)
    ensures a != b ==> BytesLess(a, b) || BytesLess(b, a)
  {
    if |a| > 0 && |b| > 0 && a[0] == b[0] {
      BytesLessConnected(a[1..], b[1..]);
      if a[1..] == b[1..] {
        assert a == [a[0]] + a[1..] && b == [b[0]] + b[1..];
      }
    }
  }

  // ---------------------------------------------------------------------------
  // Floating point, as far as `<` and `==` can tell
  // ---------------------------------------------------------------------------

  /** An IEEE 754 value seen only through comparison: both zeros are Finite(0.0),
      and every NaN is NaN. */
  datatype Float = NaN | NegInf | Finite(value: real) | PosInf

  /** IEEE 754 `<`: false whenever either side is NaN. */
  predicate FloatLess(x: Float, y: Float): (r: bool)
    ensures (x.NaN? || y.NaN?) ==> !r
    ensures r ==> x != y && !x.PosInf? && !y.NegInf?
  {
    match x
    case NaN => false
    case NegInf => !y.NaN? && !y.NegInf?
    case Finite(u) => (y.Finite? && u < y.value) || y.PosInf?
    case PosInf => false
  }

  /** Off NaN, IEEE `<` is a strict total order; NaN is unordered with
      everything, itself included. */
  lemma FloatLessOrder(x: Float, y: Float, z: Float)
    ensures FloatLess(x, y) ==> !FloatLess(y, x)
    ensures FloatLess(x, y) && FloatLess(y, z) ==> FloatLess(x, z)
    ensures !x.NaN? && !y.NaN? && x != y ==> FloatLess(x, y) || FloatLess(y, x)
  {
  }

  /** IEEE 754 `==`: NaN equals nothing, not even itself. */
  predicate FloatEq(x: Float, y: Float): (r: bool)
    ensures r ==> x == y && !FloatLess(x, y) && !FloatLess(y, x)
    ensures x == y ==> (r <==> !x.NaN?)
  {
    !x.NaN? && x == y
  }

  // ---------------------------------------------------------------------------
  // Key components and their dynamic types
  // ---------------------------------------------------------------------------

  /** The dynamic type of a component, as Go's type switch sees it. */
  datatype Kind =
    | KString
    | KInt | KInt8 | KInt16 | KInt32 | KInt64
    | KUint | KUint8 | KUint16 | KUint32 | KUint64
    | KBool
    | KFloat32 | KFloat64
    | KOther(name: OtherTypeName)

  /** The names `%T` prints for the types the type switches have a case for. */
  const BuiltinTypeNames: set<string> :=
    {"string", "int", "int8", "int16", "int32", "int64", "uint", "uint8", "uint16",
     "uint32", "uint64", "bool", "float32", "float64"}

  /** The name of any other dynamic type: it is none of the names above. */
  type OtherTypeName = name: string | name !in BuiltinTypeNames witness "struct {}"

  /** The name `%T` prints for a value of this kind. Different kinds have
      different names, so a panic message names the kind exactly. */
  function TypeName(k: Kind): (r: string)
    ensures r in BuiltinTypeNames <==> !k.KOther?
  {
    match k
    case KString => "string"
    case KInt => "int"
    case KInt8 => "int8"
    case KInt16 => "int16"
    case KInt32 => "int32"
    case KInt64 => "int64"
    case KUint => "uint"
    case KUint8 => "uint8"
    case KUint16 => "uint16"
    case KUint32 => "uint32"
    case KUint64 => "uint64"
    case KBool => "bool"
    case KFloat32 => "float32"
    case KFloat64 => "float64"
    case KOther(name) => name
  }

  /** Different kinds have different `%T` names. */
  lemma TypeNameInjective(k1: Kind, k2: Kind)
    ensures TypeName(k1) == TypeName(k2) ==> k1 == k2
  {
  }


  /** One element of a key tuple (a Go `interface{}` value). `Unsupported`
      stands for a value of any other dynamic type, nil included; it carries
      the name `%T` prints for it. */
  datatype Component =
    | Str(s: seq<Byte>)
    | Int(i: GoInt)
    | I8(i8: Int8)
    | I16(i16: Int16)
    | I32(i32: Int32)
    | I64(i64: Int64)
    | Uint(u: GoUint)
    | U8(u8: Uint8)
    | U16(u16: Uint16)
    | U32(u32: Uint32)
    | U64(u64: Uint64)
    | Bool(b: bool)
    | F32(f32: Float)
    | F64(f64: Float)
    | Unsupported(typeName: OtherTypeName)

  function KindOf(c: Component): Kind
  {
    match c
    case Str(_) => KString
    case Int(_) => KInt
    case I8(_) => KInt8
    case I16(_) => KInt16
    case I32(_) => KInt32
    case I64(_) => KInt64
    case Uint(_) => KUint
    case U8(_) => KUint8
    case U16(_) => KUint16
    case U32(_) => KUint32
    case U64(_) => KUint64
    case Bool(_) => KBool
    case F32(_) => KFloat32
    case F64(_) => KFloat64
    case Unsupported(name) => KOther(name)
  }

  predicate IsInteger(c: Component)
  {
    c.Int? || c.I8? || c.I16? || c.I32? || c.I64? ||
    c.Uint? || c.U8? || c.U16? || c.U32? || c.U64?
  }

  /** The mathematical value of an integer component, whatever its width. */
  function IntegerValue(c: Component): int
    requires IsInteger(c)
  {
    match c
    case Int(v) => v
    case I8(v) => v
    case I16(v) => v
    case I32(v) => v
    case I64(v) => v
    case Uint(v) => v
    case U8(v) => v
    case U16(v) => v
    case U32(v) => v
    case U64(v) => v
  }

  predicate IsFloat(c: Component)
  {
    c.F32? || c.F64?
  }

  function FloatValue(c: Component): Float
    requires IsFloat(c)
  {
    if c.F32? then c.f32 else c.f64
  }

  predicate IsNaN(c: Component)
  {
    IsFloat(c) && FloatValue(c).NaN?
  }

  /** The kinds the comparator can order: strings, integers and floats. */
  predicate Orderable(c: Component)
  {
    c.Str? || IsInteger(c) || IsFloat(c)
  }

  /** The kinds on which the comparator is a strict total order: strings and integers. */
  predicate TotallyOrdered(c: Component)
  {
    c.Str? || IsInteger(c)
  }
}
