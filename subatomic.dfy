/**
 * The closed set of primitive wire kinds a simple parameter can have, the
 * per-kind layout its constructor assigns, and the divisor state machine.
 */
module Subatomic {
  import opened CIntegers

  datatype SubatomicType =
    | Int8 | Int16 | Int32 | Int64
    | Uint8 | Uint16 | Uint32 | Uint64
    | Float64
    | String | Blob | Blob32
    | Int8Array | Int16Array | Int32Array
    | Uint8Array | Uint16Array | Uint32Array
    | Uint32Uint8Array
    | Invalid

  /** The packing strategy a field presents to the packer. */
  datatype PackType =
    | InvalidPack | DoublePack | IntPack | UintPack | Int64Pack | Uint64Pack
    | StringPack | ArrayPack | ClassPack

  predicate IsIntegerKind(t: SubatomicType) {
    t in {Int8, Int16, Int32, Int64, Uint8, Uint16, Uint32, Uint64}
  }

  /** The kinds with a fixed byte size: the integers and float64. */
  predicate IsScalarKind(t: SubatomicType) {
    IsIntegerKind(t) || t == Float64
  }

  predicate IsSignedKind(t: SubatomicType) {
    t in {Int8, Int16, Int32, Int64}
  }

  /** The length-prefixed kinds. */
  predicate IsStringKind(t: SubatomicType) {
    t in {String, Blob, Blob32}
  }

  predicate IsArrayKind(t: SubatomicType) {
    t in {Int8Array, Int16Array, Int32Array, Uint8Array, Uint16Array, Uint32Array, Uint32Uint8Array}
  }

  predicate IsIntegerPack(pt: PackType) {
    pt in {IntPack, UintPack, Int64Pack, Uint64Pack}
  }

  /** The built-in array kind whose elements are of integer kind `t`, for the kinds of at most 32 bits. */
  function ArrayOf(t: SubatomicType): SubatomicType {
    match t
    case Int8 => Int8Array
    case Int16 => Int16Array
    case Int32 => Int32Array
    case Uint8 => Uint8Array
    case Uint16 => Uint16Array
    case Uint32 => Uint32Array
    case _ => Invalid
  }

  /** The fields the constructor derives from the kind alone. */
  datatype Layout = Layout(
    packType: PackType,
    nestedType: SubatomicType,
    hasNestedFields: bool,
    bytesPerElement: nat,
    numLengthBytes: nat,
    hasFixedByteSize: bool,
    fixedByteSize: nat)

  /**
   * The constructor's case table (before the divisor is applied). Kinds
   * that are not scalar keep the packer's default of no fixed byte size.
   */
  function LayoutOf(t: SubatomicType): (l: Layout)
    ensures l.packType == ArrayPack <==> IsArrayKind(t)
    ensures l.packType == StringPack <==> IsStringKind(t)
    ensures l.packType == InvalidPack <==> t == Invalid
    ensures IsIntegerPack(l.packType) <==> IsIntegerKind(t)
    ensures t in {Int8, Int16, Int32} ==> l.packType == IntPack
    ensures t == Int64 ==> l.packType == Int64Pack
    ensures t in {Uint8, Uint16, Uint32} ==> l.packType == UintPack
    ensures t == Uint64 ==> l.packType == Uint64Pack
    ensures t == Float64 ==> l.packType == DoublePack
    ensures l.hasNestedFields <==> IsArrayKind(t) || IsStringKind(t)
    ensures l.nestedType != Invalid <==> l.hasNestedFields && t != Uint32Uint8Array
    ensures l.nestedType != Invalid ==> IsIntegerKind(l.nestedType)
    ensures IsArrayKind(t) && t != Uint32Uint8Array ==> ArrayOf(l.nestedType) == t
    ensures IsArrayKind(t) && t != Uint32Uint8Array ==>
              l.bytesPerElement in {1, 2, 4} &&
              (IsSignedKind(l.nestedType) <==> t in {Int8Array, Int16Array, Int32Array})
    ensures t == Uint32Uint8Array ==> l.bytesPerElement == 5
    ensures t in {Int8, Uint8} ==> l.fixedByteSize == 1
    ensures t in {Int16, Uint16} ==> l.fixedByteSize == 2
    ensures t in {Int32, Uint32} ==> l.fixedByteSize == 4
    ensures t in {Int64, Uint64, Float64} ==> l.fixedByteSize == 8
    ensures IsStringKind(t) ==> l.nestedType == Uint8 && l.bytesPerElement == 1
    ensures l.numLengthBytes == (if t == Blob32 then 4 else 2)
    ensures l.hasFixedByteSize <==> IsScalarKind(t)
    ensures l.hasFixedByteSize ==> IsWidth(l.fixedByteSize) && l.bytesPerElement == 0
    ensures !l.hasNestedFields ==> l.bytesPerElement == 0
  {
    var plain := Layout(InvalidPack, Invalid, false, 0, 2, false, 0);
    match t
    case Int8Array => plain.(packType := ArrayPack, nestedType := Int8, hasNestedFields := true, bytesPerElement := 1)
    case Int16Array => plain.(packType := ArrayPack, nestedType := Int16, hasNestedFields := true, bytesPerElement := 2)
    case Int32Array => plain.(packType := ArrayPack, nestedType := Int32, hasNestedFields := true, bytesPerElement := 4)
    case Uint8Array => plain.(packType := ArrayPack, nestedType := Uint8, hasNestedFields := true, bytesPerElement := 1)
    case Uint16Array => plain.(packType := ArrayPack, nestedType := Uint16, hasNestedFields := true, bytesPerElement := 2)
    case Uint32Array => plain.(packType := ArrayPack, nestedType := Uint32, hasNestedFields := true, bytesPerElement := 4)
    case Uint32Uint8Array => plain.(packType := ArrayPack, hasNestedFields := true, bytesPerElement := 5)
    case Blob32 => plain.(packType := StringPack, nestedType := Uint8, hasNestedFields := true, bytesPerElement := 1, numLengthBytes := 4)
    case Blob => plain.(packType := StringPack, nestedType := Uint8, hasNestedFields := true, bytesPerElement := 1)
    case String => plain.(packType := StringPack, nestedType := Uint8, hasNestedFields := true, bytesPerElement := 1)
    case Int8 => plain.(packType := IntPack, hasFixedByteSize := true, fixedByteSize := 1)
    case Int16 => plain.(packType := IntPack, hasFixedByteSize := true, fixedByteSize := 2)
    case Int32 => plain.(packType := IntPack, hasFixedByteSize := true, fixedByteSize := 4)
    case Int64 => plain.(packType := Int64Pack, hasFixedByteSize := true, fixedByteSize := 8)
    case Uint8 => plain.(packType := UintPack, hasFixedByteSize := true, fixedByteSize := 1)
    case Uint16 => plain.(packType := UintPack, hasFixedByteSize := true, fixedByteSize := 2)
    case Uint32 => plain.(packType := UintPack, hasFixedByteSize := true, fixedByteSize := 4)
    case Uint64 => plain.(packType := Uint64Pack, hasFixedByteSize := true, fixedByteSize := 8)
    case Float64 => plain.(packType := DoublePack, hasFixedByteSize := true, fixedByteSize := 8)
    case Invalid => plain
  }

  /** The byte size of one value of a scalar kind on the wire. */
  function FixedSize(t: SubatomicType): (w: nat)
    requires IsScalarKind(t)
    ensures IsWidth(w)
  {
    LayoutOf(t).fixedByteSize
  }

  /**
   * An array or string element is one value of the nested kind, and a
   * uint32uint8 element is a uint32 followed by a uint8.
   */
  lemma BytesPerElementIsElementSize(t: SubatomicType)
    requires LayoutOf(t).hasNestedFields
    ensures LayoutOf(t).nestedType != Invalid ==>
              LayoutOf(t).bytesPerElement == FixedSize(LayoutOf(t).nestedType)
    ensures t == Uint32Uint8Array ==>
              LayoutOf(t).bytesPerElement == FixedSize(Uint32) + FixedSize(Uint8)
  {
  }

  /** The value families, each with its own range validator. */
  datatype RangeFamily = IntFamily | Int64Family | UintFamily | Uint64Family | DoubleFamily | NoFamily

  function FamilyOf(t: SubatomicType): (f: RangeFamily)
    ensures f == NoFamily <==> !IsScalarKind(t)
    ensures f == DoubleFamily <==> t == Float64
    ensures f == Int64Family || f == Uint64Family ==> FixedSize(t) == 8
    ensures f in {IntFamily, Int64Family} <==> IsSignedKind(t)
    ensures f in {Int64Family, Uint64Family} <==> IsIntegerKind(t) && FixedSize(t) == 8
  {
    match t
    case Int8 | Int16 | Int32 => IntFamily
    case Int64 => Int64Family
    case Uint8 | Uint16 | Uint32 => UintFamily
    case Uint64 => Uint64Family
    case Float64 => DoubleFamily
    case _ => NoFamily
  }

  // The divisor state machine.

  datatype DivisorState = DivisorState(packType: PackType, divisor: int)

  /**
   * One `set_divisor` call: refused, with nothing changed, for a string
   * field or a zero divisor; otherwise the divisor is stored, and a divisor
   * other than 1 turns an integer strategy into the floating-point one.
   */
  function SetDivisorOutcome(s: DivisorState, d: int): (r: (bool, DivisorState))
    ensures r.0 <==> s.packType != StringPack && d != 0
    ensures !r.0 ==> r.1 == s
    ensures r.0 ==> r.1.divisor == d
    ensures r.1.packType != s.packType ==> IsIntegerPack(s.packType) && r.1.packType == DoublePack && d != 1
    ensures r.0 && d != 1 && IsIntegerPack(s.packType) ==> r.1.packType == DoublePack
  {
    if s.packType == StringPack || d == 0 then (false, s)
    else if d != 1 && IsIntegerPack(s.packType) then (true, DivisorState(DoublePack, d))
    else (true, s.(divisor := d))
  }

  /** The state after a series of `set_divisor` calls. */
  function SetDivisors(s: DivisorState, ds: seq<int>): DivisorState
    decreases |ds|
  {
    if ds == [] then s else SetDivisors(SetDivisorOutcome(s, ds[0]).1, ds[1..])
  }

  /** The state the constructor leaves: the kind's own strategy, divisor 1, then one `set_divisor`. */
  function InitialDivisorState(t: SubatomicType, d: int): (s: DivisorState)
    ensures s.divisor != 0 && (s.divisor == 1 || s.divisor == d)
    ensures IsStringKind(t) ==> s.divisor == 1
  {
    SetDivisorOutcome(DivisorState(LayoutOf(t).packType, 1), d).1
  }

  /** A string field refuses every divisor, so none of a series of calls changes it. */
  lemma {:induction false} StringRefusesAllDivisors(s: DivisorState, ds: seq<int>)
    requires s.packType == StringPack
    ensures SetDivisors(s, ds) == s
    decreases |ds|
  {
    if ds != [] {
      StringRefusesAllDivisors(SetDivisorOutcome(s, ds[0]).1, ds[1..]);
    }
  }

  /** String kinds keep divisor 1 from construction on, whatever is asked of them. */
  lemma StringKindsKeepDivisorOne(t: SubatomicType, d: int, ds: seq<int>)
    requires IsStringKind(t)
    ensures SetDivisors(InitialDivisorState(t, d), ds).divisor == 1
  {
    StringRefusesAllDivisors(InitialDivisorState(t, d), ds);
  }

  /** The floating-point strategy is never left again, even by a divisor of 1. */
  lemma {:induction false} DoubleIsPermanent(s: DivisorState, ds: seq<int>)
    requires s.packType == DoublePack
    ensures SetDivisors(s, ds).packType == DoublePack
    decreases |ds|
  {
    if ds != [] {
      DoubleIsPermanent(SetDivisorOutcome(s, ds[0]).1, ds[1..]);
    }
  }

  /**
   * Once any call in a series stores a divisor other than 0 and 1 on an
   * integer field, the field ends with the floating-point strategy.
   */
  lemma {:induction false} CoercionIsNeverReverted(s: DivisorState, ds: seq<int>, i: nat)
    requires IsIntegerPack(s.packType)
    requires i < |ds| && ds[i] != 0 && ds[i] != 1
    ensures SetDivisors(s, ds).packType == DoublePack
    decreases |ds|
  {
    var next := SetDivisorOutcome(s, ds[0]).1;
    if i == 0 {
      DoubleIsPermanent(next, ds[1..]);
    } else if next.packType == DoublePack {
      DoubleIsPermanent(next, ds[1..]);
    } else {
      CoercionIsNeverReverted(next, ds[1..], i - 1);
    }
  }
}
