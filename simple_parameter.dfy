/**
 * The simple parameter: a field of one primitive kind, with the divisor that
 * scales fixed-point values, the per-family range validators, and the pack,
 * unpack and skip operations over a byte buffer. The process-wide registry
 * of nested element parameters and the shared uint32uint8 element type are
 * an explicit `Registry` object here.
 */
module SimpleParameters {
  import opened CIntegers
  import opened Wire
  import opened Subatomic
  import opened Conversions

  /** The packer's output buffer: bytes are only ever appended to it. */
  class PackData {
    var data: seq<Byte>

    constructor (prefix: seq<Byte>)
      ensures data == prefix
    {
      data := prefix;
    }

    /** Reserves `|bytes|` bytes at the end of the buffer and fills them. */
    method Append(bytes: seq<Byte>)
      modifies this
      ensures data == old(data) + bytes
    {
      data := data + bytes;
    }
  }

  /** What `get_nested_field` hands the packer: nothing, a simple parameter, or the uint32uint8 pair. */
  datatype NestedField = NoField | Simple(param: SimpleParameter) | Pair(pair: Uint32Uint8Type)

  /**
   * Orders the construction chain: an array or string parameter creates its
   * element parameter, and a uint32uint8 array creates the shared pair type,
   * which creates a uint32 and a uint8 parameter.
   */
  function Rank(t: SubatomicType): nat {
    if t == Uint32Uint8Array then 3
    else if IsArrayKind(t) || IsStringKind(t) then 2
    else 0
  }

  class SimpleParameter {
    const kind: SubatomicType
    var packType: PackType
    const nestedType: SubatomicType
    const hasNestedFields: bool
    const bytesPerElement: nat
    const numLengthBytes: nat
    const hasFixedByteSize: bool
    const fixedByteSize: nat
    var divisor: CInt
    var intRange: NumericRange
    var uintRange: NumericRange
    var int64Range: NumericRange
    var uint64Range: NumericRange
    const nestedField: NestedField

    /**
     * The layout is the kind's; the divisor is never 0, and a string kind
     * keeps 1; the strategy is the kind's own, or the floating-point one
     * an integer kind switches to; only the kind's own family has a range.
     */
    ghost predicate Valid()
      reads this
    {
      var l := LayoutOf(kind);
      && nestedType == l.nestedType
      && hasNestedFields == l.hasNestedFields
      && bytesPerElement == l.bytesPerElement
      && numLengthBytes == l.numLengthBytes
      && hasFixedByteSize == l.hasFixedByteSize
      && fixedByteSize == l.fixedByteSize
      && divisor != 0
      && (packType == l.packType || (packType == DoublePack && IsIntegerPack(l.packType)))
      && (IsStringKind(kind) ==> divisor == 1)
      && (FamilyOf(kind) != IntFamily ==> intRange == [])
      && (FamilyOf(kind) != UintFamily ==> uintRange == [])
      && (FamilyOf(kind) != Int64Family ==> int64Range == [])
      && (FamilyOf(kind) != Uint64Family ==> uint64Range == [])
      && (nestedField.NoField? <==> !hasNestedFields)
      && (nestedField.Pair? <==> kind == Uint32Uint8Array)
      && (nestedField.Simple? ==> nestedField.param.kind == nestedType)
    }

    /**
     * Fills in the kind's layout, applies the divisor through `SetDivisor`,
     * and links the element parameter through the registry.
     */
    constructor (reg: Registry, t: SubatomicType, d: CInt)
      requires reg.Valid()
      modifies reg
      decreases Rank(t), 0
      ensures Valid() && kind == t
      ensures DivisorState(packType, divisor) == InitialDivisorState(t, d)
      ensures intRange == [] && uintRange == [] && int64Range == [] && uint64Range == []
      ensures nestedField.Simple? ==>
                fresh(nestedField.param) && nestedField.param.Valid() && nestedField.param.divisor == divisor
      ensures nestedField.Pair? ==> nestedField.pair == reg.uint32uint8Type
      ensures reg.Valid()
      ensures old(reg.uint32uint8Type) != null || t != Uint32Uint8Array ==>
                reg.uint32uint8Type == old(reg.uint32uint8Type)
    {
      var l := LayoutOf(t);
      var st := InitialDivisorState(t, d);
      var nf: NestedField;
      if l.nestedType != Invalid {
        var p := reg.CreateNestedField(l.nestedType, st.divisor);
        nf := Simple(p);
      } else if t == Uint32Uint8Array {
        var pair := reg.CreateUint32Uint8Type();
        nf := Pair(pair);
      } else {
        nf := NoField;
      }
      kind := t;
      packType := st.packType;
      nestedType := l.nestedType;
      hasNestedFields := l.hasNestedFields;
      bytesPerElement := l.bytesPerElement;
      numLengthBytes := l.numLengthBytes;
      hasFixedByteSize := l.hasFixedByteSize;
      fixedByteSize := l.fixedByteSize;
      divisor := st.divisor;
      intRange := [];
      uintRange := [];
      int64Range := [];
      uint64Range := [];
      nestedField := nf;
    }

    /** False exactly for the kind declared from an undefined typedef. */
    function IsValid(): (b: bool)
      reads this
      requires Valid()
      ensures b <==> packType != InvalidPack
      ensures b <==> hasFixedByteSize || hasNestedFields
    {
      kind != Invalid
    }

    function GetType(): SubatomicType {
      kind
    }

    function GetDivisor(): (d: int)
      reads this
      requires Valid()
      ensures d != 0
      ensures IsStringKind(kind) ==> d == 1
    {
      divisor
    }

    /**
     * Refuses a string field and a zero divisor; otherwise stores the
     * divisor, and a divisor other than 1 moves an integer field to the
     * floating-point strategy.
     */
    method SetDivisor(d: CInt) returns (ok: bool)
      requires Valid()
      modifies this`packType, this`divisor
      ensures Valid()
      ensures (ok, DivisorState(packType, divisor)) == SetDivisorOutcome(DivisorState(old(packType), old(divisor)), d)
    {
      if packType == StringPack || d == 0 {
        return false;
      }
      divisor := d;
      if divisor != 1 && (packType == IntPack || packType == Int64Pack || packType == UintPack || packType == Uint64Pack) {
        packType := DoublePack;
      }
      return true;
    }

    /** The validator of a value family. */
    function RangeFor(f: RangeFamily): NumericRange
      reads this
    {
      match f
      case IntFamily => intRange
      case Int64Family => int64Range
      case UintFamily => uintRange
      case Uint64Family => uint64Range
      case _ => []
    }

    /**
     * Replaces the validator of the field's integer family by the given
     * bounds, scaled by the divisor; the other validators are untouched.
     */
    method SetRange(bounds: seq<(int, int)>)
      requires Valid()
      modifies this`intRange, this`uintRange, this`int64Range, this`uint64Range
      ensures Valid()
      ensures FamilyOf(kind) in {IntFamily, Int64Family, UintFamily, Uint64Family} ==>
                RangeFor(FamilyOf(kind)) == ScaledBounds(bounds, FamilyOf(kind), divisor)
      ensures forall f :: f != FamilyOf(kind) ==> RangeFor(f) == old(RangeFor(f))
      ensures FamilyOf(kind) !in {IntFamily, Int64Family, UintFamily, Uint64Family} ==>
                unchanged(this`intRange, this`uintRange, this`int64Range, this`uint64Range)
    {
      var family := FamilyOf(kind);
      if family !in {IntFamily, Int64Family, UintFamily, Uint64Family} {
        return;
      }
      var rebuilt: NumericRange := [];
      var i := 0;
      while i < |bounds|
        invariant 0 <= i <= |bounds|
        invariant rebuilt == ScaledBounds(bounds[..i], family, divisor)
      {
        rebuilt := rebuilt + [(FamilyCast(family, bounds[i].0 * divisor), FamilyCast(family, bounds[i].1 * divisor))];
        i := i + 1;
      }
      assert bounds[..i] == bounds;
      match family {
        case IntFamily => intRange := rebuilt;
        case Int64Family => int64Range := rebuilt;
        case UintFamily => uintRange := rebuilt;
        case Uint64Family => uint64Range := rebuilt;
      }
    }

    /** How many elements an array or string of `lengthBytes` bytes holds. */
    function CalcNumNestedFields(lengthBytes: nat): (n: nat)
      ensures bytesPerElement == 0 ==> n == 0
      ensures bytesPerElement != 0 ==> n * bytesPerElement <= lengthBytes < (n + 1) * bytesPerElement
    {
      if bytesPerElement != 0 then
        var q := lengthBytes / bytesPerElement;
        assert lengthBytes == q * bytesPerElement + lengthBytes % bytesPerElement;
        q
      else 0
    }

    /** The element type of an array or string, whatever the index. */
    function GetNestedField(n: int): (r: NestedField)
      reads this
      requires Valid()
      ensures r.NoField? <==> !IsArrayKind(kind) && !IsStringKind(kind)
      ensures r.Pair? <==> kind == Uint32Uint8Array
      ensures r.Simple? ==> r.param.kind == LayoutOf(kind).nestedType && IsIntegerKind(r.param.kind)
    {
      nestedField
    }

    // Packing.

    /**
     * One call of a pack entry point `e` with scaled value `s`: a scalar
     * field appends the encoding of the argument and reports an error when
     * the argument fails the family's validator or does not fit the kind;
     * any other field refuses and writes nothing.
     */
    ghost predicate PackStep(e: Entry, c: Codec, s: int, before: seq<Byte>, after: seq<Byte>, ok: bool)
      reads this
      requires Valid() && ValidCodec(c)
    {
      if IsScalarKind(kind) then
        var arg := PackArg(e, kind, s);
        && after == before + WireBytes(c, kind, arg)
        && (ok <==> kind == Float64 || (InRange(RangeFor(FamilyOf(kind)), arg) && FitsWire(kind, arg)))
      else
        !ok && after == before
    }

    method PackScaled(pd: PackData, c: Codec, e: Entry, s: int) returns (ok: bool)
      requires Valid() && ValidCodec(c)
      modifies pd
      ensures PackStep(e, c, s, old(pd.data), pd.data, ok)
    {
      if !IsScalarKind(kind) {
        return false;
      }
      var arg := PackArg(e, kind, s);
      var packError := false;
      if kind != Float64 {
        if !InRange(RangeFor(FamilyOf(kind)), arg) {
          packError := true;
        }
        if !FitsWire(kind, arg) {
          packError := true;
        }
      }
      pd.Append(WireBytes(c, kind, arg));
      ok := !packError;
    }

    method PackInt(pd: PackData, c: Codec, value: CInt) returns (ok: bool)
      requires Valid() && ValidCodec(c)
      modifies pd
      ensures PackStep(IntEntry, c, Scaled(IntEntry, value, divisor), old(pd.data), pd.data, ok)
    {
      ok := PackScaled(pd, c, IntEntry, Scaled(IntEntry, value, divisor));
    }

    method PackUint(pd: PackData, c: Codec, value: CUint) returns (ok: bool)
      requires Valid() && ValidCodec(c)
      modifies pd
      ensures PackStep(UintEntry, c, Scaled(UintEntry, value, divisor), old(pd.data), pd.data, ok)
    {
      ok := PackScaled(pd, c, UintEntry, Scaled(UintEntry, value, divisor));
    }

    method PackInt64(pd: PackData, c: Codec, value: CInt64) returns (ok: bool)
      requires Valid() && ValidCodec(c)
      modifies pd
      ensures PackStep(Int64Entry, c, Scaled(Int64Entry, value, divisor), old(pd.data), pd.data, ok)
    {
      ok := PackScaled(pd, c, Int64Entry, Scaled(Int64Entry, value, divisor));
    }

    method PackUint64(pd: PackData, c: Codec, value: CUint64) returns (ok: bool)
      requires Valid() && ValidCodec(c)
      modifies pd
      ensures PackStep(Uint64Entry, c, Scaled(Uint64Entry, value, divisor), old(pd.data), pd.data, ok)
    {
      ok := PackScaled(pd, c, Uint64Entry, Scaled(Uint64Entry, value, divisor));
    }

    /**
     * A string field appends the length in its prefix width, then the bytes;
     * the length must fit the prefix. Any other field refuses.
     */
    method PackString(pd: PackData, c: Codec, value: seq<Byte>) returns (ok: bool)
      requires Valid() && ValidCodec(c)
      modifies pd
      ensures !IsStringKind(kind) ==> !ok && pd.data == old(pd.data)
      ensures IsStringKind(kind) ==>
                pd.data == old(pd.data) + c.encode(numLengthBytes, Unsigned(AsCUint(|value|), numLengthBytes)) + value
      ensures IsStringKind(kind) ==> (ok <==> AsCUint(|value|) < Modulus(numLengthBytes))
    {
      var packError := false;
      var stringLength := AsCUint(|value|);
      if !InRange(uintRange, stringLength) {
        packError := true;
      }
      if !IsStringKind(kind) {
        return false;
      }
      if stringLength >= Modulus(numLengthBytes) {
        packError := true;
      }
      pd.Append(c.encode(numLengthBytes, Unsigned(stringLength, numLengthBytes)));
      pd.Append(value);
      ok := !packError;
    }

    // Unpacking.

    /**
     * One call of an unpack entry point `e` at offset `p`: a scalar field
     * with its bytes in the buffer yields their value and moves past them;
     * otherwise the call fails with the offset and the value untouched.
     */
    ghost predicate UnpackStep(e: Entry, c: Codec, data: seq<Byte>, p: nat, value: int, ok: bool, next: nat, result: int)
      reads this
      requires Valid() && ValidCodec(c)
    {
      && (ok <==> IsScalarKind(kind) && p + fixedByteSize <= |data|)
      && (ok ==> next == p + fixedByteSize && result == Unpacked(e, kind, c, divisor, data[p..next]))
      && (!ok ==> next == p && result == value)
    }

    method UnpackScalar(e: Entry, c: Codec, data: seq<Byte>, p: nat, value: int)
      returns (ok: bool, next: nat, result: int)
      requires Valid() && ValidCodec(c)
      ensures UnpackStep(e, c, data, p, value, ok, next, result)
    {
      if !IsScalarKind(kind) || p + fixedByteSize > |data| {
        return false, p, value;
      }
      var bytes := data[p..p + fixedByteSize];
      if kind == Float64 {
        result := AsEntry(e, c.decodeDouble(bytes));
      } else {
        result := KindToEntry(e, kind, KindValue(kind, c.decode(bytes)));
      }
      next := p + fixedByteSize;
      if divisor != 1 {
        result := AsEntry(e, TruncDiv(result, EntryDivisor(e, divisor)));
      }
      ok := true;
    }

    method UnpackInt(c: Codec, data: seq<Byte>, p: nat, value: CInt) returns (ok: bool, next: nat, result: CInt)
      requires Valid() && ValidCodec(c)
      ensures UnpackStep(IntEntry, c, data, p, value, ok, next, result)
    {
      var r;
      ok, next, r := UnpackScalar(IntEntry, c, data, p, value);
      result := r;
    }

    method UnpackUint(c: Codec, data: seq<Byte>, p: nat, value: CUint) returns (ok: bool, next: nat, result: CUint)
      requires Valid() && ValidCodec(c)
      ensures UnpackStep(UintEntry, c, data, p, value, ok, next, result)
    {
      var r;
      ok, next, r := UnpackScalar(UintEntry, c, data, p, value);
      result := r;
    }

    method UnpackInt64(c: Codec, data: seq<Byte>, p: nat, value: CInt64) returns (ok: bool, next: nat, result: CInt64)
      requires Valid() && ValidCodec(c)
      ensures UnpackStep(Int64Entry, c, data, p, value, ok, next, result)
    {
      var r;
      ok, next, r := UnpackScalar(Int64Entry, c, data, p, value);
      result := r;
    }

    method UnpackUint64(c: Codec, data: seq<Byte>, p: nat, value: CUint64) returns (ok: bool, next: nat, result: CUint64)
      requires Valid() && ValidCodec(c)
      ensures UnpackStep(Uint64Entry, c, data, p, value, ok, next, result)
    {
      var r;
      ok, next, r := UnpackScalar(Uint64Entry, c, data, p, value);
      result := r;
    }

    /**
     * A string field reads the length prefix, then that many bytes. A
     * buffer too short for the bytes fails after the offset has moved past
     * the prefix.
     */
    method UnpackString(c: Codec, data: seq<Byte>, p: nat, value: seq<Byte>)
      returns (ok: bool, next: nat, result: seq<Byte>)
      requires Valid() && ValidCodec(c)
      ensures !IsStringKind(kind) || p + numLengthBytes > |data| ==> !ok && next == p && result == value
      ensures IsStringKind(kind) && p + numLengthBytes <= |data| ==>
                var q := p + numLengthBytes;
                var n := c.decode(data[p..q]);
                && (ok <==> q + n <= |data|)
                && (ok ==> next == q + n && result == data[q..next])
                && (!ok ==> next == q && result == value)
    {
      if !IsStringKind(kind) || p + numLengthBytes > |data| {
        return false, p, value;
      }
      var stringLength := c.decode(data[p..p + numLengthBytes]);
      next := p + numLengthBytes;
      if next + stringLength > |data| {
        return false, next, value;
      }
      result := data[next..next + stringLength];
      next := next + stringLength;
      ok := true;
    }

    /**
     * Moves the offset past one value without decoding it. A scalar moves
     * by its size before the bounds check, so a failed skip has still moved.
     */
    method UnpackSkip(c: Codec, data: seq<Byte>, p: nat) returns (ok: bool, next: nat)
      requires Valid() && ValidCodec(c)
      ensures IsScalarKind(kind) ==> next == p + fixedByteSize && (ok <==> next <= |data|)
      ensures IsStringKind(kind) && p + numLengthBytes <= |data| ==>
                next == p + numLengthBytes + c.decode(data[p..p + numLengthBytes]) && (ok <==> next <= |data|)
      ensures IsStringKind(kind) && p + numLengthBytes > |data| ==> !ok && next == p
      ensures !IsScalarKind(kind) && !IsStringKind(kind) ==> !ok && next == p
    {
      next := p;
      if IsScalarKind(kind) {
        next := p + fixedByteSize;
      } else if IsStringKind(kind) {
        if p + numLengthBytes > |data| {
          return false, p;
        }
        var stringLength := c.decode(data[p..p + numLengthBytes]);
        next := p + numLengthBytes + stringLength;
      } else {
        return false, p;
      }
      ok := next <= |data|;
    }
  }

  /** The element type of a uint32uint8 array: a uint32 followed by a uint8. */
  class Uint32Uint8Type {
    const uint32Type: SimpleParameter
    const uint8Type: SimpleParameter
    const hasNestedFields: bool
    const numNestedFields: nat
    const packType: PackType

    ghost predicate Valid() {
      && uint32Type.kind == Uint32
      && uint8Type.kind == Uint8
      && hasNestedFields
      && numNestedFields == 2
      && packType == ClassPack
    }

    constructor (reg: Registry)
      requires reg.Valid()
      modifies reg
      decreases 1, 0
      ensures Valid()
      ensures fresh(uint32Type) && fresh(uint8Type) && uint32Type != uint8Type
      ensures uint32Type.Valid() && uint32Type.divisor == 1
      ensures uint8Type.Valid() && uint8Type.divisor == 1
      ensures reg.Valid() && reg.uint32uint8Type == old(reg.uint32uint8Type)
    {
      var a := new SimpleParameter(reg, Uint32, 1);
      var b := new SimpleParameter(reg, Uint8, 1);
      uint32Type := a;
      uint8Type := b;
      hasNestedFields := true;
      numNestedFields := 2;
      packType := ClassPack;
    }

    function GetNestedField(n: int): (r: NestedField)
      requires Valid()
      ensures r.NoField? <==> !(0 <= n < numNestedFields)
      ensures n == 0 ==> r == Simple(uint32Type) && r.param.kind == Uint32
      ensures n == 1 ==> r == Simple(uint8Type) && r.param.kind == Uint8
    {
      if n == 0 then Simple(uint32Type)
      else if n == 1 then Simple(uint8Type)
      else NoField
    }
  }

  /**
   * The process-wide state behind nested parameters: the map from kind and
   * divisor to element parameter, and the shared uint32uint8 element type.
   * The lookup stores each new parameter in a copy of the inner map, so the
   * inner maps stay empty and every lookup builds a new parameter.
   */
  class Registry {
    var nestedFieldMap: map<SubatomicType, map<int, SimpleParameter>>
    var uint32uint8Type: Uint32Uint8Type?

    ghost predicate Valid()
      reads this
    {
      && (forall t :: t in nestedFieldMap ==> nestedFieldMap[t] == map[])
      && (uint32uint8Type != null ==> uint32uint8Type.Valid())
    }

    constructor ()
      ensures Valid() && nestedFieldMap == map[] && uint32uint8Type == null
    {
      nestedFieldMap := map[];
      uint32uint8Type := null;
    }

    method CreateNestedField(t: SubatomicType, d: CInt) returns (r: SimpleParameter)
      requires Valid()
      modifies this
      decreases Rank(t), 1
      ensures Valid() && fresh(r) && r.Valid() && r.kind == t
      ensures DivisorState(r.packType, r.divisor) == InitialDivisorState(t, d)
      ensures old(uint32uint8Type) != null || t != Uint32Uint8Array ==> uint32uint8Type == old(uint32uint8Type)
    {
      var divisorMap: map<int, SimpleParameter> := if t in nestedFieldMap then nestedFieldMap[t] else map[];
      nestedFieldMap := nestedFieldMap[t := divisorMap];
      if d in divisorMap {
        // Never taken: no inner map ever holds an entry.
        assert false;
      }
      r := new SimpleParameter(this, t, d);
      divisorMap := divisorMap[d := r];
    }

    /** The one shared uint32uint8 element type, created on first use. */
    method CreateUint32Uint8Type() returns (r: Uint32Uint8Type)
      requires Valid()
      modifies this
      decreases 2, 2
      ensures Valid() && r == uint32uint8Type && r.Valid()
      ensures old(uint32uint8Type) != null ==> r == old(uint32uint8Type)
      ensures old(uint32uint8Type) == null ==> fresh(r)
    {
      if uint32uint8Type == null {
        var pair := new Uint32Uint8Type(this);
        uint32uint8Type := pair;
      }
      r := uint32uint8Type;
    }
  }
}
