/**
 * What a caller of a simple parameter can rely on across calls: a value
 * packed through an entry point unpacks to itself through the same entry
 * point, a string packs and unpacks to itself, and skipping a value moves
 * exactly as far as unpacking it.
 */
module RoundTrips {
  import opened CIntegers
  import opened Wire
  import opened Subatomic
  import opened Conversions
  import opened SimpleParameters

  /** The pack entry point `e` names. */
  method PackThrough(param: SimpleParameter, pd: PackData, c: Codec, e: Entry, value: int) returns (ok: bool)
    requires param.Valid() && ValidCodec(c) && InEntryRange(e, value)
    modifies pd
    ensures param.PackStep(e, c, Scaled(e, value, param.divisor), old(pd.data), pd.data, ok)
  {
    match e {
      case IntEntry => ok := param.PackInt(pd, c, value);
      case UintEntry => ok := param.PackUint(pd, c, value);
      case Int64Entry => ok := param.PackInt64(pd, c, value);
      case Uint64Entry => ok := param.PackUint64(pd, c, value);
    }
  }

  /** The unpack entry point `e` names, starting from a value of 0. */
  method UnpackThrough(param: SimpleParameter, c: Codec, e: Entry, data: seq<Byte>, p: nat)
    returns (ok: bool, next: nat, result: int)
    requires param.Valid() && ValidCodec(c)
    ensures param.UnpackStep(e, c, data, p, 0, ok, next, result)
  {
    match e {
      case IntEntry => ok, next, result := param.UnpackInt(c, data, p, 0);
      case UintEntry => ok, next, result := param.UnpackUint(c, data, p, 0);
      case Int64Entry => ok, next, result := param.UnpackInt64(c, data, p, 0);
      case Uint64Entry => ok, next, result := param.UnpackUint64(c, data, p, 0);
    }
  }

  /**
   * Packs `value` after `prefix` through entry point `e` and unpacks it at
   * the same offset through the same entry point. The pack reports success
   * exactly when the field's validator accepts the scaled value, and the
   * unpack gives the value back and ends right after it.
   */
  method PackThenUnpack(param: SimpleParameter, c: Codec, e: Entry, prefix: seq<Byte>, value: int)
    returns (packed: bool, unpacked: bool, result: int, next: nat)
    requires param.Valid() && ValidCodec(c) && IsIntegerKind(param.kind)
    requires InEntryRange(e, value) && InEntryRange(e, value * param.divisor)
    requires FitsWire(param.kind, value * param.divisor)
    ensures packed <==> InRange(param.RangeFor(FamilyOf(param.kind)), PackArg(e, param.kind, value * param.divisor))
    ensures unpacked && result == value
    ensures next == |prefix| + param.fixedByteSize
  {
    var pd := new PackData(prefix);
    packed := PackThrough(param, pd, c, e, value);
    ghost var s := Scaled(e, value, param.divisor);
    assert s == value * param.divisor;
    PackOfFittingValue(param, c, e, s, prefix, pd.data, packed);
    assert pd.data[|prefix|..|prefix| + param.fixedByteSize] == WireBytes(c, param.kind, PackArg(e, param.kind, s));
    unpacked, next, result := UnpackThrough(param, c, e, pd.data, |prefix|);
    UnpackOfPacked(param, c, e, value, pd.data, |prefix|, unpacked, next, result);
  }

  /** Unpacking bytes that hold a packed value gives the value back. */
  lemma UnpackOfPacked(param: SimpleParameter, c: Codec, e: Entry, value: int, data: seq<Byte>, p: nat,
                       ok: bool, next: nat, result: int)
    requires param.Valid() && ValidCodec(c) && IsIntegerKind(param.kind)
    requires InEntryRange(e, value) && InEntryRange(e, value * param.divisor)
    requires FitsWire(param.kind, value * param.divisor)
    requires p + param.fixedByteSize <= |data|
    requires data[p..p + param.fixedByteSize] == WireBytes(c, param.kind, PackArg(e, param.kind, Scaled(e, value, param.divisor)))
    requires param.UnpackStep(e, c, data, p, 0, ok, next, result)
    ensures ok && result == value && next == p + param.fixedByteSize
  {
    PackUnpackRoundTrip(e, c, param.kind, param.divisor, value);
  }

  /**
   * A scaled value that fits both the entry's type and the field's kind
   * packs without an encoder error, so the pack succeeds exactly when the
   * validator accepts the argument.
   */
  lemma PackOfFittingValue(param: SimpleParameter, c: Codec, e: Entry, s: int, before: seq<Byte>, after: seq<Byte>, ok: bool)
    requires param.Valid() && ValidCodec(c) && IsIntegerKind(param.kind)
    requires InEntryRange(e, s) && FitsWire(param.kind, s)
    requires param.PackStep(e, c, s, before, after, ok)
    ensures after == before + WireBytes(c, param.kind, PackArg(e, param.kind, s))
    ensures ok <==> InRange(param.RangeFor(FamilyOf(param.kind)), PackArg(e, param.kind, s))
  {
    CastsRoundTrip(e, c, param.kind, s);
  }

  /**
   * A string short enough for its length prefix packs without error after
   * `prefix`, and unpacking at the same offset gives it back and ends right
   * after it.
   */
  method PackThenUnpackString(param: SimpleParameter, c: Codec, prefix: seq<Byte>, value: seq<Byte>)
    returns (packed: bool, unpacked: bool, result: seq<Byte>, next: nat)
    requires param.Valid() && ValidCodec(c) && IsStringKind(param.kind)
    requires |value| < Modulus(param.numLengthBytes)
    ensures packed && unpacked && result == value
    ensures next == |prefix| + param.numLengthBytes + |value|
  {
    var pd := new PackData(prefix);
    packed := param.PackString(pd, c, value);
    var np := param.numLengthBytes;
    var header := c.encode(np, |value|);
    assert pd.data == prefix + header + value;
    assert pd.data[|prefix|..|prefix| + np] == header;
    unpacked, next, result := param.UnpackString(c, pd.data, |prefix|, []);
    assert pd.data[|prefix| + np..|prefix| + np + |value|] == value;
  }

  /**
   * For a scalar or string field, skipping a value succeeds exactly when
   * unpacking it does, and then both end at the same offset.
   */
  method SkipAgreesWithUnpack(param: SimpleParameter, c: Codec, data: seq<Byte>, p: nat)
    returns (skipped: bool, skipEnd: nat, unpacked: bool, unpackEnd: nat)
    requires param.Valid() && ValidCodec(c)
    requires IsScalarKind(param.kind) || IsStringKind(param.kind)
    ensures skipped == unpacked
    ensures skipped ==> skipEnd == unpackEnd
  {
    skipped, skipEnd := param.UnpackSkip(c, data, p);
    if IsScalarKind(param.kind) {
      var value;
      unpacked, unpackEnd, value := param.UnpackInt64(c, data, p, 0);
    } else {
      var value;
      unpacked, unpackEnd, value := param.UnpackString(c, data, p, []);
    }
  }
}
