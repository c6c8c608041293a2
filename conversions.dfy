/**
 * The value conversions behind the four integer pack and unpack entry points
 * (by the C type of the value they take or give: int, unsigned int, int64,
 * uint64), the range validator, and the round trip they complete.
 */
module Conversions {
  import opened CIntegers
  import opened Wire
  import opened Subatomic

  datatype Entry = IntEntry | UintEntry | Int64Entry | Uint64Entry

  predicate InEntryRange(e: Entry, x: int) {
    match e
    case IntEntry => -0x8000_0000 <= x < 0x8000_0000
    case UintEntry => 0 <= x < 0x1_0000_0000
    case Int64Entry => -0x8000_0000_0000_0000 <= x < 0x8000_0000_0000_0000
    case Uint64Entry => 0 <= x < 0x1_0000_0000_0000_0000
  }

  /** Storing `x` in a variable of the entry point's C type. */
  function AsEntry(e: Entry, x: int): (r: int)
    ensures InEntryRange(e, r)
    ensures InEntryRange(e, x) ==> r == x
  {
    match e
    case IntEntry => AsCInt(x)
    case UintEntry => AsCUint(x)
    case Int64Entry => AsCInt64(x)
    case Uint64Entry => AsCUint64(x)
  }

  /** `value * _divisor`, computed in the entry point's C type (wrapping on overflow). */
  function Scaled(e: Entry, v: int, d: int): (s: int)
    ensures InEntryRange(e, s)
    ensures InEntryRange(e, v * d) ==> s == v * d
  {
    AsEntry(e, v * d)
  }

  /**
   * The argument the entry point hands to the range validator and the
   * encoder of kind `t`: the scaled value cast to the C type of `t`'s family.
   * A 32-bit entry point casts to `unsigned int` even for a uint64 field,
   * and to `int` for an int64 field (a cast through the 64-bit type of the
   * same signedness keeps the same low 32 bits, so it is written as one cast).
   */
  function PackArg(e: Entry, t: SubatomicType, s: int): (a: int)
    ensures IsIntegerKind(t) ==> InFamilyRange(FamilyOf(t), a)
    ensures !IsIntegerKind(t) ==> a == s
    ensures (e == IntEntry || e == UintEntry) && IsIntegerKind(t) ==>
              var narrow := if IsSignedKind(t) then IntFamily else UintFamily;
              InFamilyRange(narrow, a) && (InFamilyRange(narrow, s) ==> a == s)
    ensures (e == Int64Entry || e == Uint64Entry) && InFamilyRange(FamilyOf(t), s) ==> a == s
  {
    match FamilyOf(t)
    case IntFamily => AsCInt(s)
    case Int64Family => if e == IntEntry || e == UintEntry then AsCInt(s) else AsCInt64(s)
    case UintFamily => AsCUint(s)
    case Uint64Family => if e == IntEntry || e == UintEntry then AsCUint(s) else AsCUint64(s)
    case _ => s
  }

  /**
   * The values an integer kind holds on the wire. The encoders are assumed to
   * flag an argument outside this range; they write its low bytes anyway.
   */
  predicate FitsWire(t: SubatomicType, x: int)
    requires IsIntegerKind(t)
  {
    var m := Modulus(FixedSize(t));
    if IsSignedKind(t) then -m / 2 <= x < m / 2 else 0 <= x < m
  }

  /** The bytes a pack entry point appends for a scalar kind. */
  function WireBytes(c: Codec, t: SubatomicType, x: int): (b: seq<Byte>)
    requires ValidCodec(c) && IsScalarKind(t)
    ensures |b| == FixedSize(t)
  {
    if t == Float64 then c.encodeDouble(x)
    else c.encode(FixedSize(t), Unsigned(x, FixedSize(t)))
  }

  // The range validator: a list of closed intervals, where an empty list
  // accepts every value.

  type NumericRange = seq<(int, int)>

  predicate InRange(r: NumericRange, x: int) {
    |r| == 0 || exists i :: 0 <= i < |r| && r[i].0 <= x <= r[i].1
  }

  /** Storing a bound in the C type of a family's validator. */
  function FamilyCast(f: RangeFamily, x: int): (r: int)
    ensures InFamilyRange(f, r)
    ensures InFamilyRange(f, x) ==> r == x
  {
    match f
    case IntFamily => AsCInt(x)
    case Int64Family => AsCInt64(x)
    case UintFamily => AsCUint(x)
    case Uint64Family => AsCUint64(x)
    case _ => x
  }

  /** The C type a family's validator stores its bounds in. */
  predicate InFamilyRange(f: RangeFamily, x: int) {
    match f
    case IntFamily => InEntryRange(IntEntry, x)
    case Int64Family => InEntryRange(Int64Entry, x)
    case UintFamily => InEntryRange(UintEntry, x)
    case Uint64Family => InEntryRange(Uint64Entry, x)
    case _ => true
  }

  /**
   * The validator `set_range` builds from integral bounds: each bound is
   * scaled by the divisor and stored in the family's C type.
   */
  function ScaledBounds(bounds: seq<(int, int)>, f: RangeFamily, d: int): (r: NumericRange)
    ensures |r| == |bounds|
  {
    seq(|bounds|, i requires 0 <= i < |bounds| =>
      (FamilyCast(f, bounds[i].0 * d), FamilyCast(f, bounds[i].1 * d)))
  }

  /**
   * A value inside one of the bounds passes the validator `set_range` built,
   * once scaled by a positive divisor, when the scaled bounds fit the
   * family's C type.
   */
  lemma ScaledBoundsAdmit(bounds: seq<(int, int)>, f: RangeFamily, d: int, i: nat, v: int)
    requires d > 0 && i < |bounds| && bounds[i].0 <= v <= bounds[i].1
    requires InFamilyRange(f, bounds[i].0 * d) && InFamilyRange(f, bounds[i].1 * d)
    ensures InRange(ScaledBounds(bounds, f, d), v * d)
  {
    var r := ScaledBounds(bounds, f, d);
    assert bounds[i].0 * d <= v * d <= bounds[i].1 * d by {
      MulMonotoneRight(bounds[i].0, v, d);
      MulMonotoneRight(v, bounds[i].1, d);
    }
    assert r[i].0 <= v * d <= r[i].1;
  }

  /**
   * The converse: when every scaled bound fits the family's C type, a value
   * the validator accepts once scaled by a positive divisor lies inside one
   * of the bounds, so a value outside all of them makes the pack fail.
   */
  lemma ScaledBoundsReject(bounds: seq<(int, int)>, f: RangeFamily, d: int, v: int)
    requires d > 0 && |bounds| > 0
    requires forall i :: 0 <= i < |bounds| ==>
               InFamilyRange(f, bounds[i].0 * d) && InFamilyRange(f, bounds[i].1 * d)
    requires InRange(ScaledBounds(bounds, f, d), v * d)
    ensures exists i :: 0 <= i < |bounds| && bounds[i].0 <= v <= bounds[i].1
  {
    var r := ScaledBounds(bounds, f, d);
    var i :| 0 <= i < |r| && r[i].0 <= v * d <= r[i].1;
    var lo, hi := bounds[i].0, bounds[i].1;
    assert r[i] == (FamilyCast(f, lo * d), FamilyCast(f, hi * d));
    assert lo * d <= v * d <= hi * d;
    BelowAfterScaling(lo, v, d);
    BelowAfterScaling(v, hi, d);
  }

  /** Scaling by a positive factor keeps the order of two values. */
  lemma BelowAfterScaling(a: int, b: int, d: int)
    requires d > 0 && a * d <= b * d
    ensures a <= b
  {
    if a > b {
      MulMonotoneRight(b + 1, a, d);
    }
  }

  lemma MulMonotoneRight(a: int, b: int, d: nat)
    requires a <= b
    ensures a * d <= b * d
  {
  }

  // Unpacking.

  /** The value of kind `t` that a decoded word denotes: two's complement for signed kinds. */
  function KindValue(t: SubatomicType, word: int): (k: int)
    requires IsIntegerKind(t) && 0 <= word < Modulus(FixedSize(t))
    ensures FitsWire(t, k)
    ensures Unsigned(k, FixedSize(t)) == word
  {
    var w := FixedSize(t);
    if IsSignedKind(t) then Signed(word, w) else word
  }

  /**
   * The cast from the kind's value to the entry point's C type. unpack_uint64
   * casts the 8-, 16- and 32-bit signed kinds through `unsigned int`.
   * unpack_int64 casts the unsigned kinds up to uint32 through `int`; this
   * definition uses the cast that keeps the value (see
   * `KindToInt64AsWritten`).
   */
  function KindToEntry(e: Entry, t: SubatomicType, k: int): (r: int)
    requires IsIntegerKind(t) && FitsWire(t, k)
    ensures InEntryRange(e, r)
  {
    match e
    case IntEntry => if t == Uint64 then AsCInt(AsCUint(k)) else AsCInt(k)
    case UintEntry => AsCUint(k)
    case Int64Entry => if t == Uint64 then AsCInt64(k) else k
    case Uint64Entry => if IsSignedKind(t) && t != Int64 then AsCUint(k) else AsCUint64(k)
  }

  /** unpack_int64 as written: the uint8, uint16 and uint32 kinds go through `(int)`. */
  function KindToInt64AsWritten(t: SubatomicType, k: int): (r: int)
    requires IsIntegerKind(t) && FitsWire(t, k)
    ensures InEntryRange(Int64Entry, r)
  {
    if t in {Uint8, Uint16, Uint32} then AsCInt(k) else KindToEntry(Int64Entry, t, k)
  }

  /** A uint32 field of 3000000000 packs cleanly but unpacks as a negative int64 as written. */
  lemma UnpackInt64AsWrittenMisreadsHighUint32()
    ensures FitsWire(Uint32, 3_000_000_000)
    ensures PackArg(Int64Entry, Uint32, Scaled(Int64Entry, 3_000_000_000, 1)) == 3_000_000_000
    ensures KindToInt64AsWritten(Uint32, 3_000_000_000) == 3_000_000_000 - 0x1_0000_0000
    ensures KindToEntry(Int64Entry, Uint32, 3_000_000_000) == 3_000_000_000
  {
  }

  /** The correction changes nothing below 2^31, where the `(int)` cast keeps the value. */
  lemma Int64CorrectionOnlyAffectsHighValues(t: SubatomicType, k: int)
    requires IsIntegerKind(t) && FitsWire(t, k) && k < 0x8000_0000
    ensures KindToInt64AsWritten(t, k) == KindToEntry(Int64Entry, t, k)
  {
  }

  /** The divisor as the entry point's division sees it: converted to unsigned for the unsigned ones. */
  function EntryDivisor(e: Entry, d: int): (q: int)
    requires d != 0 && -0x8000_0000 <= d < 0x8000_0000
    ensures q != 0
    ensures d > 0 ==> q == d
  {
    match e
    case IntEntry => d
    case UintEntry => AsCUint(d)
    case Int64Entry => d
    case Uint64Entry => AsCUint64(d)
  }

  /**
   * The value an unpack entry point produces from the bytes of one scalar:
   * the kind's value cast to the entry point's type, then divided (rounding
   * toward zero) by the divisor when that is not 1.
   */
  function Unpacked(e: Entry, t: SubatomicType, c: Codec, d: int, bytes: seq<Byte>): (r: int)
    requires ValidCodec(c) && IsScalarKind(t) && |bytes| == FixedSize(t)
    requires d != 0 && -0x8000_0000 <= d < 0x8000_0000
    ensures InEntryRange(e, r)
  {
    var x :=
      if t == Float64 then AsEntry(e, c.decodeDouble(bytes))
      else KindToEntry(e, t, KindValue(t, c.decode(bytes)));
    if d != 1 then AsEntry(e, TruncDiv(x, EntryDivisor(e, d))) else x
  }

  /** A value that fits its kind is decoded back from the bytes it was encoded into. */
  lemma ReadBack(c: Codec, t: SubatomicType, a: int)
    requires ValidCodec(c) && IsIntegerKind(t) && FitsWire(t, a)
    ensures KindValue(t, c.decode(WireBytes(c, t, a))) == a
  {
    var w := FixedSize(t);
    var word := Unsigned(a, w);
    assert c.decode(c.encode(w, word)) == word;
    if IsSignedKind(t) && a < 0 {
      assert word == a + Modulus(w);
    }
  }

  /**
   * What the wire holds after packing `x` (the scaled value) through entry
   * point `e`, read back through the same entry point before the division,
   * is `x` again whenever `x` fits both the entry's type and the kind.
   */
  lemma {:induction false} CastsRoundTrip(e: Entry, c: Codec, t: SubatomicType, x: int)
    requires ValidCodec(c) && IsIntegerKind(t) && InEntryRange(e, x) && FitsWire(t, x)
    ensures FitsWire(t, PackArg(e, t, x))
    ensures KindToEntry(e, t, KindValue(t, c.decode(WireBytes(c, t, PackArg(e, t, x))))) == x
  {
    var a := PackArg(e, t, x);
    if e == UintEntry && t == Int64 {
      // pack_uint casts to `int` for an int64 field; unpack_uint's cast to
      // `unsigned int` undoes it.
      assert a == AsCInt(x);
      assert FitsWire(t, a);
      ReadBack(c, t, a);
      assert AsCUint(a) == x;
    } else {
      assert a == x;
      ReadBack(c, t, a);
    }
  }

  /** Dividing the scaled value by the divisor, as an unpack entry point does, gives the value back. */
  lemma DivisionUndoesScaling(e: Entry, d: int, v: int)
    requires d != 0 && -0x8000_0000 <= d < 0x8000_0000
    requires InEntryRange(e, v) && InEntryRange(e, v * d)
    ensures (if d != 1 then AsEntry(e, TruncDiv(v * d, EntryDivisor(e, d))) else v * d) == v
  {
    if d != 1 {
      var q := EntryDivisor(e, d);
      if v == 0 {
        assert v * d == 0;
        assert TruncDiv(v * d, q) == 0;
      } else {
        assert q == d;
        TruncDivOfMultiple(v, d);
      }
    }
  }

  /**
   * Unpacking through an entry point what the same entry point packed gives
   * back the original value, when `value * divisor` fits the entry's type and
   * the field's kind.
   */
  lemma {:induction false} PackUnpackRoundTrip(e: Entry, c: Codec, t: SubatomicType, d: int, v: int)
    requires ValidCodec(c) && IsIntegerKind(t)
    requires d != 0 && -0x8000_0000 <= d < 0x8000_0000
    requires InEntryRange(e, v) && InEntryRange(e, v * d) && FitsWire(t, v * d)
    ensures Unpacked(e, t, c, d, WireBytes(c, t, PackArg(e, t, Scaled(e, v, d)))) == v
  {
    var x := v * d;
    assert Scaled(e, v, d) == x;
    CastsRoundTrip(e, c, t, x);
    DivisionUndoesScaling(e, d, v);
  }
}
