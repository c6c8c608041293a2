# DCSimpleParameter, modelled in Dafny

In Panda3D's distributed-class parser, a simple parameter describes one
field of a distributed object that has a primitive kind. The kinds are the
integers of 8 to 64 bits, float64, the length-prefixed string and blobs,
and the built-in integer arrays. The parameter decides how values of the
field are written to, and read from, a byte stream:

- the layout the constructor derives from the kind: packing strategy,
  element kind, element size, width of the length prefix and fixed byte
  size;
- the divisor, which stores fixed-point values in integer fields and
  switches such a field to the floating-point strategy;
- the per-family range validators;
- the four integer pack entry points (`int`, `unsigned int`, int64 and
  uint64) and the four matching unpack entry points, with C's fixed-width
  casts and truncating division written out;
- packing, unpacking and skipping strings;
- the process-wide registry of element parameters and the shared element
  type of `uint32uint8array`.

The modules:

- `CIntegers`: C integer widths, wrap-around casts and truncating
  division.
- `Wire`: the byte codec. The byte-level encoders and decoders are not part
  of this model, so they are a parameter that meets `ValidCodec`. It must
  write a `w`-byte word as exactly `w` bytes and read it back. A
  little-endian codec shows that the assumption can be met.
- `Subatomic`: the kinds, the constructor's layout table, and the divisor
  state machine as a pure function.
- `Conversions`: the value each entry point passes to the validator and
  the encoder, and the value it reads back. Also the range validator and
  the pack/unpack round trip.
- `SimpleParameters`: the classes `SimpleParameter`, `Uint32Uint8Type`,
  `Registry` and the append-only buffer `PackData`.
- `RoundTrips`: client methods that chain the operations. Pack then unpack
  gives the value back. Skipping moves the offset exactly as far as
  unpacking.

`GetType` returns the kind and needs no contract.

## Model

| member | source | states |
|---|---|---|
| CIntegers.TruncDiv | direct/src/dcparser/dcSimpleParameter.cxx:940-942 | the quotient's magnitude is the floor of the magnitudes' quotient and its sign is the product of the signs (C division rounds toward zero) |
| CIntegers.Unsigned | direct/src/dcparser/dcSimpleParameter.cxx:507-508 | a cast to an unsigned width lands in that width's range, keeps every value already in it, and differs from its argument by a multiple of 2^(8w) (wrap-around, not clamping) |
| CIntegers.Signed | direct/src/dcparser/dcSimpleParameter.cxx:912-916 | a cast to a signed width lands in that width's range, keeps every value already in it, and differs from its argument by a multiple of 2^(8w) (two's-complement wrap-around, not clamping) |
| CIntegers.TruncDivOfMultiple | direct/src/dcparser/dcSimpleParameter.cxx:940-942 | dividing `v * d` by `d` gives `v` exactly, for every sign |
| Subatomic.LayoutOf | direct/src/dcparser/dcSimpleParameter.cxx:33-166 | arrays and only arrays pack as arrays; the string kinds and only they pack as strings, with uint8 elements of one byte; integer kinds and only they get an integer strategy: int8, int16 and int32 the `int` strategy, int64 the int64 one, uint8, uint16 and uint32 the `unsigned int` one, uint64 the uint64 one, and float64 the double strategy; fixed byte size exactly for scalars: 1 byte for int8 and uint8, 2 for int16 and uint16, 4 for int32 and uint32, 8 for int64, uint64 and float64; only blob32 has a 4-byte length prefix; an element kind exists exactly for arrays and strings other than uint32uint8array; each integer array's element kind is the one whose array it is (`ArrayOf`), signed exactly for the signed arrays, with 1, 2 or 4 bytes per element, and a uint32uint8 element takes 5 bytes |
| Subatomic.BytesPerElementIsElementSize | direct/src/dcparser/dcSimpleParameter.cxx:48-96 | an array element's byte count is the fixed size of its element kind, so with the widths `LayoutOf` fixes an int8/uint8 array element is 1 byte, int16/uint16 2 and int32/uint32 4; a uint32uint8 element is 4 + 1 bytes |
| Subatomic.FamilyOf | direct/src/dcparser/dcSimpleParameter.cxx:296-353 | exactly the scalar kinds have a validator family, float64 alone the floating-point one; a kind uses a signed family exactly when it is signed, and a 64-bit family exactly when it is an 8-byte integer |
| Subatomic.SetDivisorOutcome | direct/src/dcparser/dcSimpleParameter.cxx:271-285 | refused exactly for a string strategy or a zero divisor, with nothing changed; otherwise the divisor is stored, and the strategy changes only from integer to floating point, and only for a divisor other than 1 |
| Subatomic.InitialDivisorState | direct/src/dcparser/dcSimpleParameter.cxx:34-170 | after construction the divisor is never 0, is 1 or the requested one, and is 1 for string kinds |
| Subatomic.StringRefusesAllDivisors | direct/src/dcparser/dcSimpleParameter.cxx:272-275 | no series of `set_divisor` calls changes a string field |
| Subatomic.StringKindsKeepDivisorOne | direct/src/dcparser/dcSimpleParameter.cxx:271-285 | a string kind's divisor stays 1 from construction on, whatever divisors are requested |
| Subatomic.DoubleIsPermanent | direct/src/dcparser/dcSimpleParameter.cxx:277-282 | once a field packs as floating point it never switches back, even when the divisor is set to 1 again |
| Subatomic.CoercionIsNeverReverted | direct/src/dcparser/dcSimpleParameter.cxx:277-282 | if any call in a series stores a divisor other than 0 and 1 on an integer field, the field ends with the floating-point strategy |
| Conversions.Scaled | direct/src/dcparser/dcSimpleParameter.cxx:481-484 | `value * divisor` computed in the entry's C type lies in that type and equals the true product whenever the product fits |
| Conversions.PackArg | direct/src/dcparser/dcSimpleParameter.cxx:507-723 | the argument every integer pack entry point validates and encodes lies in the C type of the kind's family; the `int` and `unsigned int` entry points cast to the 32-bit type of the kind's signedness and the 64-bit ones to the family's type, each keeping a value already in that type |
| Conversions.WireBytes | direct/src/dcparser/dcSimpleParameter.cxx:486-529 | a scalar writes exactly its fixed byte size |
| Conversions.KindValue | direct/src/dcparser/dcSimpleParameter.cxx:864-910 | the value a decoded word denotes fits the kind, and re-encoding it gives the same word |
| Conversions.KindToEntry | direct/src/dcparser/dcSimpleParameter.cxx:862-1221 | each unpack entry point's cast from the kind's value lands in the entry's C type |
| Conversions.KindToInt64AsWritten | direct/src/dcparser/dcSimpleParameter.cxx:1080-1102 | unpack_int64 as written, with uint8, uint16 and uint32 cast through `int`; the result is a valid int64 |
| Conversions.UnpackInt64AsWrittenMisreadsHighUint32 | direct/src/dcparser/dcSimpleParameter.cxx:1096-1102 | a uint32 field holding 3000000000 packs through the int64 entry point unchanged but unpacks as written to 3000000000 - 2^32 |
| Conversions.Int64CorrectionOnlyAffectsHighValues | direct/src/dcparser/dcSimpleParameter.cxx:1080-1102 | below 2^31 the corrected and the as-written unpack_int64 conversions agree |
| Conversions.EntryDivisor | direct/src/dcparser/dcSimpleParameter.cxx:1032-1034 | the divisor as an entry point divides by it is never 0, and is the divisor itself when that is positive |
| Conversions.Unpacked | direct/src/dcparser/dcSimpleParameter.cxx:862-945 | the value unpacked from one scalar's bytes lies in the entry's C type |
| Conversions.ReadBack | direct/src/dcparser/dcSimpleParameter.cxx:486-496 | a value that fits its kind decodes back from the bytes it was encoded into |
| Conversions.CastsRoundTrip | direct/src/dcparser/dcSimpleParameter.cxx:565-568 | the argument an entry point packs fits the kind, and the same entry's unpack cast recovers the scaled value, including pack_uint's cast to `int` for an int64 field |
| Conversions.DivisionUndoesScaling | direct/src/dcparser/dcSimpleParameter.cxx:940-942 | dividing the scaled value by the divisor as the entry point converts it gives the value back, for every divisor sign, including 0 under an unsigned divisor |
| Conversions.PackUnpackRoundTrip | direct/src/dcparser/dcSimpleParameter.cxx:862-945 | unpacking through an entry point what the same entry point packed gives the original value back, after the divisor's scaling and truncating division, whenever `value * divisor` fits the entry's type and the kind |
| Conversions.ScaledBounds | direct/src/dcparser/dcSimpleParameter.cxx:296-353 | the validator `set_range` builds has one interval per given bound |
| Conversions.ScaledBoundsAdmit | direct/src/dcparser/dcSimpleParameter.cxx:301-308 | a value inside a given bound passes the validator once scaled by a positive divisor |
| Conversions.ScaledBoundsReject | direct/src/dcparser/dcSimpleParameter.cxx:301-308 | conversely, with a positive divisor and bounds that fit the family's type, a scaled value the validator accepts lies inside some given bound, so a value outside every bound fails to pack |
| SimpleParameters.SimpleParameter.constructor | direct/src/dcparser/dcSimpleParameter.cxx:33-184 | the layout is the kind's, the divisor state is the one `set_divisor` leaves, the validators are empty, and the element parameter is fresh with the same divisor; the shared pair type is reused once it exists |
| SimpleParameters.SimpleParameter.IsValid | direct/src/dcparser/dcSimpleParameter.cxx:233-236 | valid exactly when the field has a packing strategy, that is, a fixed size or nested fields |
| SimpleParameters.SimpleParameter.GetDivisor | direct/src/dcparser/dcSimpleParameter.cxx:259-262 | the divisor is never 0, and is 1 for string kinds |
| SimpleParameters.SimpleParameter.SetDivisor | direct/src/dcparser/dcSimpleParameter.cxx:271-285 | the result and the new strategy and divisor are those of `SetDivisorOutcome`; the field stays valid |
| SimpleParameters.SimpleParameter.SetRange | direct/src/dcparser/dcSimpleParameter.cxx:295-353 | the field's own integer validator becomes the scaled bounds and every other validator is unchanged |
| SimpleParameters.SimpleParameter.CalcNumNestedFields | direct/src/dcparser/dcSimpleParameter.cxx:365-371 | the element count is the largest `n` with `n` elements fitting in the given bytes, or 0 when elements have no size |
| SimpleParameters.SimpleParameter.GetNestedField | direct/src/dcparser/dcSimpleParameter.cxx:381-384 | arrays and strings have an element field, which is the pair type exactly for uint32uint8array and otherwise an integer parameter of the element kind |
| SimpleParameters.SimpleParameter.PackInt | direct/src/dcparser/dcSimpleParameter.cxx:480-536 | a scalar field appends the encoding of the scaled value and succeeds exactly when the validator accepts it and it fits the kind; any other field refuses and appends nothing |
| SimpleParameters.SimpleParameter.PackUint | direct/src/dcparser/dcSimpleParameter.cxx:544-600 | as for PackInt, with the `unsigned int` entry's casts |
| SimpleParameters.SimpleParameter.PackInt64 | direct/src/dcparser/dcSimpleParameter.cxx:608-664 | as for PackInt, with the int64 entry's casts |
| SimpleParameters.SimpleParameter.PackUint64 | direct/src/dcparser/dcSimpleParameter.cxx:672-728 | as for PackInt, with the uint64 entry's casts |
| SimpleParameters.SimpleParameter.PackString | direct/src/dcparser/dcSimpleParameter.cxx:736-761 | a string field appends the length prefix in its width, then the bytes, and succeeds exactly when the length fits the prefix; any other field refuses and appends nothing |
| SimpleParameters.SimpleParameter.UnpackInt | direct/src/dcparser/dcSimpleParameter.cxx:861-945 | succeeds exactly for a scalar field whose bytes are all in the buffer; then the offset moves past them and the value is `Unpacked`; otherwise offset and value are untouched |
| SimpleParameters.SimpleParameter.UnpackUint | direct/src/dcparser/dcSimpleParameter.cxx:953-1037 | as for UnpackInt, with the `unsigned int` entry's casts |
| SimpleParameters.SimpleParameter.UnpackInt64 | direct/src/dcparser/dcSimpleParameter.cxx:1045-1129 | as for UnpackInt, with the corrected int64 casts |
| SimpleParameters.SimpleParameter.UnpackUint64 | direct/src/dcparser/dcSimpleParameter.cxx:1137-1221 | as for UnpackInt, with the uint64 entry's casts |
| SimpleParameters.SimpleParameter.UnpackString | direct/src/dcparser/dcSimpleParameter.cxx:1229-1262 | fails with nothing moved for a non-string field or a buffer without the prefix; otherwise succeeds exactly when the announced bytes are all present, returning exactly them; a short buffer leaves the offset after the prefix |
| SimpleParameters.SimpleParameter.UnpackSkip | direct/src/dcparser/dcSimpleParameter.cxx:1271-1323 | scalars advance by their size and strings past the prefix and the announced bytes; the skip succeeds exactly when the new offset is within the buffer, and a failed skip of a scalar has still moved |
| SimpleParameters.Uint32Uint8Type.constructor | direct/src/dcparser/dcSimpleParameter.cxx:1456-1463 | two fresh, distinct parameters, a uint32 and a uint8 with divisor 1, as a class of two nested fields |
| SimpleParameters.Uint32Uint8Type.GetNestedField | direct/src/dcparser/dcSimpleParameter.cxx:1470-1482 | field 0 is the uint32 and field 1 the uint8; any other index has no field |
| SimpleParameters.Registry.CreateNestedField | direct/src/dcparser/dcSimpleParameter.cxx:1420-1432 | returns a fresh, valid parameter of the requested kind with the divisor state construction gives it |
| SimpleParameters.Registry.CreateUint32Uint8Type | direct/src/dcparser/dcSimpleParameter.cxx:1440-1446 | the pair type is created on the first call only, and every later call returns that same object |
| RoundTrips.PackThenUnpack | direct/src/dcparser/dcSimpleParameter.cxx:480-536 | after packing through any integer entry point (with the corrected int64 cast of the Findings row), unpacking through the same one at the same offset succeeds, returns the value and ends right after it; the pack fails exactly when the validator rejects the value |
| RoundTrips.PackOfFittingValue | direct/src/dcparser/dcSimpleParameter.cxx:480-536 | a scaled value that fits its entry and kind packs without an encoder error, so only the validator can reject it |
| RoundTrips.UnpackOfPacked | direct/src/dcparser/dcSimpleParameter.cxx:861-945 | unpacking bytes that hold a packed value succeeds and gives the value back (with the corrected int64 cast of the Findings row) |
| RoundTrips.PackThenUnpackString | direct/src/dcparser/dcSimpleParameter.cxx:736-761 | a string that fits its prefix packs without error, and unpacking it at the same offset gives it back and ends right after it |
| RoundTrips.SkipAgreesWithUnpack | direct/src/dcparser/dcSimpleParameter.cxx:1271-1323 | for a scalar or string field, a skip succeeds exactly when the matching unpack does, and then both end at the same offset |

## Left out

- `pack_double` and `unpack_double` are not modelled. They convert through floating point: `pack_double` scales and rounds with `floor(x + 0.5)`, and `unpack_double` divides by the divisor. Dafny's integers do not capture either.
- The float64 validator is not modelled. The integer entry points pass a float64 field's value to an abstract `encodeDouble`, and read it back through an abstract `decodeDouble` that gives the C cast of the stored double.
- SimpleParameters.SimpleParameter.PackInt: a float64 field always reports success, because the float64 validator is not modelled. The same holds for PackUint, PackInt64 and PackUint64.
- SimpleParameters.SimpleParameter.SetRange: takes integral bounds. It does not model the rounding of fractional bounds. A float64 field keeps its validators. A bound outside the C type wraps, where C leaves that conversion undefined.
- SimpleParameters.SimpleParameter.UnpackInt64: uses the corrected cast of the Findings row. For a uint32 field holding a word of 2^31 or more, the code as written returns that word minus 2^32 (a negative number); the model returns the word. The as-written cast is `Conversions.KindToInt64AsWritten`, and the two agree below 2^31 (`Conversions.Int64CorrectionOnlyAffectsHighValues`).
- Signed overflow of `value * _divisor` in `pack_int` and `pack_int64`, and the division of the most negative `int` or int64 by -1 in `unpack_int` and `unpack_int64`, are undefined in C. The model wraps both around, as two's-complement hardware does.
- SimpleParameters.SimpleParameter.CalcNumNestedFields: does not model the conversion of the `size_t` quotient to `int`.
- The numeric range class (`DCNumericRange`) is not part of this model. Its `validate` is taken to accept every value when there are no intervals, and otherwise exactly the values inside some interval. Its `add_range` is taken to append one interval.
- The encoders and decoders `do_pack_*` and `do_unpack_*` are not part of this model. They are the `Codec` parameter. `do_pack_*` is taken to flag an argument that does not fit the kind and to write its low bytes anyway.
- The packer's buffer (`DCPackData`) is not part of this model beyond appending. `get_write_pointer` followed by an encoder, and `append_data`, are both appends.
- Offsets and lengths are unbounded, so `size_t` overflow of `p + length` is not modelled.
- `output_instance` and `generate_hash` are not modelled: they do formatting and hashing only.
- The copy constructor, `make_copy` and `as_simple_parameter` are not modelled: they copy fields or return `this`.
- The static registry is an explicit `Registry` object passed to the constructors. Its thread-safety is not modelled.
- `create_nested_field` looks up and stores into a copy of the inner map, as the code does. So nothing is ever cached and every call builds a new parameter; the model follows the code.
- The `invalid` kind's fixed byte size is the packer's default of none.
- panda/src/event/config_event.cxx is context only and is not part of this model.

## Findings

| source | as written | input that shows it | evidently intended | confidence | as-written member | corrected member |
|---|---|---|---|---|---|---|
| direct/src/dcparser/dcSimpleParameter.cxx:1096-1102 | `unpack_int64` reads a uint8, uint16 or uint32 field and casts the value to `int` before storing it in the 64-bit result | a uint32 field holding 3000000000 (packed cleanly through `pack_int64`) unpacks to -1294967296 | keep the value, as the other 64-bit conversions do, so a uint32 round-trips through the int64 entry points | not executed | Conversions.UnpackInt64AsWrittenMisreadsHighUint32 | Conversions.PackUnpackRoundTrip |
