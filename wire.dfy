/**
 * The byte codec the field packer writes and reads through. The encoders and
 * decoders live outside this model, so the codec is a parameter: any codec
 * that turns a `w`-byte word into exactly `w` bytes and reads it back is
 * accepted. No byte order is fixed here; `LittleEndian` only shows that such
 * a codec exists.
 */
module Wire {
  import opened CIntegers

  type Byte = x: int | 0 <= x < 0x100

  /**
   * `encode(w, word)` writes an unsigned `w`-byte word; `decode` reads one
   * back. `encodeDouble` writes the 8-byte floating-point image of an
   * integer, and `decodeDouble` gives the integer a C cast of the 8-byte
   * floating-point value read from the bytes would produce.
   */
  datatype Codec = Codec(
    encode: (nat, int) -> seq<Byte>,
    decode: seq<Byte> -> int,
    encodeDouble: int -> seq<Byte>,
    decodeDouble: seq<Byte> -> int)

  /** What the model assumes of the unseen encoders and decoders. */
  ghost predicate ValidCodec(c: Codec) {
    && (forall w: nat, x: int {:trigger c.encode(w, x)} ::
          IsWidth(w) && 0 <= x < Modulus(w) ==>
            |c.encode(w, x)| == w && c.decode(c.encode(w, x)) == x)
    && (forall b: seq<Byte> {:trigger c.decode(b)} ::
          IsWidth(|b|) ==> 0 <= c.decode(b) < Modulus(|b|))
    && (forall x: int {:trigger c.encodeDouble(x)} :: |c.encodeDouble(x)| == 8)
  }

  function Pow256(n: nat): (p: nat)
    ensures p > 0
  {
    if n == 0 then 1 else 0x100 * Pow256(n - 1)
  }

  /** Least significant byte first. */
  function LEEncode(w: nat, x: nat): (b: seq<Byte>)
    ensures |b| == w
  {
    if w == 0 then [] else [x % 0x100] + LEEncode(w - 1, x / 0x100)
  }

  function LEDecode(b: seq<Byte>): nat {
    if b == [] then 0 else b[0] + 0x100 * LEDecode(b[1..])
  }

  lemma {:induction false} LEDecodeBound(b: seq<Byte>)
    ensures LEDecode(b) < Pow256(|b|)
  {
    if b != [] {
      LEDecodeBound(b[1..]);
      var rest := LEDecode(b[1..]);
      assert rest + 1 <= Pow256(|b| - 1);
      MulMonotone(rest + 1, Pow256(|b| - 1), 0x100);
    }
  }

  lemma MulMonotone(a: nat, b: nat, k: nat)
    requires a <= b
    ensures k * a <= k * b
  {
  }

  lemma {:induction false} LERoundTrip(w: nat, x: nat)
    requires x < Pow256(w)
    ensures LEDecode(LEEncode(w, x)) == x
  {
    if w > 0 {
      var q := x / 0x100;
      assert x == 0x100 * q + x % 0x100;
      assert q < Pow256(w - 1);
      LERoundTrip(w - 1, q);
      assert LEEncode(w, x)[1..] == LEEncode(w - 1, q);
    }
  }

  lemma ModOfSmaller(x: nat, m: nat)
    requires x < m
    ensures x % m == x
  {
  }

  lemma ModulusIsPow256(w: nat)
    requires IsWidth(w)
    ensures Modulus(w) == Pow256(w)
  {
    assert Pow256(1) == 0x100;
    assert Pow256(2) == 0x1_0000;
    assert Pow256(4) == 0x1_0000_0000 by { assert Pow256(3) == 0x100_0000; }
    assert Pow256(8) == 0x1_0000_0000_0000_0000 by {
      assert Pow256(4) == 0x1_0000_0000 by { assert Pow256(3) == 0x100_0000; }
      assert Pow256(6) == 0x1_0000_0000_0000;
    }
  }

  /** A little-endian integer codec. Its floating-point half writes zero bytes:
      it witnesses only the integer part of `ValidCodec`. */
  function LittleEndian(): Codec {
    Codec(
      (w: nat, x: int) => LEEncode(w, x % Pow256(w)),
      (b: seq<Byte>) => LEDecode(b),
      (x: int) => [0, 0, 0, 0, 0, 0, 0, 0],
      (b: seq<Byte>) => 0)
  }

  /** The codec assumption can be met, so the lemmas that rest on it are not vacuous. */
  lemma LittleEndianIsValid()
    ensures ValidCodec(LittleEndian())
  {
    var c := LittleEndian();
    forall w: nat, x: int | IsWidth(w) && 0 <= x < Modulus(w)
      ensures |c.encode(w, x)| == w && c.decode(c.encode(w, x)) == x
    {
      ModulusIsPow256(w);
      ModOfSmaller(x, Pow256(w));
      assert c.encode(w, x) == LEEncode(w, x);
      LERoundTrip(w, x);
    }
    forall b: seq<Byte> | IsWidth(|b|)
      ensures 0 <= c.decode(b) < Modulus(|b|)
    {
      ModulusIsPow256(|b|);
      LEDecodeBound(b);
    }
  }
}
