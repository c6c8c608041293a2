/**
 * The fixed-width integer arithmetic of the C++ implementation, written out
 * on Dafny's unbounded integers: the four value types the pack and unpack
 * entry points use, the wrap-around of a cast or an overflowing product, and
 * C's division, which truncates toward zero.
 */
module CIntegers {

  /** The byte widths of the wire format's fixed-size words. */
  predicate IsWidth(w: nat) {
    w == 1 || w == 2 || w == 4 || w == 8
  }

  /** 256^w: the number of distinct words of `w` bytes. */
  function Modulus(w: nat): (m: int)
    requires IsWidth(w)
    ensures m >= 0x100 && m % 2 == 0
  {
    match w
    case 1 => 0x100
    case 2 => 0x1_0000
    case 4 => 0x1_0000_0000
    case _ => 0x1_0000_0000_0000_0000
  }

  /** C `int`, `unsigned int`, `PN_int64` and `PN_uint64`. */
  type CInt = x: int | -0x8000_0000 <= x < 0x8000_0000
  type CUint = x: int | 0 <= x < 0x1_0000_0000
  type CInt64 = x: int | -0x8000_0000_0000_0000 <= x < 0x8000_0000_0000_0000
  type CUint64 = x: int | 0 <= x < 0x1_0000_0000_0000_0000

  /** The value an unsigned `w`-byte variable holds after `x` is stored in it. */
  function Unsigned(x: int, w: nat): (u: int)
    requires IsWidth(w)
    ensures 0 <= u < Modulus(w)
    ensures 0 <= x < Modulus(w) ==> u == x
    ensures (x - u) % Modulus(w) == 0
  {
    var m := Modulus(w);
    assert x - x % m == (x / m) * m;
    MultipleHasNoRemainder(x / m, m);
    x % m
  }

  /** The value a two's-complement `w`-byte variable holds after `x` is stored in it. */
  function Signed(x: int, w: nat): (s: int)
    requires IsWidth(w)
    ensures -Modulus(w) / 2 <= s < Modulus(w) / 2
    ensures -Modulus(w) / 2 <= x < Modulus(w) / 2 ==> s == x
    ensures (x - s) % Modulus(w) == 0
  {
    var m := Modulus(w);
    var u := Unsigned(x, w);
    if u < m / 2 then u
    else
      assert x - (u - m) == (x - u) + m;
      ShiftByModulus(x - u, m);
      u - m
  }

  /** Adding the modulus to a multiple of it gives a multiple of it. */
  lemma ShiftByModulus(a: int, m: int)
    requires m > 0 && a % m == 0
    ensures (a + m) % m == 0
  {
    var k := a / m;
    assert a == k * m;
    assert a + m == (k + 1) * m;
    MultipleHasNoRemainder(k + 1, m);
  }

  /** A multiple of `m` leaves no remainder. */
  lemma MultipleHasNoRemainder(k: int, m: int)
    requires m > 0
    ensures (k * m) % m == 0
  {
    var q, r := (k * m) / m, (k * m) % m;
    assert k * m == q * m + r && 0 <= r < m;
    assert (k - q) * m == r;
    if k > q {
      MulAtLeast(k - q, m);
    } else if k < q {
      assert (q - k) * m == -r;
      MulAtLeast(q - k, m);
    }
  }

  function AsCInt(x: int): CInt { Signed(x, 4) }
  function AsCUint(x: int): CUint { Unsigned(x, 4) }
  function AsCInt64(x: int): CInt64 { Signed(x, 8) }
  function AsCUint64(x: int): CUint64 { Unsigned(x, 8) }

  function Abs(x: int): nat { if x < 0 then -x else x }

  /** C's `/`: the magnitude of the quotient is the floor of the magnitudes'
      quotient and its sign is the product of the signs, so it rounds toward
      zero (Dafny's own `/` is Euclidean). */
  function TruncDiv(a: int, b: int): (q: int)
    requires b != 0
    ensures Abs(q) == Abs(a) / Abs(b)
    ensures q != 0 ==> ((q < 0) <==> ((a < 0) != (b < 0)))
  {
    var m := Abs(a) / Abs(b);
    assert m >= 0 by { DivOfNaturals(Abs(a), Abs(b)); }
    if (a < 0) == (b < 0) then m else -m
  }

  lemma DivOfNaturals(x: nat, y: nat)
    requires y > 0
    ensures x / y >= 0
  {
  }

  lemma MulDivCancel(k: nat, m: nat)
    requires m > 0
    ensures (k * m) / m == k
  {
    var q, r := (k * m) / m, (k * m) % m;
    assert k * m == q * m + r && 0 <= r < m;
    assert (k - q) * m == r;
    if k > q {
      MulAtLeast(k - q, m);
    }
  }

  lemma {:induction false} MulAtLeast(a: nat, m: nat)
    requires a >= 1
    ensures a * m >= m
  {
    if a > 1 {
      MulAtLeast(a - 1, m);
      assert a * m == (a - 1) * m + m;
    }
  }

  /** Dividing a product by one of its factors gives back the other, exactly. */
  lemma TruncDivOfMultiple(v: int, d: int)
    requires d != 0
    ensures TruncDiv(v * d, d) == v
  {
    assert Abs(v * d) == Abs(v) * Abs(d) by {
      if v < 0 && d < 0 { assert v * d == (-v) * (-d); }
      else if v < 0 { assert -(v * d) == (-v) * d; }
      else if d < 0 { assert -(v * d) == v * (-d); }
    }
    MulDivCancel(Abs(v), Abs(d));
  }
}
