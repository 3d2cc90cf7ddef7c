/** The earlier bit field codecs of biwako/bit/fields.py: Integer
    range-checks and masks without any signing, so every value it accepts
    and that is not negative comes back; Flag carries a truth value as 0 or
    1; FixedInteger accepts one value; Reserved always encodes 0. */
module BiwakoBits {
  import opened Results
  import opened PyInt

  /** Integer.encode (biwako/bit/fields.py:37-40): above 2^size - 1 is a
      ValueError, the rest is masked to `size` bits, negative values
      included. */
  function PlainEncode(size: nat, value: int): (r: Result<int>)
    ensures r.Err? <==> value > Pow2(size) - 1
    ensures r.Err? ==> r.error == ValueError
    ensures r.Ok? ==> 0 <= r.value < Pow2(size) && r.value == value % Pow2(size)
  {
    if value > Pow2(size) - 1 then Err(ValueError) else Ok(Mask(value, size))
  }

  /** Integer.decode (biwako/bit/fields.py:42-45): the same check and mask. */
  function PlainDecode(size: nat, value: int): (r: Result<int>)
    ensures r.Err? <==> value > Pow2(size) - 1
    ensures r.Err? ==> r.error == ValueError
    ensures r.Ok? ==> 0 <= r.value < Pow2(size) && r.value == value % Pow2(size)
  {
    if value > Pow2(size) - 1 then Err(ValueError) else Ok(Mask(value, size))
  }

  /** Every value in [0, 2^size) is its own encoding and comes back. */
  lemma PlainRoundTrip(size: nat, value: int)
    requires 0 <= value < Pow2(size)
    ensures PlainEncode(size, value) == Ok(value)
    ensures PlainDecode(size, PlainEncode(size, value).value) == Ok(value)
  {
    DivModUnique(value, Pow2(size), 0, value);
  }

  /** A negative value is accepted and wraps modulo 2^size. */
  lemma PlainNegativeWraps(size: nat)
    requires size >= 1
    ensures PlainEncode(size, -1) == Ok(Pow2(size) - 1)
  {
    DivModUnique(-1, Pow2(size), -1, Pow2(size) - 1);
  }

  // ---------------------------------------------------------------------------
  // FixedInteger (biwako/bit/fields.py:48-62)

  datatype FixedPlain = FixedPlain(size: nat, decoded: int, encoded: int)

  /** FixedInteger(value, size=...): the encoding is computed once, and the
      constructor raises what encoding the value raises. */
  function MakeFixedPlain(value: int, size: nat): (r: Result<FixedPlain>)
    ensures r.Ok? <==> value <= Pow2(size) - 1
    ensures r.Ok? ==> r.value.decoded == value && r.value.size == size
    ensures r.Ok? ==> r.value.encoded == value % Pow2(size)
  {
    var e :- PlainEncode(size, value);
    Ok(FixedPlain(size, value, e))
  }

  function FixedPlainEncode(fx: FixedPlain, value: int): (r: Result<int>)
    ensures r.Ok? <==> value == fx.decoded
    ensures r.Ok? ==> r.value == fx.encoded
    ensures r.Err? ==> r.error == ValueError
  {
    if value != fx.decoded then Err(ValueError) else Ok(fx.encoded)
  }

  function FixedPlainDecode(fx: FixedPlain, value: int): (r: Result<int>)
    ensures r.Ok? <==> value == fx.encoded
    ensures r.Ok? ==> r.value == fx.decoded
    ensures r.Err? ==> r.error == ValueError
  {
    if value != fx.encoded then Err(ValueError) else Ok(fx.decoded)
  }

  /** FixedInteger(42, size=8) accepts 42 and its encoding only, and a
      negative fixed value is stored by its wrapped encoding. */
  lemma FixedPlainExamples()
    ensures var fx := MakeFixedPlain(42, 8);
      && fx.Ok? && fx.value.encoded == 42
      && FixedPlainEncode(fx.value, 42) == Ok(42) && FixedPlainEncode(fx.value, 43) == Err(ValueError)
      && FixedPlainDecode(fx.value, 42) == Ok(42) && FixedPlainDecode(fx.value, 43) == Err(ValueError)
    ensures MakeFixedPlain(-1, 4) == Ok(FixedPlain(4, -1, 15))
  {
    assert Pow2(8) == 256 by {
      assert Pow2(4) == 16;
    }
    PlainRoundTrip(8, 42);
    assert Pow2(4) == 16;
    PlainNegativeWraps(4);
  }

  // ---------------------------------------------------------------------------
  // Flag and Reserved (biwako/bit/fields.py:65-77)

  /** Flag.encode on a bool: int of Integer.encode, True being 1.  A 0-bit
      flag has no room for True and raises ValueError. */
  function PlainFlagEncode(size: nat, value: bool): (r: Result<int>)
    ensures r == (if value && size == 0 then Err(ValueError) else Ok(if value then 1 else 0))
  {
    assert size >= 1 ==> Pow2(size) == 2 * Pow2(size - 1);
    PlainRoundTrip(size, 0);
    if size >= 1 then PlainRoundTrip(size, 1); PlainEncode(size, if value then 1 else 0)
    else PlainEncode(size, if value then 1 else 0)
  }

  /** Flag.decode: bool of Integer.decode. */
  function PlainFlagDecode(size: nat, value: int): (r: Result<bool>)
    ensures r.Err? <==> value > Pow2(size) - 1
    ensures r.Ok? ==> r.value == (value % Pow2(size) != 0)
  {
    var v :- PlainDecode(size, value);
    Ok(v != 0)
  }

  /** Booleans round-trip through a flag of at least one bit (a 0-bit flag
      cannot write True). */
  lemma PlainFlagRoundTrip(size: nat, b: bool)
    requires size >= 1
    ensures PlainFlagDecode(size, PlainFlagEncode(size, b).value) == Ok(b)
  {
    assert Pow2(size) == 2 * Pow2(size - 1);
    PlainRoundTrip(size, if b then 1 else 0);
  }

  /** Reserved.encode: 0 for any value. */
  function PlainReservedEncode<T>(value: T): (r: int)
    ensures r == 0
  {
    0
  }
}
