/** The sub-byte field codecs of steel/bits/fields.py.  A bit field's value is
    an integer of `size` bits: Integer range-checks and masks it, with its
    signing built over `size` bits; FixedInteger accepts one value; Flag is
    a one-bit Integer carrying a truth value; Reserved always encodes 0. */
module Bits {
  import opened Results
  import opened PyInt
  import opened Numbers
  import opened Args

  /** A bit Integer: `size` bits, signing over that many bits
      (steel/bits/fields.py:32-38).  It is unsigned unless told otherwise. */
  datatype BitInteger = BitInteger(size: nat, signed: bool, signing: Signing)

  /** The signing's encode over n bits, n = 0 included.  Over 0 bits
      (steel/fields/numbers.py:40-84 with size 0) SignMagnitude raises
      ValueError for anything but 0 (`1 << -1` for a negative value),
      OnesComplement masks every value up to 0 to 0, and TwosComplement
      always raises ValueError at `1 << -1`. */
  function SignBits(s: Signing, n: nat, value: int): (r: Result<int>)
    ensures r.Err? ==> r.error == ValueError
    ensures r.Ok? ==> 0 <= r.value
    ensures n >= 1 ==> r == SigningEncode(s, n, value)
    ensures n == 0 && r.Ok? ==> r.value == 0
    ensures n == 0 ==> (r.Ok? <==> (s == OnesComplement && value <= 0) || (s == SignMagnitude && value == 0))
  {
    if n >= 1 then SigningEncode(s, n, value)
    else match s
      case SignMagnitude => if value != 0 then Err(ValueError) else Ok(0)
      case OnesComplement => if value > 0 then Err(ValueError) else Ok(0)
      case TwosComplement => Err(ValueError)
  }

  /** The signing's decode over n bits, n = 0 included.  Over 0 bits the only
      value is 0: SignMagnitude and OnesComplement raise ValueError at
      `0 >> -1`, and TwosComplement compares 0 with the float `2 ** -1 - 1`
      and returns -1 (steel/fields/numbers.py:49-91). */
  function UnsignBits(s: Signing, n: nat, value: int): (r: Result<int>)
    ensures r.Err? ==> r.error == ValueError
    ensures n >= 1 ==> r == Ok(SigningDecode(s, n, value))
    ensures n == 0 ==> r == (if s == TwosComplement then Ok(-1) else Err(ValueError))
  {
    if n >= 1 then Ok(SigningDecode(s, n, value))
    else if s == TwosComplement then Ok(-1)
    else Err(ValueError)
  }

  /** Integer.encode (steel/bits/fields.py:40-45): a signed field applies its
      signing first; anything above 2^size - 1 is a ValueError; the rest is
      masked to `size` bits, so an unsigned field takes a negative value
      modulo 2^size.  A 0-bit unsigned field encodes every value up to 0
      as 0. */
  function BitEncode(f: BitInteger, value: int): (r: Result<int>)
    ensures r.Err? ==> r.error == ValueError
    ensures r.Ok? ==> 0 <= r.value < Pow2(f.size)
    ensures !f.signed ==> (r.Err? <==> value > Pow2(f.size) - 1)
    ensures !f.signed && r.Ok? ==> r.value == value % Pow2(f.size)
    ensures !f.signed && 0 <= value < Pow2(f.size) ==> r == Ok(value)
    ensures f.signed && f.size >= 1 ==> (r.Ok? ==> SigningEncode(f.signing, f.size, value).Ok?)
    ensures f.signed && f.size == 0 ==> (r.Ok? <==> SignBits(f.signing, 0, value).Ok?)
  {
    if f.signed then
      var v := SignBits(f.signing, f.size, value);
      if v.Err? then Err(v.error)
      else if v.value > Pow2(f.size) - 1 then Err(ValueError)
      else Ok(Mask(v.value, f.size))
    else if value > Pow2(f.size) - 1 then Err(ValueError)
    else
      MaskSmall(value, f.size);
      Ok(Mask(value, f.size))
  }

  /** Masking leaves a value already in range alone. */
  lemma MaskSmall(value: int, n: nat)
    ensures 0 <= value < Pow2(n) ==> Mask(value, n) == value
  {
    if 0 <= value < Pow2(n) {
      DivModUnique(value, Pow2(n), 0, value);
    }
  }

  /** Integer.decode (steel/bits/fields.py:47-50): anything above 2^size - 1
      is a ValueError, and the masked value always goes through the signing
      decode, whether the field is signed or not.  A 0-bit field masks every
      value up to 0 to 0, which only two's complement decodes, to -1. */
  function BitDecode(f: BitInteger, value: int): (r: Result<int>)
    ensures f.size >= 1 ==> (r.Err? <==> value > Pow2(f.size) - 1)
    ensures value > Pow2(f.size) - 1 ==> r.Err?
    ensures r.Err? ==> r.error == ValueError
    ensures f.size == 0 && value <= 0 ==> r == (if f.signing == TwosComplement then Ok(-1) else Err(ValueError))
  {
    if value > Pow2(f.size) - 1 then Err(ValueError)
    else UnsignBits(f.signing, f.size, Mask(value, f.size))
  }

  /** Values below 2^(size-1) come back from an unsigned field, for every
      signing. */
  lemma UnsignedBitRoundTrip(f: BitInteger, value: int)
    requires f.size >= 1 && !f.signed && 0 <= value < Pow2(f.size - 1)
    ensures BitEncode(f, value) == Ok(value)
    ensures BitDecode(f, value) == Ok(value)
  {
    assert Pow2(f.size) == 2 * Pow2(f.size - 1);
    match f.signing
    case SignMagnitude => SignMagnitudeDecodeRange(f.size, value);
    case OnesComplement => OnesComplementDecodeRange(f.size, value);
    case TwosComplement => TwosComplementDecodeRange(f.size, value);
  }

  /** An unsigned field with the default two's complement signing reads a
      value with the top bit set back as negative: to 2^size less. */
  lemma UnsignedTopBitNegative(f: BitInteger, value: int)
    requires f.size >= 1 && !f.signed && f.signing == TwosComplement
    requires Pow2(f.size - 1) <= value < Pow2(f.size)
    ensures BitEncode(f, value) == Ok(value)
    ensures BitDecode(f, value) == Ok(value - Pow2(f.size))
  {
    TwosComplementDecodeRange(f.size, value);
  }

  /** A signed field round-trips every value in its representation's range. */
  lemma SignedBitRoundTrip(f: BitInteger, value: int)
    requires f.size >= 1 && f.signed && InSignedRange(f.signing, f.size, value)
    ensures BitEncode(f, value).Ok?
    ensures BitDecode(f, BitEncode(f, value).value) == Ok(value)
  {
    SigningRoundTrip(f.signing, f.size, value);
    var v := SigningEncode(f.signing, f.size, value).value;
    MaskSmall(v, f.size);
  }

  // ---------------------------------------------------------------------------
  // FixedInteger (steel/bits/fields.py:53-67)

  datatype FixedBits = FixedBits(field: BitInteger, decoded: int, encoded: int)

  /** FixedInteger(value, size=...): signed exactly when value < 0; the
      constructor raises what encoding the value raises. */
  function MakeFixedBits(value: int, size: nat, signing: Signing): (r: Result<FixedBits>)
    ensures r.Ok? <==> BitEncode(BitInteger(size, value < 0, signing), value).Ok?
    ensures r.Ok? ==> r.value.decoded == value && r.value.field == BitInteger(size, value < 0, signing)
    ensures r.Ok? ==> r.value.encoded == BitEncode(r.value.field, value).value
  {
    var f := BitInteger(size, value < 0, signing);
    var e :- BitEncode(f, value);
    Ok(FixedBits(f, value, e))
  }

  function FixedBitsEncode(fx: FixedBits, value: int): (r: Result<int>)
    ensures r.Ok? <==> value == fx.decoded
    ensures r.Ok? ==> r.value == fx.encoded
    ensures r.Err? ==> r.error == ValueError
  {
    if value != fx.decoded then Err(ValueError) else Ok(fx.encoded)
  }

  function FixedBitsDecode(fx: FixedBits, value: int): (r: Result<int>)
    ensures r.Ok? <==> value == fx.encoded
    ensures r.Ok? ==> r.value == fx.decoded
    ensures r.Err? ==> r.error == ValueError
  {
    if value != fx.encoded then Err(ValueError) else Ok(fx.decoded)
  }

  /** A fixed field reads back what it writes. */
  lemma FixedBitsRoundTrip(fx: FixedBits)
    ensures FixedBitsEncode(fx, fx.decoded) == Ok(fx.encoded)
    ensures FixedBitsDecode(fx, FixedBitsEncode(fx, fx.decoded).value) == Ok(fx.decoded)
  {
  }

  // ---------------------------------------------------------------------------
  // Flag and Reserved (steel/bits/fields.py:70-82)

  /** A Flag is an unsigned Integer whose size defaults to 1. */
  function FlagField(size: nat, signing: Signing): BitInteger {
    BitInteger(size, false, signing)
  }

  /** Flag.encode: `value and 1 or 0` through Integer.encode.  An unsigned
      flag writes 1 or 0, except that a 0-bit one has no room for 1; a signed
      flag puts 1 or 0 through its signing. */
  function FlagEncode(f: BitInteger, value: ArgValue): (r: Result<int>)
    ensures !f.signed ==> r == (if value.Truthy() && f.size == 0 then Err(ValueError)
                                else Ok(if value.Truthy() then 1 else 0))
    ensures f.signed ==> r == BitEncode(f, if value.Truthy() then 1 else 0)
  {
    assert f.size >= 1 ==> Pow2(f.size) >= 2 by {
      if f.size >= 1 {
        assert Pow2(f.size) == 2 * Pow2(f.size - 1);
      }
    }
    BitEncode(f, if value.Truthy() then 1 else 0)
  }

  /** Flag.decode: bool of Integer.decode. */
  function FlagDecode(f: BitInteger, value: int): (r: Result<bool>)
    ensures r.Err? <==> BitDecode(f, value).Err?
    ensures f.size >= 1 ==> (r.Err? <==> value > Pow2(f.size) - 1)
    ensures r.Ok? ==> r.value == (BitDecode(f, value).value != 0)
  {
    var v :- BitDecode(f, value);
    Ok(v != 0)
  }

  /** Truth values round-trip through a one-bit flag with the default
      signing, and through any wider flag.  (With a one-bit ones'
      complement or sign-magnitude signing, 1 decodes to 0.) */
  lemma FlagRoundTrip(f: BitInteger, b: bool)
    requires f.size >= 1 && !f.signed
    requires f.signing == TwosComplement || f.size >= 2
    ensures FlagDecode(f, FlagEncode(f, ABool(b)).value) == Ok(b)
  {
    assert Pow2(f.size) == 2 * Pow2(f.size - 1);
    var e := if b then 1 else 0;
    if f.size >= 2 {
      assert Pow2(f.size - 1) == 2 * Pow2(f.size - 2);
      UnsignedBitRoundTrip(f, e);
    } else {
      TwosComplementDecodeRange(1, e);
    }
  }

  /** A 0-bit field: unsigned, it writes every value up to 0 as 0 and
      refuses anything larger; with the default signing it reads 0 back as
      -1, so a 0-bit flag reads as true and cannot write true. */
  lemma ZeroBitField(value: int)
    ensures BitEncode(BitInteger(0, false, TwosComplement), value) == (if value > 0 then Err(ValueError) else Ok(0))
    ensures BitDecode(BitInteger(0, false, TwosComplement), 0) == Ok(-1)
    ensures BitDecode(BitInteger(0, false, SignMagnitude), 0) == Err(ValueError)
    ensures BitEncode(BitInteger(0, true, TwosComplement), value) == Err(ValueError)
    ensures FlagEncode(FlagField(0, TwosComplement), ABool(true)) == Err(ValueError)
    ensures FlagEncode(FlagField(0, TwosComplement), ABool(false)) == Ok(0)
    ensures FlagDecode(FlagField(0, TwosComplement), 0) == Ok(true)
  {
  }

  /** A one-bit ones'-complement flag reads a set bit as false. */
  lemma OnesComplementFlagLosesTrue()
    ensures FlagDecode(FlagField(1, OnesComplement), 1) == Ok(false)
  {
    OnesComplementDecodeRange(1, 1);
  }

  /** Reserved.encode: 0 for any value. */
  function BitReservedEncode(value: ArgValue): (r: int)
    ensures r == 0
  {
    0
  }
}
