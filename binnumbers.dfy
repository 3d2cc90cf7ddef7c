/** The earlier byte-sized numeric codecs of biwako/bin/fields/numbers.py.

    Byte order is the same code as in steel (biwako/bin/fields/numbers.py:6-25),
    so Numbers.BigEndianEncode and its companions serve both.  The signers differ:
    they are built from a size in BYTES and work over size * 8 bits. */
module BinNumbers {
  import opened Results
  import opened PyInt
  import opened Streams
  import N = Numbers

  /** SignMagnitude(size).encode, size in bytes */
  function SignMagnitudeEncode(size: nat, value: int): (r: Result<int>)
    requires size >= 1
    ensures r.Err? <==> value > Pow2(size * 8) - 1
  {
    if value > Pow2(size * 8) - 1 then Err(ValueError)
    else if value < 0 then Ok(OrPow2(-value, size * 8 - 1))
    else Ok(value)
  }

  /** SignMagnitude(size).decode */
  function SignMagnitudeDecode(size: nat, value: int): int
    requires size >= 1
  {
    if Shr(value, size * 8 - 1) != 0 then -XorPow2(value, size * 8 - 1) else value
  }

  /** OnesComplement(size).encode */
  function OnesComplementEncode(size: nat, value: int): (r: Result<int>)
    requires size >= 1
    ensures r.Err? <==> value > Pow2(size * 8) - 1
  {
    if value > Pow2(size * 8) - 1 then Err(ValueError)
    else if value < 0 then Ok(Mask(Invert(-value), size * 8))
    else Ok(value)
  }

  /** OnesComplement(size).decode */
  function OnesComplementDecode(size: nat, value: int): int
    requires size >= 1
  {
    if Shr(value, size * 8 - 1) != 0 then -Mask(Invert(value), size * 8) else value
  }

  /** TwosComplement(size).encode */
  function TwosComplementEncode(size: nat, value: int): (r: Result<int>)
    requires size >= 1
    ensures r.Err? <==> value > Pow2(size * 8 - 1) - 1
    ensures r.Err? ==> r.error == ValueError
  {
    if value > Pow2(size * 8 - 1) - 1 then Err(ValueError)
    else if value < 0 then Ok(Mask(Invert(-value), size * 8) + 1)
    else Ok(value)
  }

  /** TwosComplement(size).decode */
  function TwosComplementDecode(size: nat, value: int): int
    requires size >= 1
  {
    if value > Pow2(size * 8 - 1) - 1 then -Mask(Invert(value), size * 8) - 1 else value
  }

  function SigningEncode(s: N.Signing, size: nat, value: int): Result<int>
    requires size >= 1
  {
    match s
    case SignMagnitude => SignMagnitudeEncode(size, value)
    case OnesComplement => OnesComplementEncode(size, value)
    case TwosComplement => TwosComplementEncode(size, value)
  }

  function SigningDecode(s: N.Signing, size: nat, value: int): int
    requires size >= 1
  {
    match s
    case SignMagnitude => SignMagnitudeDecode(size, value)
    case OnesComplement => OnesComplementDecode(size, value)
    case TwosComplement => TwosComplementDecode(size, value)
  }

  /** A byte-sized signer is the bit-sized signer of steel over size * 8 bits,
      so every property proved in Numbers carries over. */
  lemma SignersAgree(s: N.Signing, size: nat, value: int)
    requires size >= 1
    ensures SigningEncode(s, size, value) == N.SigningEncode(s, size * 8, value)
    ensures SigningDecode(s, size, value) == N.SigningDecode(s, size * 8, value)
  {
  }

  /** An Integer field: size in bytes, signing built from the same size. */
  datatype IntegerField = IntegerField(size: nat, signed: bool, endianness: N.Endianness, signing: N.Signing)
  {
    predicate Valid() {
      signed ==> size >= 1
    }

    function AsSteel(): N.IntegerField {
      N.IntegerField(size, signed, endianness, signing)
    }
  }

  function IntegerEncode(f: IntegerField, value: int): (r: Result<Bytes>)
    requires f.Valid()
    ensures r.Ok? ==> |r.value| == f.size
    ensures !f.signed ==> (r.Err? <==> value < 0 || value > Pow2(f.size * 8) - 1)
  {
    var v :- if f.signed then SigningEncode(f.signing, f.size, value)
             else if value < 0 then Err(ValueError)
             else Ok(value);
    if v > Pow2(f.size * 8) - 1 then Err(ValueError)
    else Ok(N.EndianEncode(f.endianness, f.size, v))
  }

  function IntegerDecode(f: IntegerField, value: Bytes): int
    requires f.Valid()
  {
    var v := N.EndianDecode(f.endianness, f.size, value);
    if f.signed then SigningDecode(f.signing, f.size, v) else v
  }

  /** The byte-sized Integer is the steel Integer of the same size. */
  lemma IntegersAgree(f: IntegerField, value: int, b: Bytes)
    requires f.Valid()
    ensures IntegerEncode(f, value) == N.IntegerEncode(f.AsSteel(), value)
    ensures IntegerDecode(f, b) == N.IntegerDecode(f.AsSteel(), b)
  {
    if f.signed {
      SignersAgree(f.signing, f.size, value);
      SignersAgree(f.signing, f.size, N.EndianDecode(f.endianness, f.size, b));
    }
    assert f.size * 8 == 8 * f.size;
  }

  /** Round trip of the byte-sized Integer on every value its representation covers. */
  lemma IntegerRoundTrip(f: IntegerField, value: int)
    requires f.Valid()
    requires if f.signed then N.InSignedRange(f.signing, 8 * f.size, value) else 0 <= value < Pow2(8 * f.size)
    ensures IntegerEncode(f, value).Ok?
    ensures IntegerDecode(f, IntegerEncode(f, value).value) == value
  {
    IntegersAgree(f, value, []);
    if f.signed {
      N.SignedIntegerRoundTrip(f.AsSteel(), value);
    } else {
      N.UnsignedIntegerRoundTrip(f.AsSteel(), value);
    }
    IntegersAgree(f, value, IntegerEncode(f, value).value);
  }

  /** FixedInteger(value, size=...): the same construction as in steel, without
      the default. */
  function MakeFixedInteger(value: int, size: Option<nat>, endianness: N.Endianness, signing: N.Signing)
    : (r: Result<N.FixedInteger>)
    requires size.Some? && value < 0 ==> size.value >= 1
    ensures r.Ok? ==> r.value.decoded == value && r.value.field.signed == (value < 0)
    ensures r.Ok? ==> |r.value.encoded| == r.value.field.size
  {
    var sz := if size.Some? then size.value else N.ImplicitSize(value);
    var f := IntegerField(sz, value < 0, endianness, signing);
    var enc :- IntegerEncode(f, value);
    Ok(N.FixedInteger(f.AsSteel(), value, enc))
  }

  // ---------------------------------------------------------------------------
  // Concrete vectors

  lemma EndiannessVectors()
    ensures N.EndianEncode(N.BigEndian, 2, 42) == [0x00, 0x2a]
    ensures N.EndianDecode(N.BigEndian, 2, [0x00, 0x2a]) == 42
    ensures N.EndianEncode(N.LittleEndian, 2, 42) == [0x2a, 0x00]
    ensures N.EndianDecode(N.LittleEndian, 2, [0x2a, 0x00]) == 42
  {
    N.EndiannessVectors();
  }

  lemma SigningVectors()
    ensures SignMagnitudeEncode(1, -42) == Ok(0xaa) && SignMagnitudeDecode(1, 0xaa) == -42
    ensures OnesComplementEncode(1, -42) == Ok(0xd5) && OnesComplementDecode(1, 0xd5) == -42
    ensures TwosComplementEncode(1, -42) == Ok(0xd6) && TwosComplementDecode(1, 0xd6) == -42
    ensures SignMagnitudeEncode(1, 42) == Ok(42) && SignMagnitudeDecode(1, 42) == 42
    ensures OnesComplementEncode(1, 42) == Ok(42) && OnesComplementDecode(1, 42) == 42
    ensures TwosComplementEncode(1, 42) == Ok(42) && TwosComplementDecode(1, 42) == 42
  {
    N.SigningVectors();
  }

  lemma IntegerVectors()
    ensures IntegerEncode(IntegerField(1, true, N.BigEndian, N.TwosComplement), 127) == Ok([0x7f])
    ensures IntegerEncode(IntegerField(1, true, N.BigEndian, N.TwosComplement), -127) == Ok([0x81])
    ensures IntegerEncode(IntegerField(1, true, N.BigEndian, N.TwosComplement), 128) == Err(ValueError)
    ensures IntegerEncode(IntegerField(1, false, N.BigEndian, N.TwosComplement), 128) == Ok([0x80])
    ensures IntegerEncode(IntegerField(1, false, N.BigEndian, N.TwosComplement), -127) == Err(ValueError)
    ensures IntegerEncode(IntegerField(1, false, N.BigEndian, N.TwosComplement), 256) == Err(ValueError)
  {
    N.IntegerVectors();
    IntegersAgree(IntegerField(1, true, N.BigEndian, N.TwosComplement), 127, []);
    IntegersAgree(IntegerField(1, true, N.BigEndian, N.TwosComplement), -127, []);
    IntegersAgree(IntegerField(1, true, N.BigEndian, N.TwosComplement), 128, []);
    IntegersAgree(IntegerField(1, false, N.BigEndian, N.TwosComplement), 128, []);
    IntegersAgree(IntegerField(1, false, N.BigEndian, N.TwosComplement), -127, []);
    IntegersAgree(IntegerField(1, false, N.BigEndian, N.TwosComplement), 256, []);
  }

  lemma FixedIntegerVectors()
    ensures MakeFixedInteger(42, Some(1), N.BigEndian, N.TwosComplement).Ok?
    ensures var fx := MakeFixedInteger(42, Some(1), N.BigEndian, N.TwosComplement).value;
      N.FixedIntegerEncode(fx, 42) == Ok([0x2a]) && N.FixedIntegerEncode(fx, 43) == Err(ValueError)
      && N.FixedIntegerDecode(fx, [0x2a]) == Ok(42) && N.FixedIntegerDecode(fx, [0x2b]) == Err(ValueError)
  {
    var f := IntegerField(1, false, N.BigEndian, N.TwosComplement);
    IntegersAgree(f, 42, []);
    assert Pow2(8) == 256;
    assert Pow256(0) == 1;
    assert N.BigEndianEncode(1, 42) == [0x2a];
  }
}
