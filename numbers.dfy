/** Numeric codecs of steel/fields/numbers.py: byte order, signed-number
    representations, the range-checked Integer field and the literal FixedInteger. */
module Numbers {
  import opened Results
  import opened PyInt
  import opened Streams

  datatype Endianness = BigEndian | LittleEndian
  datatype Signing = SignMagnitude | OnesComplement | TwosComplement

  // ---------------------------------------------------------------------------
  // Byte order (steel/fields/numbers.py:13-32)

  /** BigEndian(size).encode: byte i is digit size-1-i of value in base 256. */
  function BigEndianEncode(size: nat, value: int): (r: Bytes)
    ensures |r| == size
  {
    seq(size, i requires 0 <= i < size => (value / Pow256(size - i - 1)) % 256)
  }

  /** LittleEndian(size).encode: byte i is digit i of value in base 256. */
  function LittleEndianEncode(size: nat, value: int): (r: Bytes)
    ensures |r| == size
  {
    seq(size, i requires 0 <= i < size => (value / Pow256(i)) % 256)
  }

  /** BigEndian(size).decode: the sum of value[i] * 256^(size-i-1) over the first
      size bytes, written as its first term plus the sum over the rest. */
  function BigEndianDecode(size: nat, value: Bytes): (r: int)
    ensures 0 <= r < Pow256(size)
    decreases size
  {
    if size == 0 || |value| == 0 then 0
    else
      var rest := BigEndianDecode(size - 1, value[1..]);
      MulMono(Pow256(size - 1), value[0], 255);
      value[0] * Pow256(size - 1) + rest
  }

  /** LittleEndian(size).decode: the sum of value[i] * 256^i over the first size
      bytes, written as its first term plus 256 times the sum over the rest. */
  function LittleEndianDecode(size: nat, value: Bytes): (r: int)
    ensures 0 <= r < Pow256(size)
    decreases size
  {
    if size == 0 || |value| == 0 then 0
    else
      var rest := LittleEndianDecode(size - 1, value[1..]);
      MulMono(256, rest, Pow256(size - 1) - 1);
      value[0] + 256 * rest
  }

  function EndianEncode(e: Endianness, size: nat, value: int): (r: Bytes)
    ensures |r| == size
  {
    match e
    case BigEndian => BigEndianEncode(size, value)
    case LittleEndian => LittleEndianEncode(size, value)
  }

  function EndianDecode(e: Endianness, size: nat, value: Bytes): (r: int)
    ensures 0 <= r < Pow256(size)
  {
    match e
    case BigEndian => BigEndianDecode(size, value)
    case LittleEndian => LittleEndianDecode(size, value)
  }

  /** Most significant byte first: the leading byte is the top base-256 digit and
      the others encode the remainder. */
  lemma BigEndianEncodeFront(size: nat, value: int)
    requires size >= 1
    ensures BigEndianEncode(size, value)
         == [(value / Pow256(size - 1)) % 256] + BigEndianEncode(size - 1, value)
  {
    var r := BigEndianEncode(size, value);
    var t := BigEndianEncode(size - 1, value);
    assert r[1..] == t by {
      forall k | 0 <= k < size - 1
        ensures r[1..][k] == t[k]
      {
        assert r[k + 1] == (value / Pow256(size - (k + 1) - 1)) % 256;
      }
    }
  }

  /** Least significant byte first: the leading byte is value % 256 and the
      others encode value / 256. */
  lemma LittleEndianEncodeFront(size: nat, value: int)
    requires size >= 1
    ensures LittleEndianEncode(size, value)
         == [value % 256] + LittleEndianEncode(size - 1, value / 256)
  {
    var r := LittleEndianEncode(size, value);
    var t := LittleEndianEncode(size - 1, value / 256);
    assert r[1..] == t by {
      forall k | 0 <= k < size - 1
        ensures r[1..][k] == t[k]
      {
        DivDiv(value, 256, Pow256(k));
        assert Pow256(k + 1) == 256 * Pow256(k);
      }
    }
  }

  /** decode(encode(v)) keeps the low 8*size bits of any integer, so it is the
      identity on [0, 256^size). */
  lemma {:induction false} BigEndianRoundTrip(size: nat, value: int)
    ensures BigEndianDecode(size, BigEndianEncode(size, value)) == value % Pow256(size)
  {
    if size == 0 {
    } else {
      var p := Pow256(size - 1);
      BigEndianEncodeFront(size, value);
      var e := BigEndianEncode(size, value);
      assert e[1..] == BigEndianEncode(size - 1, value);
      BigEndianRoundTrip(size - 1, value);
      ModSplit(value, p, 256);
      assert Pow256(size) == p * 256;
    }
  }

  lemma {:induction false} LittleEndianRoundTrip(size: nat, value: int)
    ensures LittleEndianDecode(size, LittleEndianEncode(size, value)) == value % Pow256(size)
  {
    if size == 0 {
    } else {
      LittleEndianEncodeFront(size, value);
      var e := LittleEndianEncode(size, value);
      assert e[1..] == LittleEndianEncode(size - 1, value / 256);
      LittleEndianRoundTrip(size - 1, value / 256);
      ModSplit(value, 256, Pow256(size - 1));
      assert Pow256(size) == 256 * Pow256(size - 1);
    }
  }

  lemma EndianRoundTrip(e: Endianness, size: nat, value: int)
    requires 0 <= value < Pow256(size)
    ensures |EndianEncode(e, size, value)| == size
    ensures EndianDecode(e, size, EndianEncode(e, size, value)) == value
  {
    ModBelow(value, Pow256(size));
    match e
    case BigEndian => BigEndianRoundTrip(size, value);
    case LittleEndian => LittleEndianRoundTrip(size, value);
  }

  /** The decoders look at value[:size] only. */
  lemma {:induction false} BigEndianPrefixOnly(size: nat, value: Bytes, more: Bytes)
    requires |value| >= size
    ensures BigEndianDecode(size, value + more) == BigEndianDecode(size, value)
  {
    if size > 0 {
      assert (value + more)[1..] == value[1..] + more;
      BigEndianPrefixOnly(size - 1, value[1..], more);
    }
  }

  lemma {:induction false} LittleEndianPrefixOnly(size: nat, value: Bytes, more: Bytes)
    requires |value| >= size
    ensures LittleEndianDecode(size, value + more) == LittleEndianDecode(size, value)
  {
    if size > 0 {
      assert (value + more)[1..] == value[1..] + more;
      LittleEndianPrefixOnly(size - 1, value[1..], more);
    }
  }

  /** Two inputs of exactly size bytes with the same value are equal. */
  lemma {:induction false} BigEndianInjective(size: nat, s: Bytes, t: Bytes)
    requires |s| == size && |t| == size
    requires BigEndianDecode(size, s) == BigEndianDecode(size, t)
    ensures s == t
  {
    if size > 0 {
      var p := Pow256(size - 1);
      var rs, rt := BigEndianDecode(size - 1, s[1..]), BigEndianDecode(size - 1, t[1..]);
      LeadingDigit(p, s[0], rs, t[0], rt);
      BigEndianInjective(size - 1, s[1..], t[1..]);
      assert s == [s[0]] + s[1..] && t == [t[0]] + t[1..];
    }
  }

  /** A value written as a leading digit times p plus a remainder below p
      determines both. */
  lemma LeadingDigit(p: int, a: int, ra: int, b: int, rb: int)
    requires p > 0 && 0 <= ra < p && 0 <= rb < p
    requires a * p + ra == b * p + rb
    ensures a == b && ra == rb
  {
    DivModUnique(a * p + ra, p, a, ra);
    DivModUnique(b * p + rb, p, b, rb);
  }

  lemma {:induction false} LittleEndianInjective(size: nat, s: Bytes, t: Bytes)
    requires |s| == size && |t| == size
    requires LittleEndianDecode(size, s) == LittleEndianDecode(size, t)
    ensures s == t
  {
    if size > 0 {
      var rs, rt := LittleEndianDecode(size - 1, s[1..]), LittleEndianDecode(size - 1, t[1..]);
      DivModUnique(LittleEndianDecode(size, s), 256, rs, s[0]);
      DivModUnique(LittleEndianDecode(size, t), 256, rt, t[0]);
      LittleEndianInjective(size - 1, s[1..], t[1..]);
      assert s == [s[0]] + s[1..] && t == [t[0]] + t[1..];
    }
  }

  /** encode(decode(b)) == b for any input of exactly size bytes. */
  lemma EndianDecodeRoundTrip(e: Endianness, size: nat, b: Bytes)
    requires |b| == size
    ensures EndianEncode(e, size, EndianDecode(e, size, b)) == b
  {
    var v := EndianDecode(e, size, b);
    EndianRoundTrip(e, size, v);
    match e
    case BigEndian => BigEndianInjective(size, EndianEncode(e, size, v), b);
    case LittleEndian => LittleEndianInjective(size, EndianEncode(e, size, v), b);
  }

  // ---------------------------------------------------------------------------
  // Signed number representations over n bits (steel/fields/numbers.py:37-91).
  // The classes are built with n = size * 8 by Integer; n >= 1 throughout.

  /** SignMagnitude(n).encode */
  function SignMagnitudeEncode(n: nat, value: int): (r: Result<int>)
    requires n >= 1
    ensures r.Err? <==> value > Pow2(n) - 1
    ensures r.Err? ==> r.error == ValueError
    ensures 0 <= value <= Pow2(n) - 1 ==> r == Ok(value)
  {
    if value > Pow2(n) - 1 then Err(ValueError)
    else if value < 0 then Ok(OrPow2(-value, n - 1))
    else Ok(value)
  }

  /** SignMagnitude(n).decode */
  function SignMagnitudeDecode(n: nat, value: int): int
    requires n >= 1
  {
    if Shr(value, n - 1) != 0 then -XorPow2(value, n - 1) else value
  }

  /** A negative value of magnitude below 2^(n-1) is its magnitude with bit n-1
      set; decoding clears that bit and negates. */
  lemma SignMagnitudeNegative(n: nat, value: int)
    requires n >= 1 && -Pow2(n - 1) < value < 0
    ensures SignMagnitudeEncode(n, value) == Ok(Pow2(n - 1) - value)
    ensures SignMagnitudeDecode(n, Pow2(n - 1) - value) == value
  {
    var p := Pow2(n - 1);
    ModBelow(-value, p);
    assert Bit(-value, n - 1) == 0;
    assert Pow2(n) == 2 * p;
    BitTop(p - value, n - 1);
  }

  /** Values below 2^(n-1) decode to themselves, and values in [2^(n-1), 2^n)
      to the negated low n-1 bits. */
  lemma SignMagnitudeDecodeRange(n: nat, value: int)
    requires n >= 1 && 0 <= value < Pow2(n)
    ensures value < Pow2(n - 1) ==> SignMagnitudeDecode(n, value) == value
    ensures value >= Pow2(n - 1) ==> SignMagnitudeDecode(n, value) == -(value - Pow2(n - 1))
  {
    assert Pow2(n) == 2 * Pow2(n - 1);
    BitTop(value, n - 1);
  }

  /** OnesComplement(n).encode */
  function OnesComplementEncode(n: nat, value: int): (r: Result<int>)
    requires n >= 1
    ensures r.Err? <==> value > Pow2(n) - 1
    ensures r.Err? ==> r.error == ValueError
    ensures 0 <= value <= Pow2(n) - 1 ==> r == Ok(value)
    ensures r.Ok? ==> 0 <= r.value
  {
    if value > Pow2(n) - 1 then Err(ValueError)
    else if value < 0 then Ok(Mask(Invert(-value), n))
    else Ok(value)
  }

  /** OnesComplement(n).decode */
  function OnesComplementDecode(n: nat, value: int): int
    requires n >= 1
  {
    if Shr(value, n - 1) != 0 then -Mask(Invert(value), n) else value
  }

  /** A negative value v above -2^n encodes as (2^n - 1) + v. */
  lemma OnesComplementNegative(n: nat, value: int)
    requires n >= 1 && -Pow2(n) < value < 0
    ensures OnesComplementEncode(n, value) == Ok(Pow2(n) - 1 + value)
  {
    DivModUnique(Invert(-value), Pow2(n), -1, Pow2(n) - 1 + value);
  }

  /** Values below 2^(n-1) decode to themselves, and values in [2^(n-1), 2^n)
      to value - (2^n - 1). */
  lemma OnesComplementDecodeRange(n: nat, value: int)
    requires n >= 1 && 0 <= value < Pow2(n)
    ensures value < Pow2(n - 1) ==> OnesComplementDecode(n, value) == value
    ensures value >= Pow2(n - 1) ==> OnesComplementDecode(n, value) == value - (Pow2(n) - 1)
  {
    assert Pow2(n) == 2 * Pow2(n - 1);
    BitTop(value, n - 1);
    DivModUnique(Invert(value), Pow2(n), -1, Pow2(n) - 1 - value);
  }

  /** TwosComplement(n).encode */
  function TwosComplementEncode(n: nat, value: int): (r: Result<int>)
    requires n >= 1
    ensures r.Err? <==> value > Pow2(n - 1) - 1
    ensures r.Err? ==> r.error == ValueError
    ensures 0 <= value <= Pow2(n - 1) - 1 ==> r == Ok(value)
    ensures r.Ok? ==> 0 <= r.value
  {
    if value > Pow2(n - 1) - 1 then Err(ValueError)
    else if value < 0 then Ok(Mask(Invert(-value), n) + 1)
    else Ok(value)
  }

  /** TwosComplement(n).decode */
  function TwosComplementDecode(n: nat, value: int): int
    requires n >= 1
  {
    if value > Pow2(n - 1) - 1 then -Mask(Invert(value), n) - 1 else value
  }

  /** A negative value v above -2^n encodes as 2^n + v. */
  lemma TwosComplementNegative(n: nat, value: int)
    requires n >= 1 && -Pow2(n) < value < 0
    ensures TwosComplementEncode(n, value) == Ok(Pow2(n) + value)
  {
    DivModUnique(Invert(-value), Pow2(n), -1, Pow2(n) - 1 + value);
  }

  /** Values up to 2^(n-1)-1 decode to themselves, and values in [2^(n-1), 2^n)
      to value - 2^n. */
  lemma TwosComplementDecodeRange(n: nat, value: int)
    requires n >= 1 && value < Pow2(n)
    ensures value < Pow2(n - 1) ==> TwosComplementDecode(n, value) == value
    ensures value >= Pow2(n - 1) ==> TwosComplementDecode(n, value) == value - Pow2(n)
  {
    if value >= Pow2(n - 1) {
      DivModUnique(Invert(value), Pow2(n), -1, Pow2(n) - 1 - value);
    }
  }

  function SigningEncode(s: Signing, n: nat, value: int): (r: Result<int>)
    requires n >= 1
    ensures r.Ok? ==> 0 <= r.value
    ensures r.Err? ==> r.error == ValueError
  {
    match s
    case SignMagnitude => SignMagnitudeEncode(n, value)
    case OnesComplement => OnesComplementEncode(n, value)
    case TwosComplement => TwosComplementEncode(n, value)
  }

  function SigningDecode(s: Signing, n: nat, value: int): int
    requires n >= 1
  {
    match s
    case SignMagnitude => SignMagnitudeDecode(n, value)
    case OnesComplement => OnesComplementDecode(n, value)
    case TwosComplement => TwosComplementDecode(n, value)
  }

  /** The range on which each representation round-trips. */
  predicate InSignedRange(s: Signing, n: nat, value: int)
    requires n >= 1
  {
    match s
    case TwosComplement => -Pow2(n - 1) <= value < Pow2(n - 1)
    case _ => -Pow2(n - 1) < value < Pow2(n - 1)
  }

  lemma SignMagnitudeRoundTrip(n: nat, value: int)
    requires n >= 1 && -Pow2(n - 1) < value < Pow2(n - 1)
    ensures SignMagnitudeEncode(n, value).Ok?
    ensures 0 <= SignMagnitudeEncode(n, value).value < Pow2(n)
    ensures SignMagnitudeDecode(n, SignMagnitudeEncode(n, value).value) == value
  {
    assert Pow2(n) == 2 * Pow2(n - 1);
    if value < 0 {
      SignMagnitudeNegative(n, value);
    } else {
      SignMagnitudeDecodeRange(n, value);
    }
  }

  lemma OnesComplementRoundTrip(n: nat, value: int)
    requires n >= 1 && -Pow2(n - 1) < value < Pow2(n - 1)
    ensures OnesComplementEncode(n, value).Ok?
    ensures 0 <= OnesComplementEncode(n, value).value < Pow2(n)
    ensures OnesComplementDecode(n, OnesComplementEncode(n, value).value) == value
  {
    assert Pow2(n) == 2 * Pow2(n - 1);
    if value < 0 {
      OnesComplementNegative(n, value);
      OnesComplementDecodeRange(n, Pow2(n) - 1 + value);
    } else {
      OnesComplementDecodeRange(n, value);
    }
  }

  lemma TwosComplementRoundTrip(n: nat, value: int)
    requires n >= 1 && -Pow2(n - 1) <= value < Pow2(n - 1)
    ensures TwosComplementEncode(n, value).Ok?
    ensures 0 <= TwosComplementEncode(n, value).value < Pow2(n)
    ensures TwosComplementDecode(n, TwosComplementEncode(n, value).value) == value
  {
    assert Pow2(n) == 2 * Pow2(n - 1);
    if value < 0 {
      TwosComplementNegative(n, value);
      TwosComplementDecodeRange(n, Pow2(n) + value);
    }
  }

  /** Every representation maps its range into [0, 2^n) and back. */
  lemma SigningRoundTrip(s: Signing, n: nat, value: int)
    requires n >= 1 && InSignedRange(s, n, value)
    ensures SigningEncode(s, n, value).Ok?
    ensures 0 <= SigningEncode(s, n, value).value < Pow2(n)
    ensures SigningDecode(s, n, SigningEncode(s, n, value).value) == value
  {
    match s
    case SignMagnitude => SignMagnitudeRoundTrip(n, value);
    case OnesComplement => OnesComplementRoundTrip(n, value);
    case TwosComplement => TwosComplementRoundTrip(n, value);
  }

  /** Two's complement does not reject values below -2^(n-1): they wrap modulo 2^n. */
  lemma TwosComplementWraps(n: nat)
    requires n >= 2
    ensures TwosComplementEncode(n, -Pow2(n - 1) - 1) == Ok(Pow2(n - 1) - 1)
    ensures TwosComplementDecode(n, Pow2(n - 1) - 1) == Pow2(n - 1) - 1
  {
    var p := Pow2(n - 1);
    assert Pow2(n) == 2 * p;
    DivModUnique(Invert(p + 1), Pow2(n), -1, p - 2);
  }

  // ---------------------------------------------------------------------------
  // Integer and FixedInteger (steel/fields/numbers.py:96-124, 201-218)

  /** An Integer field.  Its signing works over size * 8 bits and its byte order
      over size bytes (steel/fields/numbers.py:103-109). */
  datatype IntegerField = IntegerField(size: nat, signed: bool, endianness: Endianness, signing: Signing)
  {
    /** The fields the model covers: a signed field needs a positive bit
        width for its signing.  A signed Integer of size 0 is outside the
        model; in the source its TwosComplement over 0 bits raises ValueError
        on encode and decodes b'' to -1, and its SignMagnitude or
        OnesComplement encodes 0 to b'' but raises ValueError on decode. */
    predicate Valid() {
      signed ==> size >= 1
    }
  }

  function IntegerEncode(f: IntegerField, value: int): (r: Result<Bytes>)
    requires f.Valid()
    ensures r.Ok? ==> |r.value| == f.size
    ensures r.Err? ==> r.error == ValueError
    ensures !f.signed ==> (r.Err? <==> value < 0 || value > Pow2(8 * f.size) - 1)
    ensures !f.signed && r.Ok? ==> r.value == EndianEncode(f.endianness, f.size, value)
  {
    var v :- if f.signed then SigningEncode(f.signing, 8 * f.size, value)
             else if value < 0 then Err(ValueError)
             else Ok(value);
    if v > Pow2(8 * f.size) - 1 then Err(ValueError)
    else Ok(EndianEncode(f.endianness, f.size, v))
  }

  function IntegerDecode(f: IntegerField, value: Bytes): (r: int)
    requires f.Valid()
    ensures !f.signed ==> 0 <= r < Pow2(8 * f.size)
  {
    var v := EndianDecode(f.endianness, f.size, value);
    Pow256IsPow2(f.size);
    if f.signed then SigningDecode(f.signing, 8 * f.size, v) else v
  }

  /** An unsigned field round-trips every value it accepts. */
  lemma UnsignedIntegerRoundTrip(f: IntegerField, value: int)
    requires f.Valid() && !f.signed && 0 <= value < Pow2(8 * f.size)
    ensures IntegerEncode(f, value).Ok?
    ensures IntegerDecode(f, IntegerEncode(f, value).value) == value
  {
    Pow256IsPow2(f.size);
    EndianRoundTrip(f.endianness, f.size, value);
  }

  /** An unsigned field's decode tells apart any two inputs of its size. */
  lemma UnsignedDecodeInjective(f: IntegerField, s: Bytes, t: Bytes)
    requires f.Valid() && !f.signed && |s| == f.size && |t| == f.size
    requires IntegerDecode(f, s) == IntegerDecode(f, t)
    ensures s == t
  {
    match f.endianness
    case BigEndian => BigEndianInjective(f.size, s, t);
    case LittleEndian => LittleEndianInjective(f.size, s, t);
  }

  /** A signed field round-trips every value in its representation's range. */
  lemma SignedIntegerRoundTrip(f: IntegerField, value: int)
    requires f.Valid() && f.signed && InSignedRange(f.signing, 8 * f.size, value)
    ensures IntegerEncode(f, value).Ok?
    ensures IntegerDecode(f, IntegerEncode(f, value).value) == value
  {
    var n := 8 * f.size;
    SigningRoundTrip(f.signing, n, value);
    var v := SigningEncode(f.signing, n, value).value;
    Pow256IsPow2(f.size);
    EndianRoundTrip(f.endianness, f.size, v);
  }

  /** A signed two's-complement field rejects exactly the values above
      2^(8*size-1)-1 and the negative multiples of 2^(8*size), whose wrapped
      encoding overflows the field. */
  lemma SignedTwosComplementRejects(f: IntegerField, value: int)
    requires f.Valid() && f.signed && f.signing == TwosComplement
    ensures IntegerEncode(f, value).Err?
        <==> value > Pow2(8 * f.size - 1) - 1 || (value < 0 && value % Pow2(8 * f.size) == 0)
  {
    var n := 8 * f.size;
    var p := Pow2(n);
    if value < 0 {
      var k := (value - 1) / p;
      var m := (value - 1) % p;
      assert value - 1 == p * k + m;
      assert m + 1 <= p;
      if m == p - 1 {
        DivModUnique(value, p, k + 1, 0);
      } else {
        DivModUnique(value, p, k, m + 1);
      }
    }
  }

  /** Bits needed for |value|: int.bit_length(). */
  function BitLength(value: int): (r: nat)
    ensures value == 0 <==> r == 0
    decreases if value < 0 then -value else value, if value < 0 then 1 else 0
  {
    if value == 0 then 0
    else if value < 0 then BitLength(-value)
    else 1 + BitLength(value / 2)
  }

  lemma {:induction false} BitLengthBound(value: nat)
    ensures value < Pow2(BitLength(value))
  {
    if value > 0 {
      BitLengthBound(value / 2);
    }
  }

  /** The byte count FixedInteger picks when none is given:
      int((bit_length + 7) / 8) or 1. */
  function ImplicitSize(value: int): (r: nat)
    ensures r >= 1
    ensures BitLength(value) <= 8 * r
    ensures r == 1 || 8 * (r - 1) < BitLength(value)
  {
    var s := (BitLength(value) + 7) / 8;
    if s == 0 then 1 else s
  }

  datatype FixedInteger = FixedInteger(field: IntegerField, decoded: int, encoded: Bytes)

  /** FixedInteger(value, size=...): signed exactly when value < 0; the
      constructor raises whatever encoding value raises. */
  function MakeFixedInteger(value: int, size: Option<nat>, endianness: Endianness, signing: Signing)
    : (r: Result<FixedInteger>)
    requires size.Some? && value < 0 ==> size.value >= 1
    ensures r.Ok? ==> r.value.decoded == value
    ensures r.Ok? ==> r.value.field.signed == (value < 0) && r.value.field.Valid()
    ensures r.Ok? ==> r.value.field.size == (if size.Some? then size.value else ImplicitSize(value))
    ensures r.Ok? ==> |r.value.encoded| == r.value.field.size
  {
    var sz := if size.Some? then size.value else ImplicitSize(value);
    var f := IntegerField(sz, value < 0, endianness, signing);
    var enc :- IntegerEncode(f, value);
    Ok(FixedInteger(f, value, enc))
  }

  /** A non-negative value always fits the implicit size. */
  lemma FixedIntegerImplicitFits(value: nat, endianness: Endianness, signing: Signing)
    ensures MakeFixedInteger(value, None, endianness, signing).Ok?
    ensures MakeFixedInteger(value, None, endianness, signing).value.encoded
         == EndianEncode(endianness, ImplicitSize(value), value)
  {
    BitLengthBound(value);
    Pow2Monotone(BitLength(value), 8 * ImplicitSize(value));
  }

  function FixedIntegerEncode(fx: FixedInteger, value: int): (r: Result<Bytes>)
    ensures r.Ok? <==> value == fx.decoded
    ensures r.Ok? ==> r.value == fx.encoded
    ensures r.Err? ==> r.error == ValueError
  {
    if value != fx.decoded then Err(ValueError) else Ok(fx.encoded)
  }

  function FixedIntegerDecode(fx: FixedInteger, value: Bytes): (r: Result<int>)
    ensures r.Ok? <==> value == fx.encoded
    ensures r.Ok? ==> r.value == fx.decoded
    ensures r.Err? ==> r.error == ValueError
  {
    if value != fx.encoded then Err(ValueError) else Ok(fx.decoded)
  }

  // ---------------------------------------------------------------------------
  // Concrete vectors

  lemma EndiannessVectors()
    ensures BigEndianEncode(2, 42) == [0x00, 0x2a] && BigEndianDecode(2, [0x00, 0x2a]) == 42
    ensures LittleEndianEncode(2, 42) == [0x2a, 0x00] && LittleEndianDecode(2, [0x2a, 0x00]) == 42
  {
    assert Pow256(1) == 256;
    BigEndianRoundTrip(2, 42);
    LittleEndianRoundTrip(2, 42);
  }

  lemma SigningVectors()
    ensures SignMagnitudeEncode(8, -42) == Ok(0xaa) && SignMagnitudeDecode(8, 0xaa) == -42
    ensures OnesComplementEncode(8, -42) == Ok(0xd5) && OnesComplementDecode(8, 0xd5) == -42
    ensures TwosComplementEncode(8, -42) == Ok(0xd6) && TwosComplementDecode(8, 0xd6) == -42
    ensures SignMagnitudeEncode(8, 42) == Ok(42) && SignMagnitudeDecode(8, 42) == 42
    ensures OnesComplementEncode(8, 42) == Ok(42) && OnesComplementDecode(8, 42) == 42
    ensures TwosComplementEncode(8, 42) == Ok(42) && TwosComplementDecode(8, 42) == 42
  {
    assert Pow2(7) == 128 && Pow2(8) == 256;
  }

  lemma IntegerVectors()
    ensures IntegerEncode(IntegerField(1, true, BigEndian, TwosComplement), 127) == Ok([0x7f])
    ensures IntegerEncode(IntegerField(1, true, BigEndian, TwosComplement), -127) == Ok([0x81])
    ensures IntegerEncode(IntegerField(1, true, BigEndian, TwosComplement), 128) == Err(ValueError)
    ensures IntegerEncode(IntegerField(1, false, BigEndian, TwosComplement), 128) == Ok([0x80])
    ensures IntegerEncode(IntegerField(1, false, BigEndian, TwosComplement), -127) == Err(ValueError)
    ensures IntegerEncode(IntegerField(1, false, BigEndian, TwosComplement), 256) == Err(ValueError)
  {
    assert Pow2(7) == 128 && Pow2(8) == 256;
    assert Pow256(0) == 1;
    TwosComplementNegative(8, -127);
    assert BigEndianEncode(1, 127) == [0x7f] by { assert BigEndianEncode(1, 127)[0] == 127; }
    assert BigEndianEncode(1, 129) == [0x81] by { assert BigEndianEncode(1, 129)[0] == 129; }
    assert BigEndianEncode(1, 128) == [0x80] by { assert BigEndianEncode(1, 128)[0] == 128; }
  }

  lemma FixedIntegerVectors()
    ensures MakeFixedInteger(42, Some(1), BigEndian, TwosComplement).Ok?
    ensures var fx := MakeFixedInteger(42, Some(1), BigEndian, TwosComplement).value;
      FixedIntegerEncode(fx, 42) == Ok([0x2a]) && FixedIntegerEncode(fx, 43) == Err(ValueError)
      && FixedIntegerDecode(fx, [0x2a]) == Ok(42) && FixedIntegerDecode(fx, [0x2b]) == Err(ValueError)
  {
    assert Pow2(8) == 256;
    assert Pow256(0) == 1;
    assert BigEndianEncode(1, 42) == [0x2a];
  }
}
