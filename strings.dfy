/** Text and byte-string codecs of steel/fields/strings.py.

    A text encoding is an abstract Codec: a partial encoder from text to bytes
    and a partial decoder back, whose failures are ValueErrors (UnicodeError is
    a ValueError) and which is injective: decoding what was encoded gives the
    text back.  Ascii is one concrete codec. */
module Strings {
  import opened Results
  import opened Streams
  import opened Values
  import Numbers
  import PyInt

  datatype Codec = Codec(encode: string -> Result<Bytes>, decode: Bytes -> Result<string>)

  ghost predicate ValidCodec(c: Codec) {
    && (forall s :: c.encode(s).Ok? ==> c.decode(c.encode(s).value) == Ok(s))
    && (forall s :: c.encode(s).Err? ==> c.encode(s).error == ValueError)
    && (forall b :: c.decode(b).Err? ==> c.decode(b).error == ValueError)
  }

  predicate IsAscii(s: string) {
    forall i :: 0 <= i < |s| ==> s[i] as int < 128
  }

  function AsciiEncode(s: string): (r: Result<Bytes>)
    ensures r.Ok? <==> IsAscii(s)
    ensures r.Ok? ==> |r.value| == |s|
  {
    if IsAscii(s) then Ok(seq(|s|, i requires 0 <= i < |s| => s[i] as int)) else Err(ValueError)
  }

  function AsciiDecode(b: Bytes): (r: Result<string>)
    ensures r.Ok? <==> forall i :: 0 <= i < |b| ==> b[i] < 128
  {
    if forall i :: 0 <= i < |b| ==> b[i] < 128 then Ok(seq(|b|, i requires 0 <= i < |b| => b[i] as char))
    else Err(ValueError)
  }

  const Ascii := Codec(AsciiEncode, AsciiDecode)

  lemma AsciiIsValid()
    ensures ValidCodec(Ascii)
  {
    forall s | Ascii.encode(s).Ok?
      ensures Ascii.decode(Ascii.encode(s).value) == Ok(s)
    {
      var e := AsciiEncode(s).value;
      assert AsciiDecode(e).Ok?;
      assert AsciiDecode(e).value == s;
    }
  }

  // ---------------------------------------------------------------------------
  // bytes helpers with Python's semantics

  /** bytes.rstrip(chars): drop trailing bytes that occur in chars. */
  function RStrip(b: Bytes, chars: Bytes): (r: Bytes)
    ensures |r| <= |b| && r == b[..|r|]
    ensures |r| == 0 || r[|r| - 1] !in chars
    ensures forall i :: |r| <= i < |b| ==> b[i] in chars
    decreases |b|
  {
    if |b| > 0 && b[|b| - 1] in chars then RStrip(b[..|b| - 1], chars) else b
  }

  /** rstrip is determined by its three properties: any prefix of b that ends
      outside chars and is followed only by bytes of chars is the result. */
  lemma RStripUnique(b: Bytes, chars: Bytes, k: nat)
    requires k <= |b|
    requires k == 0 || b[k - 1] !in chars
    requires forall i :: k <= i < |b| ==> b[i] in chars
    ensures RStrip(b, chars) == b[..k]
  {
  }

  /** bytes.ljust(width, fill): Python requires a fill of exactly one byte and
      never truncates. */
  function LJust(b: Bytes, width: int, fill: Bytes): (r: Result<Bytes>)
    ensures r.Err? <==> |fill| != 1
    ensures r.Err? ==> r.error == TypeError
    ensures r.Ok? ==> |r.value| == (if width > |b| then width else |b|)
    ensures r.Ok? ==> r.value[..|b|] == b
    ensures r.Ok? ==> forall i :: |b| <= i < |r.value| ==> r.value[i] == fill[0]
  {
    if |fill| != 1 then Err(TypeError)
    else if |b| >= width then Ok(b)
    else Ok(b + seq(width - |b|, _ => fill[0]))
  }

  // ---------------------------------------------------------------------------
  // String (steel/fields/strings.py:7-46)

  /** The arguments of a String field as read for one operation.  size is
      RNone when the string is terminated, RInt for a padded one. */
  datatype StringField = StringField(size: Resolved, codec: Codec, padding: Bytes, terminator: Bytes)

  /** The unsized read: one byte at a time until the byte read equals the
      terminator or the source yields nothing (steel/fields/strings.py:19-27). */
  function ReadTerminated(src: Source, terminator: Bytes, acc: Bytes): (r: Result<(Bytes, Source)>)
    ensures r.Ok? ==> r.value.1.data == src.data && r.value.1.mode == src.mode
    decreases |src.Rest()|
  {
    var step := Read(src, 1);
    if step.Err? then Err(step.error)
    else
      var data := step.value.0;
      var s1 := step.value.1;
      if |data| > 0 then
        if data == terminator then Ok((acc + data, s1))
        else ReadTerminated(s1, terminator, acc + data)
      else Ok((acc, s1))
  }

  /** What the unsized read returns is the accumulator followed by exactly the
      bytes it consumed. */
  lemma {:induction false} ReadTerminatedConsumes(src: Source, terminator: Bytes, acc: Bytes)
    requires ReadTerminated(src, terminator, acc).Ok?
    ensures var (got, after) := ReadTerminated(src, terminator, acc).value;
      |acc| <= |got| && got[..|acc|] == acc && got[|acc|..] + after.Rest() == src.Rest()
    decreases |src.Rest()|
  {
    var data := Read(src, 1).value.0;
    var s1 := Read(src, 1).value.1;
    if |data| > 0 && data != terminator {
      assert ReadTerminated(src, terminator, acc) == ReadTerminated(s1, terminator, acc + data);
      ReadTerminatedConsumes(s1, terminator, acc + data);
      var got := ReadTerminated(s1, terminator, acc + data).value.0;
      assert got[..|acc|] == (got[..|acc + data|])[..|acc|];
      assert got[|acc|..] == data + got[|acc + data|..];
    }
  }

  /** The same loop, written as the source writes it. */
  method ReadTerminatedLoop(src: Source, terminator: Bytes) returns (r: Result<(Bytes, Source)>)
    ensures r == ReadTerminated(src, terminator, [])
  {
    var value: Bytes := [];
    var file := src;
    while true
      invariant ReadTerminated(file, terminator, value) == ReadTerminated(src, terminator, [])
      decreases |file.Rest()|
    {
      var step := Read(file, 1);
      if step.Err? {
        return Err(step.error);
      }
      var data := step.value.0;
      var next := step.value.1;
      if |data| > 0 {
        value := value + data;
        file := next;
        if data == terminator {
          return Ok((value, file));
        }
      } else {
        return Ok((value, next));
      }
    }
  }

  /** The index of the first occurrence of t in s, or |s| when there is none. */
  function FirstIndex(s: Bytes, t: Byte): (r: nat)
    ensures r <= |s|
  {
    if |s| == 0 then 0 else if s[0] == t then 0 else 1 + FirstIndex(s[1..], t)
  }

  /** FirstIndex finds the first occurrence: none before it, t at it. */
  lemma {:induction false} FirstIndexFirst(s: Bytes, t: Byte)
    ensures forall i :: 0 <= i < FirstIndex(s, t) ==> s[i] != t
    ensures FirstIndex(s, t) < |s| ==> s[FirstIndex(s, t)] == t
  {
    if |s| > 0 && s[0] != t {
      FirstIndexFirst(s[1..], t);
      assert forall i :: 1 <= i < FirstIndex(s, t) ==> s[i] == s[1..][i - 1];
    }
  }

  /** How many bytes the unsized read takes from s: up to and including the
      first terminator, or all of them. */
  function TerminatedLength(s: Bytes, t: Byte): nat {
    if FirstIndex(s, t) < |s| then FirstIndex(s, t) + 1 else |s|
  }

  /** On a lenient source with a one-byte terminator, the unsized read returns
      the bytes up to and including the first terminator, or everything left,
      and leaves the cursor right after them. */
  lemma {:induction false} ReadTerminatedSpan(src: Source, t: Byte, acc: Bytes)
    requires src.mode == Lenient
    ensures ReadTerminated(src, [t], acc).Ok?
    ensures ReadTerminated(src, [t], acc).value.0 == acc + src.Rest()[..TerminatedLength(src.Rest(), t)]
    ensures ReadTerminated(src, [t], acc).value.1.Rest() == src.Rest()[TerminatedLength(src.Rest(), t)..]
    decreases |src.Rest()|
  {
    var rest := src.Rest();
    if |rest| > 0 && rest[0] != t {
      var s1 := ReadTerminatedMiss(src, t, acc);
      ReadTerminatedSpan(s1, t, acc + [rest[0]]);
      TerminatedLengthStep(rest, t, acc);
    } else {
      ReadTerminatedStop(src, t, acc);
    }
  }

  /** The unsized read stops at once on a terminator or at the end. */
  lemma ReadTerminatedStop(src: Source, t: Byte, acc: Bytes)
    requires src.mode == Lenient && (|src.Rest()| == 0 || src.Rest()[0] == t)
    ensures ReadTerminated(src, [t], acc).Ok?
    ensures ReadTerminated(src, [t], acc).value.0 == acc + src.Rest()[..TerminatedLength(src.Rest(), t)]
    ensures ReadTerminated(src, [t], acc).value.1.Rest() == src.Rest()[TerminatedLength(src.Rest(), t)..]
  {
    var rest := src.Rest();
    if |rest| > 0 {
      assert Read(src, 1).value.0 == [rest[0]];
      assert TerminatedLength(rest, t) == 1;
      assert rest[..1] == [rest[0]];
    } else {
      assert TerminatedLength(rest, t) == 0;
      assert acc + rest[..0] == acc;
    }
  }

  lemma TerminatedLengthStep(rest: Bytes, t: Byte, acc: Bytes)
    requires |rest| > 0 && rest[0] != t
    ensures (acc + [rest[0]]) + rest[1..][..TerminatedLength(rest[1..], t)] == acc + rest[..TerminatedLength(rest, t)]
    ensures rest[1..][TerminatedLength(rest[1..], t)..] == rest[TerminatedLength(rest, t)..]
  {
    var k := TerminatedLength(rest[1..], t);
    assert TerminatedLength(rest, t) == k + 1 by {
      assert FirstIndex(rest, t) == 1 + FirstIndex(rest[1..], t);
    }
    assert [rest[0]] + rest[1..][..k] == rest[..k + 1];
  }

  /** One step of the unsized read past a byte that is not the terminator. */
  lemma ReadTerminatedMiss(src: Source, t: Byte, acc: Bytes) returns (s1: Source)
    requires src.mode == Lenient && |src.Rest()| > 0 && src.Rest()[0] != t
    ensures s1.mode == Lenient && s1.Rest() == src.Rest()[1..]
    ensures ReadTerminated(src, [t], acc) == ReadTerminated(s1, [t], acc + [src.Rest()[0]])
  {
    s1 := Read(src, 1).value.1;
    assert Read(src, 1).value.0 == [src.Rest()[0]];
  }

  function StringRead(f: StringField, src: Source): (r: Result<(Bytes, Source)>)
    ensures f.size.RInt? ==> r == Read(src, f.size.n)
    ensures f.size.RObject? ==> r == Err(TypeError)
  {
    match f.size
    case RInt(n) => Read(src, n)
    case RNone => ReadTerminated(src, f.terminator, [])
    case RObject => Err(TypeError)
  }

  function StringEncode(f: StringField, value: string): (r: Result<Bytes>)
    ensures f.codec.encode(value).Err? ==> r == Err(f.codec.encode(value).error)
    ensures f.codec.encode(value).Ok? && f.size.RNone? ==> r == Ok(f.codec.encode(value).value + f.terminator)
    ensures f.codec.encode(value).Ok? && f.size.RInt? ==> r == LJust(f.codec.encode(value).value, f.size.n, f.padding)
    ensures f.size.RObject? ==> r.Err?
  {
    var b :- f.codec.encode(value);
    match f.size
    case RNone => Ok(b + f.terminator)
    case RInt(n) => LJust(b, n, f.padding)
    case RObject => Err(TypeError)
  }

  function StringDecode(f: StringField, value: Bytes): Result<string> {
    f.codec.decode(RStrip(RStrip(value, f.terminator), f.padding))
  }

  /** Stripping a tail made only of stripped bytes gives back the part before
      it, when that part ends in a byte that is kept. */
  lemma StripTail(e: Bytes, tail: Bytes, chars: Bytes)
    requires |e| == 0 || e[|e| - 1] !in chars
    requires forall i :: 0 <= i < |tail| ==> tail[i] in chars
    ensures RStrip(e + tail, chars) == e
  {
    RStripUnique(e + tail, chars, |e|);
    assert (e + tail)[..|e|] == e;
  }

  /** Text whose encoding does not end in a terminator or padding byte survives
      encode then decode, padded or terminated. */
  lemma StringRoundTrip(f: StringField, s: string)
    requires ValidCodec(f.codec)
    requires StringEncode(f, s).Ok?
    requires var e := f.codec.encode(s).value; |e| == 0 || e[|e| - 1] !in f.terminator + f.padding
    ensures StringDecode(f, StringEncode(f, s).value) == Ok(s)
  {
    var e := f.codec.encode(s).value;
    assert f.codec.decode(e) == Ok(s);
    var out := StringEncode(f, s).value;
    assert |e| > 0 ==> e[|e| - 1] !in f.terminator && e[|e| - 1] !in f.padding;
    if f.size.RNone? {
      StripTail(e, f.terminator, f.terminator);
      StripTail(e, [], f.padding);
      assert e + [] == e;
    } else {
      var s1 := RStrip(out, f.terminator);
      assert out[..|e|] == e;
      assert |s1| >= |e| by {
        if |e| > 0 {
          assert out[|e| - 1] !in f.terminator;
        }
      }
      var tail := s1[|e|..];
      assert s1 == e + tail by {
        assert s1 == out[..|s1|];
      }
      assert forall i :: 0 <= i < |tail| ==> tail[i] == out[|e| + i] == f.padding[0];
      StripTail(e, tail, f.padding);
    }
  }

  /** String.validate: the text must encode and, when sized, fit in size bytes. */
  function StringValidate(f: StringField, value: string): (r: Result<()>)
    ensures f.codec.encode(value).Err? ==> r.Err?
    ensures f.codec.encode(value).Ok? && f.size.RInt? ==>
      (r.Err? <==> |f.codec.encode(value).value| > f.size.n)
    ensures f.codec.encode(value).Ok? && f.size.RNone? ==> r.Ok?
  {
    var b :- f.codec.encode(value);
    match f.size
    case RNone => Ok(())
    case RInt(n) => if |b| > n then Err(ValueError) else Ok(())
    case RObject => Err(TypeError)
  }

  /** The default String: NUL padding and terminator. */
  function DefaultString(codec: Codec): StringField {
    StringField(RNone, codec, [0], [0])
  }

  lemma StringVectors()
    ensures StringEncode(DefaultString(Ascii), "test") == Ok([0x74, 0x65, 0x73, 0x74, 0x00])
    ensures StringDecode(DefaultString(Ascii), [0x74, 0x65, 0x73, 0x74, 0x00]) == Ok("test")
  {
    var e: Bytes := [0x74, 0x65, 0x73, 0x74];
    assert IsAscii("test");
    var v := AsciiEncode("test").value;
    assert v[0] == 0x74 && v[1] == 0x65 && v[2] == 0x73 && v[3] == 0x74;
    assert v == e;
    assert e + [0] == [0x74, 0x65, 0x73, 0x74, 0x00];
    StripTail(e, [0], [0]);
    StripTail(e, [], [0]);
    assert e + [] == e;
    assert AsciiDecode(e).value == "test";
  }

  /** A character the codec cannot represent is a ValueError. */
  lemma StringRejectsNonAscii()
    ensures StringEncode(DefaultString(Ascii), "\U{fc}ber") == Err(ValueError)
  {
    assert !IsAscii("\U{fc}ber") by {
      assert "\U{fc}ber"[0] as int == 0xfc;
    }
  }

  // ---------------------------------------------------------------------------
  // LengthIndexedString (steel/fields/strings.py:49-62): a big-endian length
  // prefix of `size` bytes, then the text.

  function LengthPrefixField(size: nat): Numbers.IntegerField {
    Numbers.IntegerField(size, false, Numbers.BigEndian, Numbers.TwosComplement)
  }

  /** read: the prefix through Integer(size).read_value, then that many bytes. */
  function LengthIndexedRead(size: Option<nat>, src: Source): (r: Result<(Bytes, Source)>)
    ensures size.None? ==> r == Err(TypeError)
  {
    if size.None? then Err(TypeError)
    else
      var (sizeBytes, s1) :- Read(src, size.value);
      var n := Numbers.IntegerDecode(LengthPrefixField(size.value), sizeBytes);
      var (valueBytes, s2) :- Read(s1, n);
      Ok((sizeBytes + valueBytes, s2))
  }

  /** decode: skip the prefix (value[None:] skips nothing; a prefix longer
      than the value leaves nothing) and decode the rest. */
  function LengthIndexedDecode(size: Option<nat>, codec: Codec, value: Bytes): (r: Result<string>)
    ensures size.None? ==> r == codec.decode(value)
    ensures size.Some? && size.value <= |value| ==> r == codec.decode(value[size.value..])
    ensures size.Some? && size.value > |value| ==> r == codec.decode([])
  {
    if size.None? then codec.decode(value)
    else if size.value <= |value| then codec.decode(value[size.value..])
    else codec.decode([])
  }

  function LengthIndexedEncode(size: Option<nat>, codec: Codec, value: string): (r: Result<Bytes>)
    ensures r.Ok? ==> size.Some? && codec.encode(value).Ok?
    ensures r.Ok? ==> r.value == Numbers.BigEndianEncode(size.value, |codec.encode(value).value|) + codec.encode(value).value
    ensures size.Some? && codec.encode(value).Ok? ==>
      (r.Err? <==> |codec.encode(value).value| > PyInt.Pow2(8 * size.value) - 1)
  {
    if size.None? then Err(TypeError)
    else
      var valueBytes :- codec.encode(value);
      var sizeBytes :- Numbers.IntegerEncode(LengthPrefixField(size.value), |valueBytes|);
      Ok(sizeBytes + valueBytes)
  }

  /** Encoding, reading back from a stream and decoding returns the text, and
      the read stops right after the encoded bytes. */
  lemma LengthIndexedRoundTrip(size: nat, codec: Codec, value: string, src: Source, more: Bytes)
    requires ValidCodec(codec)
    requires LengthIndexedEncode(Some(size), codec, value).Ok?
    requires src.mode != Unreadable
    requires src.Rest() == LengthIndexedEncode(Some(size), codec, value).value + more
    ensures LengthIndexedRead(Some(size), src).Ok?
    ensures LengthIndexedRead(Some(size), src).value.0 == LengthIndexedEncode(Some(size), codec, value).value
    ensures LengthIndexedRead(Some(size), src).value.1.Rest() == more
    ensures LengthIndexedDecode(Some(size), codec, LengthIndexedEncode(Some(size), codec, value).value) == Ok(value)
  {
    var vb := codec.encode(value).value;
    var sb := Numbers.BigEndianEncode(size, |vb|);
    var enc := sb + vb;
    assert src.Rest() == sb + (vb + more);
    var (got1, s1) := Read(src, size).value;
    assert got1 == sb && s1.Rest() == vb + more;
    PyInt.Pow256IsPow2(size);
    Numbers.UnsignedIntegerRoundTrip(LengthPrefixField(size), |vb|);
    assert Numbers.IntegerDecode(LengthPrefixField(size), sb) == |vb|;
    var (got2, s2) := Read(s1, |vb|).value;
    assert got2 == vb && s2.Rest() == more;
    assert enc[size..] == vb;
  }

  lemma LengthIndexedVectors()
    ensures LengthIndexedEncode(Some(1), Ascii, "valid") == Ok([5] + [0x76, 0x61, 0x6c, 0x69, 0x64])
    ensures LengthIndexedDecode(Some(1), Ascii, [5, 0x76, 0x61, 0x6c, 0x69, 0x64]) == Ok("valid")
  {
    assert AsciiEncode("valid").value == [0x76, 0x61, 0x6c, 0x69, 0x64];
    assert PyInt.Pow2(8) == 256;
    assert Numbers.BigEndianEncode(1, 5) == [5];
    AsciiIsValid();
    var e := [5, 0x76, 0x61, 0x6c, 0x69, 0x64];
    assert e[1..] == [0x76, 0x61, 0x6c, 0x69, 0x64];
  }

  // ---------------------------------------------------------------------------
  // FixedString (steel/fields/strings.py:65-103)

  /** The literal a FixedString was built from: raw bytes, or text. */
  datatype Literal = LitBytes(bytes: Bytes) | LitText(text: string)

  datatype FixedString = FixedString(encoded: Bytes, decoded: Literal) {
    /** The size of a fixed string is the length of its fixed encoding. */
    function Size(): nat {
      |encoded|
    }
  }

  /** FixedString(value, ...): raw bytes are taken as they are; text goes
      through String.encode with the field's own arguments (by default no size,
      no padding and an empty terminator). */
  function MakeFixedString(value: Literal, f: StringField): (r: Result<FixedString>)
    ensures value.LitBytes? ==> r == Ok(FixedString(value.bytes, value))
    ensures value.LitText? ==> (r.Ok? <==> StringEncode(f, value.text).Ok?)
    ensures r.Ok? ==> r.value.decoded == value
    ensures value.LitText? && r.Ok? ==> r.value.encoded == StringEncode(f, value.text).value
  {
    match value
    case LitBytes(b) => Ok(FixedString(b, value))
    case LitText(t) =>
      var e :- StringEncode(f, t);
      Ok(FixedString(e, value))
  }

  /** The arguments FixedString uses when none are given. */
  function FixedStringDefaults(codec: Codec): StringField {
    StringField(RNone, codec, [], [])
  }

  /** read: exactly size bytes, which must be the fixed encoding; the pair is
      returned as fully decoded.  A mismatch is found after the bytes were
      consumed. */
  function FixedStringRead(fs: FixedString, src: Source): (r: ReadOut<Bytes>)
    ensures r.result.Ok? ==> r.result.value == fs.encoded
    ensures Read(src, fs.Size()).Err? ==> r == ReadOut(Err(Read(src, fs.Size()).error), src)
    ensures Read(src, fs.Size()).Ok? ==>
      r.after == Read(src, fs.Size()).value.1 && (r.result.Ok? <==> Read(src, fs.Size()).value.0 == fs.encoded)
    ensures r.result.Err? && Read(src, fs.Size()).Ok? ==> r.result.error == ValueError
  {
    var step := Read(src, fs.Size());
    if step.Err? then ReadOut(Err(step.error), src)
    else if step.value.0 != fs.encoded then ReadOut(Err(ValueError), step.value.1)
    else ReadOut(Ok(fs.encoded), step.value.1)
  }

  /** On a readable source that starts with the fixed encoding the read
      succeeds and consumes exactly it. */
  lemma FixedStringReadMatches(fs: FixedString, src: Source, more: Bytes)
    requires src.mode != Unreadable
    requires src.Rest() == fs.encoded + more
    ensures FixedStringRead(fs, src).result == Ok(fs.encoded)
    ensures FixedStringRead(fs, src).after.Rest() == more
  {
    assert src.Rest()[..fs.Size()] == fs.encoded;
  }

  function FixedStringEncode(fs: FixedString, value: Literal): (r: Result<Bytes>)
    ensures r.Ok? <==> value == fs.decoded
    ensures r.Ok? ==> r.value == fs.encoded
    ensures r.Err? ==> r.error == ValueError
  {
    if value != fs.decoded then Err(ValueError) else Ok(fs.encoded)
  }

  function FixedStringDecode(fs: FixedString, value: Bytes): (r: Result<Literal>)
    ensures r.Ok? <==> value == fs.encoded
    ensures r.Ok? ==> r.value == fs.decoded
    ensures r.Err? ==> r.error == ValueError
  {
    if value != fs.encoded then Err(ValueError) else Ok(fs.decoded)
  }

  lemma FixedStringVectors()
    ensures MakeFixedString(LitText("valid"), FixedStringDefaults(Ascii)).Ok?
    ensures var fs := MakeFixedString(LitText("valid"), FixedStringDefaults(Ascii)).value;
      && fs.encoded == [0x76, 0x61, 0x6c, 0x69, 0x64] && fs.Size() == 5
      && FixedStringEncode(fs, LitText("valid")).Ok? && FixedStringEncode(fs, LitText("invalid")) == Err(ValueError)
      && FixedStringDecode(fs, [0x76, 0x61, 0x6c, 0x69, 0x64]) == Ok(LitText("valid"))
  {
    assert AsciiEncode("valid").value == [0x76, 0x61, 0x6c, 0x69, 0x64];
  }

  // ---------------------------------------------------------------------------
  // Bytes (steel/fields/strings.py:106-113)

  function BytesEncode(value: Bytes): (r: Bytes)
    ensures r == value
  {
    value
  }

  function BytesDecode(value: Bytes): (r: Bytes)
    ensures r == value
  {
    value
  }
}
