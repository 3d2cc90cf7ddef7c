/** The earlier string fields of biwako/bin/fields/strings.py.

    Here a String is the bare text codec: no padding, no terminator on encode,
    and a read that scans for a NUL byte and consumes it. */
module BinStrings {
  import opened Results
  import opened Streams
  import S = Strings
  import Seqs

  /** String(encoding=...): ''.encode(None) raises TypeError, so a codec is
      required.  An unknown codec name (LookupError) is not modelled: codecs are
      abstract here. */
  function MakeString(encoding: Option<S.Codec>): (r: Result<S.Codec>)
    ensures r.Err? <==> encoding.None?
    ensures r.Err? ==> r.error == TypeError
    ensures r.Ok? ==> r.value == encoding.value
  {
    if encoding.None? then Err(TypeError) else Ok(encoding.value)
  }

  /** The end of String.read: the bytes before the NUL, with the NUL consumed;
      or the loop that never ends because the lenient source keeps yielding
      nothing; or the error of the source. */
  datatype Scan = Found(value: Bytes, after: Source) | Hangs | Failed(error: Error)

  /** String.read as a function of the source; acc is what was read so far. */
  function ScanNul(src: Source, acc: Bytes): (r: Scan)
    decreases |src.Rest()|
  {
    var step := Read(src, 1);
    if step.Err? then Failed(step.error)
    else
      var data := step.value.0;
      var s1 := step.value.1;
      if |data| > 0 && data[0] == 0 then Found(acc, s1)
      else if |data| > 0 then ScanNul(s1, acc + data)
      else if src.mode == Lenient then Hangs
      else Failed(EOFError)
  }

  /** The read loop as the source writes it, stopped where it would spin
      forever (a lenient read(1) at the end returns b'' again and again). */
  method ReadString(src: Source) returns (r: Scan)
    ensures r == ScanNul(src, [])
  {
    var value: Bytes := [];
    var file := src;
    while true
      invariant ScanNul(file, value) == ScanNul(src, [])
      decreases |file.Rest()|
    {
      var step := Read(file, 1);
      if step.Err? {
        return Failed(step.error);
      }
      var data := step.value.0;
      if |data| > 0 && data[0] == 0 {
        return Found(value, step.value.1);
      }
      if |data| == 0 {
        if file.mode == Lenient {
          return Hangs;
        }
        return Failed(EOFError);
      }
      value := value + data;
      file := step.value.1;
    }
  }

  /** A readable source: the read returns the bytes before the first NUL of
      what is left and consumes that NUL; with no NUL left, a lenient source
      never stops and a strict one raises EOFError.  An unreadable one raises
      IOError. */
  lemma {:induction false} ScanNulSpec(src: Source, acc: Bytes)
    ensures src.mode == Unreadable ==> ScanNul(src, acc) == Failed(IOError)
    ensures src.mode != Unreadable && S.FirstIndex(src.Rest(), 0) < |src.Rest()| ==>
      ScanNul(src, acc).Found? &&
      ScanNul(src, acc).value == acc + src.Rest()[..S.FirstIndex(src.Rest(), 0)] &&
      ScanNul(src, acc).after.Rest() == src.Rest()[S.FirstIndex(src.Rest(), 0) + 1..]
    ensures src.mode == Lenient && S.FirstIndex(src.Rest(), 0) == |src.Rest()| ==> ScanNul(src, acc) == Hangs
    ensures src.mode == Strict && S.FirstIndex(src.Rest(), 0) == |src.Rest()| ==> ScanNul(src, acc) == Failed(EOFError)
    decreases |src.Rest()|
  {
    var rest := src.Rest();
    if src.mode != Unreadable && |rest| > 0 {
      var s1 := Read(src, 1).value.1;
      assert Read(src, 1).value.0 == [rest[0]] && s1.Rest() == rest[1..];
      if rest[0] != 0 {
        assert ScanNul(src, acc) == ScanNul(s1, acc + [rest[0]]);
        ScanNulSpec(s1, acc + [rest[0]]);
        ScanStep(rest, acc);
      } else {
        assert rest[..0] == [];
      }
    }
  }

  lemma ScanStep(rest: Bytes, acc: Bytes)
    requires |rest| > 0 && rest[0] != 0
    ensures S.FirstIndex(rest, 0) == S.FirstIndex(rest[1..], 0) + 1
    ensures (acc + [rest[0]]) + rest[1..][..S.FirstIndex(rest[1..], 0)] == acc + rest[..S.FirstIndex(rest, 0)]
    ensures S.FirstIndex(rest, 0) < |rest| ==> rest[1..][S.FirstIndex(rest[1..], 0) + 1..] == rest[S.FirstIndex(rest, 0) + 1..]
  {
    var tail := rest[1..];
    var k := S.FirstIndex(tail, 0);
    assert S.FirstIndex(rest, 0) == k + 1;
    ScanSplit(rest, tail, k);
    Seqs.Assoc(acc, [rest[0]], tail[..k]);
  }

  /** Cutting the first byte off, at offset k of the tail. */
  lemma ScanSplit(rest: Bytes, tail: Bytes, k: nat)
    requires |rest| > 0 && tail == rest[1..] && k <= |tail|
    ensures [rest[0]] + tail[..k] == rest[..k + 1]
    ensures k + 1 < |rest| ==> tail[k + 1..] == rest[k + 2..]
  {
    assert rest == [rest[0]] + tail;
  }

  /** String.encode and String.decode: the codec itself. */
  function StringEncode(codec: S.Codec, value: string): (r: Result<Bytes>)
    ensures r == codec.encode(value)
  {
    codec.encode(value)
  }

  function StringDecode(codec: S.Codec, value: Bytes): (r: Result<string>)
    ensures r == codec.decode(value)
  {
    codec.decode(value)
  }

  /** Encoded text without a NUL comes back from the stream it was written
      to, once a NUL follows it. */
  lemma StringStreamRoundTrip(codec: S.Codec, value: string, src: Source, more: Bytes)
    requires S.ValidCodec(codec)
    requires StringEncode(codec, value).Ok?
    requires 0 !in StringEncode(codec, value).value
    requires src.mode != Unreadable
    requires src.Rest() == StringEncode(codec, value).value + [0] + more
    ensures ScanNul(src, []).Found?
    ensures StringDecode(codec, ScanNul(src, []).value) == Ok(value)
    ensures ScanNul(src, []).after.Rest() == more
  {
    var e := codec.encode(value).value;
    var rest := src.Rest();
    assert rest == e + ([0] + more);
    PrefixWithoutNul(e, [0] + more);
    assert codec.decode(e) == Ok(value);
    ScanNulSpec(src, []);
    var r := ScanNul(src, []);
    assert rest[..|e|] == e;
    assert r.value == [] + e == e;
    assert rest[|e| + 1..] == more;
  }

  lemma {:induction false} PrefixWithoutNul(e: Bytes, tail: Bytes)
    requires 0 !in e
    requires |tail| > 0 && tail[0] == 0
    ensures S.FirstIndex(e + tail, 0) == |e|
  {
    if |e| > 0 {
      assert (e + tail)[1..] == e[1..] + tail;
      PrefixWithoutNul(e[1..], tail);
    } else {
      assert e + tail == tail;
    }
  }

  lemma StringVectors()
    ensures StringEncode(S.Ascii, "test") == Ok([0x74, 0x65, 0x73, 0x74])
    ensures StringDecode(S.Ascii, [0x74, 0x65, 0x73, 0x74]) == Ok("test")
    ensures StringEncode(S.Ascii, "\U{fc}ber") == Err(ValueError)
  {
    var v := S.AsciiEncode("test").value;
    assert v[0] == 0x74 && v[1] == 0x65 && v[2] == 0x73 && v[3] == 0x74;
    assert v == [0x74, 0x65, 0x73, 0x74];
    var d := S.AsciiDecode([0x74, 0x65, 0x73, 0x74]).value;
    assert d[0] == 't' && d[1] == 'e' && d[2] == 's' && d[3] == 't';
    assert d == "test";
    assert !S.IsAscii("\U{fc}ber") by {
      assert "\U{fc}ber"[0] as int == 0xfc;
    }
  }

  /** FixedString(value, encoding='ascii'): the String constructor runs first,
      so a missing encoding is a TypeError even for raw bytes. */
  function MakeFixedString(value: S.Literal, encoding: Option<S.Codec>): (r: Result<S.FixedString>)
    ensures encoding.None? ==> r == Err(TypeError)
    ensures encoding.Some? && value.LitBytes? ==> r == Ok(S.FixedString(value.bytes, value))
    ensures encoding.Some? && value.LitText? ==>
      (r.Ok? <==> encoding.value.encode(value.text).Ok?) &&
      (r.Ok? ==> r.value == S.FixedString(encoding.value.encode(value.text).value, value))
  {
    var codec :- MakeString(encoding);
    match value
    case LitBytes(b) => Ok(S.FixedString(b, value))
    case LitText(t) =>
      var e :- codec.encode(t);
      Ok(S.FixedString(e, value))
  }

  lemma FixedStringVectors()
    ensures MakeFixedString(S.LitBytes([0x76, 0x61, 0x6c, 0x69, 0x64]), Some(S.Ascii)).Ok?
    ensures var fs := MakeFixedString(S.LitBytes([0x76, 0x61, 0x6c, 0x69, 0x64]), Some(S.Ascii)).value;
      && S.FixedStringEncode(fs, S.LitBytes([0x76, 0x61, 0x6c, 0x69, 0x64])).Ok?
      && S.FixedStringDecode(fs, [0x76, 0x61, 0x6c, 0x69, 0x64]).Ok?
      && S.FixedStringDecode(fs, [0x69, 0x6e, 0x76, 0x61, 0x6c, 0x69, 0x64]) == Err(ValueError)
    ensures MakeFixedString(S.LitText("valid"), Some(S.Ascii)).Ok?
    ensures var fs := MakeFixedString(S.LitText("valid"), Some(S.Ascii)).value;
      && fs.Size() == 5
      && S.FixedStringEncode(fs, S.LitText("valid")).Ok?
      && S.FixedStringEncode(fs, S.LitText("invalid")) == Err(ValueError)
      && S.FixedStringDecode(fs, [0x76, 0x61, 0x6c, 0x69, 0x64]) == Ok(S.LitText("valid"))
  {
    var v := S.AsciiEncode("valid").value;
    assert v[0] == 0x76 && v[1] == 0x61 && v[2] == 0x6c && v[3] == 0x69 && v[4] == 0x64;
    assert v == [0x76, 0x61, 0x6c, 0x69, 0x64];
  }

  /** The size argument of a biwako field: absent, a number, or Remainder. */
  datatype BinSize = NoSize | Sized(n: int) | ToEnd

  /** Bytes(size=...): `if not self.size` rejects both a missing size and 0. */
  function MakeBytes(size: BinSize): (r: Result<BinSize>)
    ensures r.Err? <==> size == NoSize || size == Sized(0)
    ensures r.Err? ==> r.error == TypeError
    ensures r.Ok? ==> r.value == size
  {
    if size == NoSize || size == Sized(0) then Err(TypeError) else Ok(size)
  }

  /** Field.read of biwako/bin/fields/base.py:21-35, used by Bytes: the rest of
      the source for Remainder, else read(size). */
  function ReadSized(size: BinSize, src: Source): (r: Result<(Bytes, Source)>)
    ensures size == NoSize ==> r == Err(NotImplementedError)
    ensures size == ToEnd ==> r == Read(src, -1)
    ensures size.Sized? ==> r == Read(src, size.n)
  {
    match size
    case ToEnd => Read(src, -1)
    case Sized(n) => Read(src, n)
    case NoSize => Err(NotImplementedError)
  }
}
