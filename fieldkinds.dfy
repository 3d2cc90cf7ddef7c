/** The field classes of a byte structure, each as a Kind value, and what each
    does to a byte source on its own: read, decode, encode and validate
    (steel/fields/base.py, steel/fields/numbers.py, steel/fields/strings.py,
    steel/fields/compound.py, and the Integer part of
    steel/byte/fields/integrity.py).

    A field argument can name a sibling field or Remainder.  What such an
    argument gives depends on whether an instance is bound to the field
    (steel/common/args.py:54-67): bound, it is the sibling's value or -1;
    unbound, it is the object itself, which no codec can use as a number. */
module Kinds {
  import opened Results
  import opened Streams
  import opened Values
  import N = Numbers
  import S = Strings
  import PyInt
  import Seqs

  /** The size argument a field was declared with. */
  datatype SizeArg =
    | NoSize
    | Fixed(n: int)
    | SizeOf(name: string)    // a sibling field of the structure
    | ToEnd                   // Remainder: a callable returning -1

  /** The size a field sees while no instance is bound to it. */
  function Unbound(a: SizeArg): (r: Resolved)
    ensures a.Fixed? <==> r.RInt?
    ensures a.NoSize? <==> r.RNone?
    ensures r.RInt? ==> r.n == a.n
  {
    match a
    case NoSize => RNone
    case Fixed(n) => RInt(n)
    case SizeOf(_) => RObject
    case ToEnd => RObject
  }

  /** A number read from a field's value: what the codecs do with it. */
  function SizeFromValue(v: Value): (r: Resolved)
    ensures (v.VInt? || v.VBool?) <==> r.RInt?
    ensures v.VNone? <==> r.RNone?
    ensures r.RInt? ==> Ok(r.n) == AsInt(v)
  {
    match v
    case VInt(i) => RInt(i)
    case VBool(b) => RInt(if b then 1 else 0)
    case VNone => RNone
    case _ => RObject
  }

  /** The field classes of the byte engine. */
  datatype Kind =
    | KInteger(field: N.IntegerField)
    | KFixedInteger(fixed: N.FixedInteger)
    | KString(size: SizeArg, codec: S.Codec, padding: Bytes, terminator: Bytes)
    | KLengthIndexed(prefix: Option<nat>, codec: S.Codec)
    | KFixedString(literal: S.FixedString, encoding: Option<S.Codec>)   // None: built from bytes
    | KBytes(size: SizeArg)
    | KReserved(size: SizeArg)
    | KList(element: Kind, count: SizeArg)
    | KCheckSum(field: N.IntegerField, first: Option<string>, last: Option<string>, digest: Bytes -> int)
  {
    /** Integer fields need a valid signing, element kinds too. */
    predicate Valid()
      decreases this
    {
      match this
      case KInteger(f) => f.Valid()
      case KFixedInteger(fx) => fx.field.Valid()
      case KCheckSum(f, _, _, _) => f.Valid()
      case KList(e, _) => e.Valid()
      case _ => true
    }

    /** An Integer subclass: the kinds whose size is a plain number. */
    predicate IsInteger() {
      KInteger? || KFixedInteger? || KCheckSum?
    }
  }

  /** The size argument each kind carries.  Integer sizes are plain numbers
      (Override(resolve_field=False), steel/fields/numbers.py:97), and a
      FixedString's size is the length of its encoding. */
  function SizeArgOf(k: Kind): (r: SizeArg)
    ensures k.IsInteger() || k.KFixedString? ==> r.Fixed?
    ensures r.SizeOf? ==> k.KString? || k.KBytes? || k.KReserved? || k.KList?
  {
    match k
    case KInteger(f) => Fixed(f.size)
    case KFixedInteger(fx) => Fixed(fx.field.size)
    case KCheckSum(f, _, _, _) => Fixed(f.size)
    case KString(size, _, _, _) => size
    case KLengthIndexed(prefix, _) => if prefix.Some? then Fixed(prefix.value) else NoSize
    case KFixedString(fs, _) => Fixed(fs.Size())
    case KBytes(size) => size
    case KReserved(size) => size
    case KList(_, count) => count
  }

  /** The byte sum, CheckSum.calculate (steel/byte/fields/integrity.py:68-69). */
  function ByteSum(b: Bytes): (r: int)
    ensures r >= 0
    ensures |b| > 0 ==> r == ByteSum(b[..|b| - 1]) + b[|b| - 1]
  {
    if |b| == 0 then 0 else ByteSum(b[..|b| - 1]) + b[|b| - 1]
  }

  // ---------------------------------------------------------------------------
  // Reading

  /** What a field's read gives: bytes still to be decoded, or (FullyDecoded)
      bytes together with their value. */
  datatype Outcome = Raw(bytes: Bytes) | Full(bytes: Bytes, value: Value) {
    function Data(): Bytes {
      match this
      case Raw(b) => b
      case Full(b, _) => b
    }
  }

  /** Field.read (steel/fields/base.py:16-24): read(size) when the size is not
      None and NotImplementedError otherwise.  A read with a size that is not a
      number fails in the structure's mode check first, then in BytesIO. */
  function FieldRead(size: Resolved, src: Source): (r: ReadOut<Bytes>)
    ensures size.RNone? ==> r == ReadOut(Err(NotImplementedError), src)
    ensures size.RObject? ==> r == ReadOut(Err(if src.mode == Unreadable then IOError else TypeError), src)
    ensures size.RInt? && Read(src, size.n).Ok? ==>
      r == ReadOut(Ok(Read(src, size.n).value.0), Read(src, size.n).value.1)
    ensures size.RInt? && Read(src, size.n).Err? ==> r == ReadOut(Err(Read(src, size.n).error), src)
  {
    match size
    case RNone => ReadOut(Err(NotImplementedError), src)
    case RObject => ReadOut(Err(if src.mode == Unreadable then IOError else TypeError), src)
    case RInt(n) =>
      var step := Read(src, n);
      if step.Err? then ReadOut(Err(step.error), src) else ReadOut(Ok(step.value.0), step.value.1)
  }

  /** A read that either fails where it started or succeeds with raw bytes. */
  function Lift(r: Result<(Bytes, Source)>, src: Source): ReadOut<Outcome> {
    if r.Err? then ReadOut(Err(r.error), src) else ReadOut(Ok(Raw(r.value.0)), r.value.1)
  }

  function LiteralValue(l: S.Literal): Value {
    match l
    case LitBytes(b) => VBytes(b)
    case LitText(t) => VText(t)
  }

  /** The literal a value compares equal to, if it is text or bytes. */
  function ValueLiteral(v: Value): (r: Option<S.Literal>)
    ensures r.Some? ==> LiteralValue(r.value) == v
  {
    match v
    case VText(t) => Some(S.LitText(t))
    case VBytes(b) => Some(S.LitBytes(b))
    case _ => None
  }

  /** field.read(file) with the size the field sees. */
  function KRead(k: Kind, size: Resolved, src: Source): (r: ReadOut<Outcome>)
    requires k.Valid()
    decreases k, 1, 0
  {
    match k
    case KInteger(f) => LiftOut(FieldRead(RInt(f.size), src))
    case KFixedInteger(fx) => LiftOut(FieldRead(RInt(fx.field.size), src))
    case KCheckSum(f, _, _, _) => LiftOut(FieldRead(RInt(f.size), src))
    case KBytes(_) => LiftOut(FieldRead(size, src))
    case KReserved(_) => LiftOut(FieldRead(size, src))
    case KString(_, codec, padding, terminator) =>
      if size.RObject? then LiftOut(FieldRead(size, src))
      else Lift(S.StringRead(S.StringField(size, codec, padding, terminator), src), src)
    case KLengthIndexed(prefix, _) => Lift(S.LengthIndexedRead(prefix, src), src)
    case KFixedString(fs, _) =>
      var o := S.FixedStringRead(fs, src);
      if o.result.Err? then ReadOut(Err(o.result.error), o.after)
      else ReadOut(Ok(Full(fs.encoded, LiteralValue(fs.decoded))), o.after)
    case KList(e, _) =>
      var o := ListRead(e, size, src);
      if o.result.Err? then ReadOut(Err(o.result.error), o.after)
      else ReadOut(Ok(Full(o.result.value.0, VList(o.result.value.1))), o.after)
  }

  function LiftOut(o: ReadOut<Bytes>): ReadOut<Outcome> {
    if o.result.Err? then ReadOut(Err(o.result.error), o.after) else ReadOut(Ok(Raw(o.result.value)), o.after)
  }

  /** field.decode(bytes) for a kind whose read returned raw bytes.  List has
      no decode (its read always returns fully decoded values). */
  function DecodeK(k: Kind, b: Bytes): (r: Result<Value>)
    requires k.Valid()
    ensures k.KInteger? ==> r == Ok(VInt(N.IntegerDecode(k.field, b)))
    ensures k.KFixedInteger? ==> (r.Ok? <==> b == k.fixed.encoded)
    ensures k.KBytes? ==> r == Ok(VBytes(b))
    ensures k.KReserved? ==> r == Ok(VNone)
    ensures k.KList? ==> r == Err(AttributeError)
  {
    match k
    case KInteger(f) => Ok(VInt(N.IntegerDecode(f, b)))
    case KCheckSum(f, _, _, _) => Ok(VInt(N.IntegerDecode(f, b)))
    case KFixedInteger(fx) =>
      var i :- N.FixedIntegerDecode(fx, b);
      Ok(VInt(i))
    case KString(_, codec, padding, terminator) =>
      var t :- S.StringDecode(S.StringField(RNone, codec, padding, terminator), b);
      Ok(VText(t))
    case KLengthIndexed(prefix, codec) =>
      var t :- S.LengthIndexedDecode(prefix, codec, b);
      Ok(VText(t))
    case KFixedString(fs, _) =>
      var l :- S.FixedStringDecode(fs, b);
      Ok(LiteralValue(l))
    case KBytes(_) => Ok(VBytes(S.BytesDecode(b)))
    case KReserved(_) => Ok(VNone)
    case KList(_, _) => Err(AttributeError)
  }

  /** Field.read_value (steel/common/fields.py:142-148): read, then decode
      unless the read returned the value itself.  A CheckSum read outside the
      structure that declares it has no span (attach_to_class never ran for
      it), so it fails once its bytes are read. */
  function ReadValue(k: Kind, size: Resolved, src: Source): (r: ReadOut<(Bytes, Value)>)
    requires k.Valid()
    ensures k.KCheckSum? ==> r.result == (if FieldRead(RInt(k.field.size), src).result.Err?
                                          then Err(FieldRead(RInt(k.field.size), src).result.error)
                                          else Err(AttributeError))
    decreases k, 2, 0
  {
    if k.KCheckSum? then
      var o := FieldRead(RInt(k.field.size), src);
      ReadOut(if o.result.Err? then Err(o.result.error) else Err(AttributeError), o.after)
    else
      var o := KRead(k, size, src);
      if o.result.Err? then ReadOut(Err(o.result.error), o.after)
      else match o.result.value
        case Full(b, v) => ReadOut(Ok((b, v)), o.after)
        case Raw(b) =>
          var v := DecodeK(k, b);
          if v.Err? then ReadOut(Err(v.error), o.after) else ReadOut(Ok((b, v.value)), o.after)
  }

  /** List.read (steel/fields/compound.py:13-21): `range(size)` elements, each
      read with read_value while no instance is bound to the element field. */
  function ListRead(e: Kind, count: Resolved, src: Source): (r: ReadOut<(Bytes, seq<Value>)>)
    requires e.Valid()
    ensures !count.RInt? ==> r == ReadOut(Err(TypeError), src)
    decreases e, 4, 0
  {
    if !count.RInt? then ReadOut(Err(TypeError), src)
    else ListSteps(e, if count.n < 0 then 0 else count.n, src, [], [])
  }

  /** The remaining m iterations of the loop, after acc bytes and values. */
  function ListSteps(e: Kind, m: nat, src: Source, accBytes: Bytes, accValues: seq<Value>)
    : (r: ReadOut<(Bytes, seq<Value>)>)
    requires e.Valid()
    decreases e, 3, m
  {
    if m == 0 then ReadOut(Ok((accBytes, accValues)), src)
    else
      var o := ReadValue(e, Unbound(SizeArgOf(e)), src);
      if o.result.Err? then ReadOut(Err(o.result.error), o.after)
      else ListSteps(e, m - 1, o.after, accBytes + o.result.value.0, accValues + [o.result.value.1])
  }

  /** The loop of List.read as the source writes it. */
  method ReadList(e: Kind, count: Resolved, src: Source) returns (r: ReadOut<(Bytes, seq<Value>)>)
    requires e.Valid()
    ensures r == ListRead(e, count, src)
  {
    if !count.RInt? {
      return ReadOut(Err(TypeError), src);
    }
    var n: nat := if count.n < 0 then 0 else count.n;
    var valueBytes: Bytes := [];
    var values: seq<Value> := [];
    var file := src;
    var i := 0;
    while i < n
      invariant 0 <= i <= n
      invariant ListSteps(e, n - i, file, valueBytes, values) == ListRead(e, count, src)
    {
      var o := ReadValue(e, Unbound(SizeArgOf(e)), file);
      if o.result.Err? {
        return ReadOut(Err(o.result.error), o.after);
      }
      valueBytes := valueBytes + o.result.value.0;
      values := values + [o.result.value.1];
      file := o.after;
      i := i + 1;
    }
    return ReadOut(Ok((valueBytes, values)), file);
  }

  /** What earlier iterations collected, put in front of what later ones read. */
  function Prefixed(ab: Bytes, av: seq<Value>, r: ReadOut<(Bytes, seq<Value>)>): ReadOut<(Bytes, seq<Value>)> {
    if r.result.Err? then r else ReadOut(Ok((ab + r.result.value.0, av + r.result.value.1)), r.after)
  }

  lemma {:induction false} ListStepsAcc(e: Kind, m: nat, src: Source, ab: Bytes, av: seq<Value>)
    requires e.Valid()
    ensures ListSteps(e, m, src, ab, av) == Prefixed(ab, av, ListSteps(e, m, src, [], []))
    decreases m
  {
    if m == 0 {
      assert ab + [] == ab && av + [] == av;
    } else {
      var o := ReadValue(e, Unbound(SizeArgOf(e)), src);
      if o.result.Ok? {
        var b := o.result.value.0;
        var v := o.result.value.1;
        ListStepsAcc(e, m - 1, o.after, ab + b, av + [v]);
        ListStepsAcc(e, m - 1, o.after, [] + b, [] + [v]);
        var l := ListSteps(e, m - 1, o.after, [], []);
        if l.result.Ok? {
          assert [] + b == b && [] + [v] == [v];
          Seqs.Assoc(ab, b, l.result.value.0);
          Seqs.Assoc(av, [v], l.result.value.1);
        }
      }
    }
  }

  /** List.read reads its elements in order: the first element from the
      source, then the remaining count - 1 from where it stopped, with the
      raw bytes and the values of the first put in front; the first element
      that fails ends the list with its error. */
  lemma ListReadStep(e: Kind, n: nat, src: Source)
    requires e.Valid() && n > 0
    ensures var o := ReadValue(e, Unbound(SizeArgOf(e)), src);
      ListRead(e, RInt(n), src)
        == if o.result.Err? then ReadOut(Err(o.result.error), o.after)
           else Prefixed(o.result.value.0, [o.result.value.1], ListRead(e, RInt(n - 1), o.after))
  {
    var o := ReadValue(e, Unbound(SizeArgOf(e)), src);
    if o.result.Ok? {
      var b := o.result.value.0;
      var v := o.result.value.1;
      assert [] + b == b && [] + [v] == [v];
      ListStepsAcc(e, n - 1, o.after, b, [v]);
    }
  }

  /** A list that reads completely holds exactly count values (none for a
      count below one, as range() gives). */
  lemma {:induction false} ListReadLength(e: Kind, n: int, src: Source)
    requires e.Valid()
    requires ListRead(e, RInt(n), src).result.Ok?
    ensures |ListRead(e, RInt(n), src).result.value.1| == if n < 0 then 0 else n
    decreases if n < 0 then 0 else n
  {
    if n > 0 {
      ListReadStep(e, n, src);
      var o := ReadValue(e, Unbound(SizeArgOf(e)), src);
      ListReadLength(e, n - 1, o.after);
    }
  }

  /** A successful read returns exactly the bytes it consumed from the source:
      what is left afterwards is the rest of what was there. */
  lemma {:induction false} ReadValueConsumes(k: Kind, size: Resolved, src: Source)
    requires k.Valid()
    ensures var r := ReadValue(k, size, src);
      r.result.Ok? ==> r.result.value.0 + r.after.Rest() == src.Rest()
    decreases k, 2, 0
  {
    if !k.KCheckSum? {
      KReadConsumes(k, size, src);
    }
  }

  lemma {:induction false} KReadConsumes(k: Kind, size: Resolved, src: Source)
    requires k.Valid()
    ensures var r := KRead(k, size, src);
      r.result.Ok? ==> r.result.value.Data() + r.after.Rest() == src.Rest()
    decreases k, 1, 0
  {
    match k
    case KString(_, codec, padding, terminator) =>
      if !size.RObject? {
        StringReadConsumes(S.StringField(size, codec, padding, terminator), src);
      }
    case KLengthIndexed(prefix, _) =>
      LengthIndexedReadConsumes(prefix, src);
    case KList(e, _) =>
      if size.RInt? {
        ListStepsConsumes(e, if size.n < 0 then 0 else size.n, src);
      }
    case _ =>
  }

  /** A string read consumes exactly the bytes it returns. */
  lemma StringReadConsumes(f: S.StringField, src: Source)
    ensures var o := S.StringRead(f, src);
      o.Ok? ==> o.value.0 + o.value.1.Rest() == src.Rest()
  {
    if f.size.RNone? && S.ReadTerminated(src, f.terminator, []).Ok? {
      S.ReadTerminatedConsumes(src, f.terminator, []);
      var r := S.ReadTerminated(src, f.terminator, []);
      assert r.value.0[0..] == r.value.0;
    }
  }

  /** A length-indexed read consumes exactly its prefix and the bytes it
      announces. */
  lemma LengthIndexedReadConsumes(prefix: Option<nat>, src: Source)
    ensures var o := S.LengthIndexedRead(prefix, src);
      o.Ok? ==> o.value.0 + o.value.1.Rest() == src.Rest()
  {
    if prefix.Some? && Read(src, prefix.value).Ok? {
      var s1 := Read(src, prefix.value).value;
      var n := N.IntegerDecode(S.LengthPrefixField(prefix.value), s1.0);
      if Read(s1.1, n).Ok? {
        var s2 := Read(s1.1, n).value;
        Seqs.Assoc(s1.0, s2.0, s2.1.Rest());
      }
    }
  }

  lemma {:induction false} ListStepsConsumes(e: Kind, m: nat, src: Source)
    requires e.Valid()
    ensures var r := ListSteps(e, m, src, [], []);
      r.result.Ok? ==> r.result.value.0 + r.after.Rest() == src.Rest()
    decreases e, 3, m, 1
  {
    if m > 0 {
      var o := ReadValue(e, Unbound(SizeArgOf(e)), src);
      ListStepsConsumesAt(e, m, src, o);
    }
  }

  /** The step of ListStepsConsumes, o being the first element's read. */
  lemma {:induction false} ListStepsConsumesAt(e: Kind, m: nat, src: Source, o: ReadOut<(Bytes, Value)>)
    requires e.Valid() && m > 0 && o == ReadValue(e, Unbound(SizeArgOf(e)), src)
    ensures var r := ListSteps(e, m, src, [], []);
      r.result.Ok? ==> r.result.value.0 + r.after.Rest() == src.Rest()
    decreases e, 3, m, 0
  {
    ReadValueConsumes(e, Unbound(SizeArgOf(e)), src);
    if o.result.Ok? {
      ListStepsFirst(e, m, src);
      ListStepsConsumes(e, m - 1, o.after);
      var l := ListSteps(e, m - 1, o.after, [], []);
      if l.result.Ok? {
        ConsumedTwice(o.result.value.0, l.result.value.0, l.after.Rest(), o.after.Rest(), src.Rest());
      }
    }
  }

  lemma ListStepsFirst(e: Kind, m: nat, src: Source)
    requires e.Valid() && m > 0
    requires ReadValue(e, Unbound(SizeArgOf(e)), src).result.Ok?
    ensures var o := ReadValue(e, Unbound(SizeArgOf(e)), src);
      ListSteps(e, m, src, [], []) == Prefixed(o.result.value.0, [o.result.value.1], ListSteps(e, m - 1, o.after, [], []))
  {
    var o := ReadValue(e, Unbound(SizeArgOf(e)), src);
    var b := o.result.value.0;
    var v := o.result.value.1;
    assert [] + b == b && [] + [v] == [v];
    assert ListSteps(e, m, src, [], []) == ListSteps(e, m - 1, o.after, b, [v]);
    ListStepsAcc(e, m - 1, o.after, b, [v]);
  }

  lemma ConsumedTwice(b: Bytes, c: Bytes, rest2: Bytes, rest1: Bytes, rest0: Bytes)
    requires b + rest1 == rest0 && c + rest2 == rest1
    ensures (b + c) + rest2 == rest0
  {
    Seqs.Assoc(b, c, rest2);
  }

  // ---------------------------------------------------------------------------
  // Encoding

  /** Iterating a value, as `for value in values` does. */
  function Iterate(v: Value): (r: Result<seq<Value>>)
    ensures v.VList? ==> r == Ok(v.items)
    ensures r.Err? <==> !(v.VList? || v.VText? || v.VBytes?)
    ensures v.VText? && r.Ok? ==> |r.value| == |v.t|
  {
    match v
    case VList(items) => Ok(items)
    case VText(t) => Ok(seq(|t|, i requires 0 <= i < |t| => VText([t[i]])))
    case VBytes(b) => Ok(seq(|b|, i requires 0 <= i < |b| => VInt(b[i])))
    case _ => Err(TypeError)
  }

  /** field.encode(value) with the size the field sees.  Text fields need text
      (other values have no encode method); Bytes passes a bytes value through;
      Reserved writes size zero bytes whatever the value. */
  function EncodeK(k: Kind, size: Resolved, v: Value): (r: Result<Bytes>)
    requires k.Valid()
    decreases k, 0
  {
    match k
    case KInteger(f) =>
      var i :- AsInt(v);
      N.IntegerEncode(f, i)
    case KCheckSum(f, _, _, _) =>
      var i :- AsInt(v);
      N.IntegerEncode(f, i)
    case KFixedInteger(fx) =>
      if PyEq(v, VInt(fx.decoded)) then Ok(fx.encoded) else Err(ValueError)
    case KString(_, codec, padding, terminator) =>
      if !v.VText? then Err(AttributeError)
      else S.StringEncode(S.StringField(size, codec, padding, terminator), v.t)
    case KLengthIndexed(prefix, codec) =>
      if !v.VText? then Err(AttributeError)
      else S.LengthIndexedEncode(prefix, codec, v.t)
    case KFixedString(fs, _) =>
      var l := ValueLiteral(v);
      if l.None? then Err(ValueError) else S.FixedStringEncode(fs, l.value)
    case KBytes(_) =>
      if v.VBytes? then Ok(S.BytesEncode(v.bytes)) else Err(TypeError)
    case KReserved(_) =>
      if size.RInt? then Ok(Zeros(size.n)) else Err(TypeError)
    case KList(e, _) =>
      var items :- Iterate(v);
      ListEncode(e, items)
  }

  /** b'\x00' * n: empty for n <= 0. */
  function Zeros(n: int): (r: Bytes)
    ensures |r| == if n < 0 then 0 else n
    ensures forall i :: 0 <= i < |r| ==> r[i] == 0
  {
    if n <= 0 then [] else seq(n, _ => 0)
  }

  /** List.encode (steel/fields/compound.py:23-28): each element encoded while
      no instance is bound to the element field, then joined. */
  function ListEncode(e: Kind, items: seq<Value>): (r: Result<Bytes>)
    requires e.Valid()
    decreases e, |items| + 1
  {
    if |items| == 0 then Ok([])
    else
      var first :- EncodeK(e, Unbound(SizeArgOf(e)), items[0]);
      var rest :- ListEncode(e, items[1..]);
      Ok(first + rest)
  }

  /** b + the value of r, when r is one. */
  function Prepend(b: Bytes, r: Result<Bytes>): Result<Bytes> {
    if r.Err? then r else Ok(b + r.value)
  }

  function Concat(bs: seq<Bytes>): Bytes {
    if |bs| == 0 then [] else bs[0] + Concat(bs[1..])
  }

  /** The loop of List.encode as the source writes it: the encodings are
      collected in a list and joined at the end. */
  method EncodeList(e: Kind, items: seq<Value>) returns (r: Result<Bytes>)
    requires e.Valid()
    ensures r == ListEncode(e, items)
  {
    var encoded: seq<Bytes> := [];
    var i := 0;
    assert items[0..] == items;
    if ListEncode(e, items).Ok? {
      assert [] + ListEncode(e, items).value == ListEncode(e, items).value;
    }
    while i < |items|
      invariant 0 <= i <= |items|
      invariant ListEncode(e, items) == Prepend(Concat(encoded), ListEncode(e, items[i..]))
    {
      var x := EncodeK(e, Unbound(SizeArgOf(e)), items[i]);
      assert items[i..][0] == items[i] && items[i..][1..] == items[i + 1..];
      if x.Err? {
        return Err(x.error);
      }
      var tail := ListEncode(e, items[i + 1..]);
      if tail.Ok? {
        Seqs.Assoc(Concat(encoded), x.value, tail.value);
      }
      ConcatAppend(encoded, x.value);
      encoded := encoded + [x.value];
      i := i + 1;
    }
    assert items[i..] == [];
    assert Concat(encoded) + [] == Concat(encoded);
    return Ok(Concat(encoded));
  }

  lemma {:induction false} ConcatAppend(bs: seq<Bytes>, b: Bytes)
    ensures Concat(bs + [b]) == Concat(bs) + b
    decreases |bs|
  {
    if |bs| == 0 {
      assert [] + [b] == [b];
      assert Concat([b]) == b + Concat([]);
      assert b + [] == b;
    } else {
      assert (bs + [b])[1..] == bs[1..] + [b];
      ConcatAppend(bs[1..], b);
      Seqs.Assoc(bs[0], Concat(bs[1..]), b);
    }
  }

  /** List.encode of a + b is the encoding of a followed by that of b; an
      element that fails in a means nothing of b is encoded. */
  lemma {:induction false} ListEncodeAppend(e: Kind, a: seq<Value>, b: seq<Value>)
    requires e.Valid()
    ensures ListEncode(e, a + b)
         == if ListEncode(e, a).Err? then ListEncode(e, a) else Prepend(ListEncode(e, a).value, ListEncode(e, b))
    decreases |a|
  {
    if |a| == 0 {
      assert a + b == b;
      if ListEncode(e, b).Ok? {
        assert [] + ListEncode(e, b).value == ListEncode(e, b).value;
      }
    } else {
      assert (a + b)[0] == a[0] && (a + b)[1..] == a[1..] + b;
      ListEncodeAppend(e, a[1..], b);
      var x := EncodeK(e, Unbound(SizeArgOf(e)), a[0]);
      if x.Ok? && ListEncode(e, a[1..]).Ok? && ListEncode(e, b).Ok? {
        var y := ListEncode(e, a[1..]).value;
        Seqs.Assoc(x.value, y, ListEncode(e, b).value);
      }
    }
  }

  /** An element whose encoding fails makes the whole encoding fail with its
      error when everything before it encodes: no partial encoding. */
  lemma ListEncodeStops(e: Kind, a: seq<Value>, v: Value, c: seq<Value>)
    requires e.Valid()
    requires ListEncode(e, a).Ok?
    requires EncodeK(e, Unbound(SizeArgOf(e)), v).Err?
    ensures ListEncode(e, a + [v] + c) == Err(EncodeK(e, Unbound(SizeArgOf(e)), v).error)
  {
    ListEncodeAppend(e, a, [v] + c);
    Seqs.Assoc(a, [v], c);
    assert ([v] + c)[0] == v;
  }

  // ---------------------------------------------------------------------------
  // Validation

  /** `value not in set(choices)`: a list value is unhashable, and so is a list
      among the choices. */
  function ChoicesCheck(v: Value, choices: seq<Value>): (r: Result<()>)
    ensures |choices| == 0 ==> r.Ok?
    ensures |choices| > 0 && r.Ok? ==> exists c :: c in choices && PyEq(v, c)
    ensures |choices| > 0 && !v.VList? && (forall c :: c in choices ==> !c.VList?) ==>
      (r.Ok? <==> exists c :: c in choices && PyEq(v, c))
    ensures r.Err? ==> r.error == ValueError || r.error == TypeError
  {
    if |choices| == 0 then Ok(())
    else if v.VList? || exists c :: c in choices && c.VList? then Err(TypeError)
    else if exists c :: c in choices && PyEq(v, c) then Ok(())
    else Err(ValueError)
  }

  /** The encode step of Field.validate: Bytes.encode never fails. */
  function EncodeCheck(k: Kind, size: Resolved, v: Value): (r: Result<()>)
    requires k.Valid()
    ensures k.KBytes? ==> r.Ok?
    ensures !k.KBytes? ==> (r.Ok? <==> EncodeK(k, size, v).Ok?)
  {
    if k.KBytes? then Ok(())
    else
      var e := EncodeK(k, size, v);
      if e.Err? then Err(e.error) else Ok(())
  }

  /** field.validate(obj, value).  Field.validate (steel/common/fields.py:124-133)
      encodes with the instance bound, then checks choices.  String.validate
      (steel/fields/strings.py:42-46) replaces it for every string kind: it
      encodes, then compares the length with `self.size` read WITHOUT an
      instance bound, so a sibling size is the field object itself.  An
      Integer field compared that way answers with a Condition, which is true,
      so the check raises ValueError; anything else raises TypeError.  A
      FixedString built from bytes has no encoding (None). */
  function ValidateK(k: Kind, size: Resolved, v: Value, choices: seq<Value>, integerSibling: bool)
    : (r: Result<()>)
    requires k.Valid()
    ensures !(k.KString? || k.KLengthIndexed? || k.KFixedString?) ==>
      r == (if EncodeCheck(k, size, v).Err? then EncodeCheck(k, size, v) else ChoicesCheck(v, choices))
    ensures k.KString? && k.size.Fixed? && v.VText? && k.codec.encode(v.t).Ok? ==>
      (r.Err? <==> |k.codec.encode(v.t).value| > k.size.n)
    ensures k.KString? && !v.VText? ==> r == Err(AttributeError)
  {
    match k
    case KString(sz, codec, _, _) =>
      if !v.VText? then Err(AttributeError)
      else
        var b :- codec.encode(v.t);
        (match sz
         case NoSize => Ok(())
         case Fixed(n) => if |b| > n then Err(ValueError) else Ok(())
         case SizeOf(_) => if integerSibling then Err(ValueError) else Err(TypeError)
         case ToEnd => Err(TypeError))
    case KLengthIndexed(prefix, codec) =>
      if !v.VText? then Err(AttributeError)
      else
        var b :- codec.encode(v.t);
        if prefix.Some? && |b| > prefix.value then Err(ValueError) else Ok(())
    case KFixedString(fs, codec) =>
      if codec.None? then (if v.VText? then Err(TypeError) else Err(AttributeError))
      else if !v.VText? then Err(AttributeError)
      else
        var b :- codec.value.encode(v.t);
        if |b| > fs.Size() then Err(ValueError) else Ok(())
    case _ =>
      var _ :- EncodeCheck(k, size, v);
      ChoicesCheck(v, choices)
  }

  // ---------------------------------------------------------------------------
  // Vectors

  function Byte1(): N.IntegerField {
    N.IntegerField(1, false, N.BigEndian, N.TwosComplement)
  }

  /** List(Integer(size=1), size=4) encodes [66, 82, 42, 58] as 42 52 2a 3a. */
  lemma ListEncodeVector()
    ensures ListEncode(KInteger(Byte1()), [VInt(66), VInt(82), VInt(42), VInt(58)]) == Ok([0x42, 0x52, 0x2a, 0x3a])
  {
    var e := KInteger(Byte1());
    OneByte(66);
    OneByte(82);
    OneByte(42);
    OneByte(58);
    var items := [VInt(66), VInt(82), VInt(42), VInt(58)];
    assert items[1..] == [VInt(82), VInt(42), VInt(58)];
    assert items[1..][1..] == [VInt(42), VInt(58)];
    assert items[1..][1..][1..] == [VInt(58)];
    assert [VInt(58)][1..] == [];
    assert ListEncode(e, []) == Ok([]);
    assert [0x3a] + [] == [0x3a];
    assert ListEncode(e, [VInt(58)]) == Ok([0x3a]);
    assert [VInt(42), VInt(58)][1..] == [VInt(58)];
    assert [0x2a] + [0x3a] == [0x2a, 0x3a];
    assert ListEncode(e, [VInt(42), VInt(58)]) == Ok([0x2a, 0x3a]);
    assert [VInt(82), VInt(42), VInt(58)][1..] == [VInt(42), VInt(58)];
    assert [0x52] + [0x2a, 0x3a] == [0x52, 0x2a, 0x3a];
    assert ListEncode(e, [VInt(82), VInt(42), VInt(58)]) == Ok([0x52, 0x2a, 0x3a]);
    assert [0x42] + [0x52, 0x2a, 0x3a] == [0x42, 0x52, 0x2a, 0x3a];
  }

  /** ... and reads 42 52 2a 3a back as [66, 82, 42, 58]. */
  lemma ListReadVector(src: Source)
    requires src.mode == Lenient && src.Rest() == [0x42, 0x52, 0x2a, 0x3a]
    ensures ListRead(KInteger(Byte1()), RInt(4), src).result == Ok(([0x42, 0x52, 0x2a, 0x3a], [VInt(66), VInt(82), VInt(42), VInt(58)]))
  {
    ByteListRead(src, 4);
    assert src.Rest()[..4] == src.Rest();
    ByteValuesVector();
  }

  lemma ByteValuesVector()
    ensures ByteValues([0x42, 0x52, 0x2a, 0x3a]) == [VInt(66), VInt(82), VInt(42), VInt(58)]
  {
    var b: Bytes := [0x42, 0x52, 0x2a, 0x3a];
    assert b[1..] == [0x52, 0x2a, 0x3a] && b[1..][1..] == [0x2a, 0x3a] && b[1..][1..][1..] == [0x3a];
    assert [0x3a][1..] == [];
  }

  /** The integer values of a run of bytes, one per byte. */
  function ByteValues(b: Bytes): (r: seq<Value>)
    ensures |r| == |b|
  {
    if b == [] then [] else [VInt(b[0])] + ByteValues(b[1..])
  }

  /** A list of n one-byte unsigned integers reads exactly the next n bytes,
      each as its own value, when that many are left. */
  lemma {:induction false} ByteListRead(src: Source, n: nat)
    requires src.mode == Lenient && n <= |src.Rest()|
    ensures ListRead(KInteger(Byte1()), RInt(n), src).result == Ok((src.Rest()[..n], ByteValues(src.Rest()[..n])))
    decreases n
  {
    var e := KInteger(Byte1());
    if n > 0 {
      var rest := src.Rest();
      OneByte(rest[0]);
      var after := Read(src, 1).value.1;
      assert Read(src, 1).value.0 == [rest[0]];
      assert after.Rest() == rest[1..];
      ListReadStep(e, n, src);
      ByteListRead(after, n - 1);
      assert rest[..n] == [rest[0]] + rest[1..][..n - 1];
      assert rest[..n][1..] == rest[1..][..n - 1];
    }
  }

  lemma OneByte(v: int)
    requires 0 <= v < 256
    ensures N.IntegerEncode(Byte1(), v) == Ok([v])
    ensures N.IntegerDecode(Byte1(), [v]) == v
  {
    assert PyInt.Pow2(8) == 256 by { PyInt.Pow256IsPow2(1); }
    assert N.BigEndianEncode(1, v) == [v];
    N.UnsignedIntegerRoundTrip(Byte1(), v);
  }

  /** A Reserved field encodes to size zero bytes whatever its value, and
      decodes to None. */
  lemma ReservedEncodesZeros(n: nat, v: Value, b: Bytes)
    ensures EncodeK(KReserved(Fixed(n)), RInt(n), v) == Ok(seq(n, _ => 0))
    ensures DecodeK(KReserved(Fixed(n)), b) == Ok(VNone)
  {
    assert Zeros(n) == seq(n, _ => 0);
  }

  // ---------------------------------------------------------------------------
  // Reading a readable source

  /** The text codecs a kind uses fail only with ValueError, as str.encode and
      bytes.decode fail with UnicodeError. */
  ghost predicate CodecsValid(k: Kind)
    decreases k
  {
    match k
    case KString(_, codec, _, _) => S.ValidCodec(codec)
    case KLengthIndexed(_, codec) => S.ValidCodec(codec)
    case KList(e, _) => CodecsValid(e)
    case _ => true
  }

  /** Decoding never raises IOError. */
  lemma DecodeKReadable(k: Kind, b: Bytes)
    requires k.Valid() && CodecsValid(k)
    ensures DecodeK(k, b) != Err(IOError)
  {
    match k
    case KString(_, codec, padding, terminator) =>
      assert S.StringDecode(S.StringField(RNone, codec, padding, terminator), b).Err? ==>
        S.StringDecode(S.StringField(RNone, codec, padding, terminator), b).error == ValueError;
    case KLengthIndexed(prefix, codec) =>
    case _ =>
  }

  lemma {:induction false} ReadTerminatedReadable(src: Source, terminator: Bytes, acc: Bytes)
    requires src.mode != Unreadable
    ensures S.ReadTerminated(src, terminator, acc) != Err(IOError)
    decreases |src.Rest()|
  {
    var step := Read(src, 1);
    if step.Ok? && |step.value.0| > 0 && step.value.0 != terminator {
      ReadTerminatedReadable(step.value.1, terminator, acc + step.value.0);
    }
  }

  /** On a source that can be read, a field's read never raises IOError (only
      the structure's mode check does), and the source stays readable. */
  lemma {:induction false} KReadReadable(k: Kind, size: Resolved, src: Source)
    requires k.Valid() && CodecsValid(k) && src.mode != Unreadable
    ensures KRead(k, size, src).result != Err(IOError)
    ensures KRead(k, size, src).after.mode == src.mode
    decreases k, 1, 0
  {
    match k
    case KString(_, codec, padding, terminator) =>
      if size.RNone? {
        ReadTerminatedReadable(src, terminator, []);
      }
    case KLengthIndexed(prefix, _) =>
      LengthIndexedReadable(prefix, src);
    case KList(e, _) =>
      if size.RInt? {
        ListStepsReadable(e, if size.n < 0 then 0 else size.n, src, [], []);
      }
    case _ =>
  }

  /** The prefix and then the value are read from the same readable source. */
  lemma LengthIndexedReadable(prefix: Option<nat>, src: Source)
    requires src.mode != Unreadable
    ensures S.LengthIndexedRead(prefix, src) != Err(IOError)
    ensures S.LengthIndexedRead(prefix, src).Ok? ==> S.LengthIndexedRead(prefix, src).value.1.mode == src.mode
  {
    if prefix.Some? && Read(src, prefix.value).Ok? {
      var s1 := Read(src, prefix.value).value;
      var n := N.IntegerDecode(S.LengthPrefixField(prefix.value), s1.0);
      assert s1.1.mode == src.mode;
      assert Read(s1.1, n) != Err(IOError);
    }
  }

  lemma {:induction false} ReadValueReadable(k: Kind, size: Resolved, src: Source)
    requires k.Valid() && CodecsValid(k) && src.mode != Unreadable
    ensures ReadValue(k, size, src).result != Err(IOError)
    ensures ReadValue(k, size, src).after.mode == src.mode
    decreases k, 2, 0
  {
    if !k.KCheckSum? {
      KReadReadable(k, size, src);
      var o := KRead(k, size, src);
      if o.result.Ok? && o.result.value.Raw? {
        DecodeKReadable(k, o.result.value.bytes);
      }
    }
  }

  lemma {:induction false} ListStepsReadable(e: Kind, m: nat, src: Source, ab: Bytes, av: seq<Value>)
    requires e.Valid() && CodecsValid(e) && src.mode != Unreadable
    ensures ListSteps(e, m, src, ab, av).result != Err(IOError)
    ensures ListSteps(e, m, src, ab, av).after.mode == src.mode
    decreases e, 3, m, 1
  {
    if m > 0 {
      var o := ReadValue(e, Unbound(SizeArgOf(e)), src);
      ListStepsReadableAt(e, m, src, ab, av, o);
    }
  }

  /** The step of ListStepsReadable, o being the first element's read. */
  lemma {:induction false} ListStepsReadableAt(e: Kind, m: nat, src: Source, ab: Bytes, av: seq<Value>,
                                               o: ReadOut<(Bytes, Value)>)
    requires e.Valid() && CodecsValid(e) && src.mode != Unreadable
    requires m > 0 && o == ReadValue(e, Unbound(SizeArgOf(e)), src)
    ensures ListSteps(e, m, src, ab, av).result != Err(IOError)
    ensures ListSteps(e, m, src, ab, av).after.mode == src.mode
    decreases e, 3, m, 0
  {
    ReadValueReadable(e, Unbound(SizeArgOf(e)), src);
    if o.result.Ok? {
      ListStepsReadable(e, m - 1, o.after, ab + o.result.value.0, av + [o.result.value.1]);
    }
  }
}
