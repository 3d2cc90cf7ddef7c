/** What the operations of a byte structure promise, proved about the
    functions of the Engine module: extraction reads a prefix of the fields
    and leaves the rest alone, a get decodes at most once, a get without data
    falls back on the default, an assigned condition is not evaluated again,
    a recomputed checksum matches its span, a size hook keeps the length field
    up to date, and validation collects every failure. */
module EngineFacts {
  import opened Results
  import opened Streams
  import opened Values
  import opened Kinds
  import opened Schema
  import opened Engine
  import N = Numbers
  import PyInt
  import ReadSave
  import S = Strings

  // ---------------------------------------------------------------------------
  // _extract

  /** The scan of _extract from k up to j gives no raw bytes to an entry
      after j, nor to j itself when it fails. */
  lemma {:induction false} ScanFrame(schema: Schema, st: State, k: nat, j: nat)
    requires WellFormed(schema) && k <= j && IsField(schema, j) && HasRawBefore(schema, st, k)
    ensures var r := ScanF(schema, st, k, j);
      forall i :: j < i < |schema| && schema[i].name !in st.raw ==> schema[i].name !in r.st.raw
    ensures var r := ScanF(schema, st, k, j);
      r.result.Err? && schema[j].name !in st.raw ==> schema[j].name !in r.st.raw
    decreases j - k
  {
    var name := schema[k].name;
    if name in st.raw {
      if k < j {
        ScanFrame(schema, st, k + 1, j);
      }
    } else if schema[k].FieldEntry? {
      var s := ReadFieldF(schema, st, k);
      if s.result.Ok? && k < j {
        ScanFrame(schema, s.st, k + 1, j);
      }
    }
  }

  /** _extract(f) (steel/base.py:60-73): when f has no raw bytes yet, a
      successful extraction leaves every field up to f with raw bytes; in any
      case the raw bytes already there are kept, and the fields after f are
      not touched. */
  lemma ExtractFrame(schema: Schema, st: State, j: nat)
    requires WellFormed(schema) && IsField(schema, j)
    ensures var r := ExtractF(schema, st, j);
      && RawKept(st, r.st)
      && (schema[j].name !in st.raw && r.result.Ok? ==> HasRawBefore(schema, r.st, j + 1))
      && (forall i :: j < i < |schema| ==> (schema[i].name in r.st.raw <==> schema[i].name in st.raw))
  {
    if schema[j].name !in st.raw {
      ScanFrame(schema, st, 0, j);
    }
  }

  // ---------------------------------------------------------------------------
  // Field.__get__

  /** A get that found raw bytes stored its value: asking again decodes
      nothing, reads nothing and gives the same value
      (steel/common/fields.py:167-175). */
  lemma GetTwice(schema: Schema, st: State, j: nat)
    requires WellFormed(schema) && IsField(schema, j)
    ensures var r := GetF(schema, st, j);
      r.result.Ok? && schema[j].name in r.st.raw ==>
        && schema[j].name in r.st.values && r.st.values[schema[j].name] == r.result.value
        && GetF(schema, r.st, j) == r
  {
    var name := schema[j].name;
    var e := ExtractF(schema, st, j);
    if e.result.Err? {
      ScanFrame(schema, st, 0, j);
      assert name !in e.st.raw;
    }
  }

  /** The kinds whose read starts by reading from the source, so that in
      write mode it raises IOError at once. */
  predicate ReadsSource(k: Kind) {
    || k.KInteger? || k.KFixedInteger? || k.KCheckSum? || k.KFixedString?
    || ((k.KBytes? || k.KReserved?) && k.size.Fixed?)
    || (k.KString? && (k.size.NoSize? || k.size.Fixed?))
    || (k.KLengthIndexed? && k.prefix.Some?)
  }

  lemma KReadUnreadable(k: Kind, src: Source)
    requires k.Valid() && ReadsSource(k) && !k.KCheckSum? && src.mode == Unreadable
    ensures KRead(k, Unbound(SizeArgOf(k)), src) == ReadOut(Err(IOError), src)
  {
  }

  /** In write mode ('wb'), getting a field that nothing was written to yet
      raises IOError inside _extract, so the get gives the declared default,
      or AttributeError without one, and changes nothing
      (steel/common/fields.py:159-165; tests/byte/structures.py:91-97). */
  lemma GetInWriteMode(schema: Schema, st: State, j: nat)
    requires WellFormed(schema) && IsField(schema, j) && ReadsSource(schema[j].spec.kind)
    requires st.file.mode == Unreadable && HasRawBefore(schema, st, j) && schema[j].name !in st.raw
    ensures var r := GetF(schema, st, j);
      && r.result == (if schema[j].spec.default.Some? then Ok(schema[j].spec.default.value) else Err(AttributeError))
      && r.st == st
  {
    ReadSave.ScanSkip(schema, st, 0, j);
    var kind := schema[j].spec.kind;
    if !kind.KCheckSum? {
      KReadUnreadable(kind, st.file);
    }
    assert Advance(st, st.file) == st;
    assert ReadFieldF(schema, st, j) == Step(Err(IOError), st);
  }

  // ---------------------------------------------------------------------------
  // Conditions

  /** Once a condition has been assigned, getting it evaluates nothing and
      reads nothing; the assignment recorded empty raw bytes for it
      (steel/common/fields.py:261-263, 292-294). */
  lemma ConditionOnce(schema: Schema, st: State, c: nat, v: Value)
    requires WellFormed(schema) && c < |schema| && schema[c].ConditionEntry?
    ensures var s := ConditionSetF(schema, st, c, v);
      && s.raw[schema[c].name] == []
      && ConditionGetF(schema, s, c) == Step(Ok(VNone), s)
  {
  }

  /** A condition that holds once read stores, under its own name, the raw
      bytes of its guarded fields joined in order, and each guarded value;
      one that does not hold stores no raw bytes for itself
      (steel/common/fields.py:277-289). */
  lemma ConditionStores(schema: Schema, st: State, c: nat)
    requires WellFormed(schema) && c < |schema| && schema[c].ConditionEntry?
    requires schema[c].name !in st.values && schema[c].name !in st.raw
    ensures var r := ConditionGetF(schema, st, c);
      var e := schema[c];
      var a := LookupF(schema, st, e.subject);
      var b := OperandF(schema, a.st, e.other);
      r.result.Ok? ==>
        && a.result.Ok? && b.result.Ok?
        && Compare(e.op, a.result.value, b.result.value).Ok?
        && (Compare(e.op, a.result.value, b.result.value) == Ok(false) ==> r.st == b.st && e.name !in r.st.raw)
        && (Compare(e.op, a.result.value, b.result.value) == Ok(true) ==>
              var g := GuardedReads(schema, b.st, c, 0, []);
              && g.result.Ok?
              && r.st.raw == g.st.raw[e.name := g.result.value]
              && (forall x :: 0 <= x < |e.guarded| ==> e.guarded[x].name in r.st.values))
  {
    var e := schema[c];
    var a := LookupF(schema, st, e.subject);
    if a.result.Ok? {
      var b := OperandF(schema, a.st, e.other);
      if b.result.Ok? {
        var t := Compare(e.op, a.result.value, b.result.value);
        if t == Ok(false) {
          LookupOwnName(schema, st, e.subject, e.name, c);
          OperandOwnName(schema, a.st, e.other, e.name, c);
        }
        if t == Ok(true) {
          var g := GuardedReads(schema, b.st, c, 0, []);
          if g.result.Ok? {
            GuardedStored(schema, b.st, c, 0, []);
          }
        }
      }
    }
  }

  /** A lookup adds no raw bytes under the name of a condition. */
  lemma LookupOwnName(schema: Schema, st: State, name: string, own: string, c: nat)
    requires WellFormed(schema) && FieldNameOk(schema, name)
    requires c < |schema| && schema[c].ConditionEntry? && own == schema[c].name && own !in st.raw
    ensures own !in LookupF(schema, st, name).st.raw
  {
    var i := EntryIndex(schema, name);
    if i.Some? {
      var j := i.value;
      assert j != c;
      GetOwnName(schema, st, j, c);
    }
  }

  lemma OperandOwnName(schema: Schema, st: State, o: Operand, own: string, c: nat)
    requires WellFormed(schema) && (o.OField? ==> FieldNameOk(schema, o.field))
    requires c < |schema| && schema[c].ConditionEntry? && own == schema[c].name && own !in st.raw
    ensures own !in OperandF(schema, st, o).st.raw
  {
    if o.OField? {
      LookupOwnName(schema, st, o.field, own, c);
    }
  }

  /** A get gives raw bytes only to fields, never to a condition. */
  lemma GetOwnName(schema: Schema, st: State, j: nat, c: nat)
    requires WellFormed(schema) && IsField(schema, j)
    requires c < |schema| && schema[c].ConditionEntry? && schema[c].name !in st.raw
    ensures schema[c].name !in GetF(schema, st, j).st.raw
  {
    var name := schema[j].name;
    if name !in st.raw {
      ScanOwnName(schema, st, 0, j, c);
    }
  }

  lemma {:induction false} ScanOwnName(schema: Schema, st: State, k: nat, j: nat, c: nat)
    requires WellFormed(schema) && k <= j && IsField(schema, j) && HasRawBefore(schema, st, k)
    requires c < |schema| && schema[c].ConditionEntry? && schema[c].name !in st.raw
    ensures schema[c].name !in ScanF(schema, st, k, j).st.raw
    decreases j - k
  {
    var name := schema[k].name;
    if name in st.raw {
      if k < j {
        ScanOwnName(schema, st, k + 1, j, c);
      }
    } else if schema[k].FieldEntry? {
      assert k != c;
      var s := ReadFieldF(schema, st, k);
      if s.result.Ok? && k < j {
        ScanOwnName(schema, s.st, k + 1, j, c);
      }
    }
  }

  /** The guarded reads from g on store a value for each guarded field from
      g on. */
  lemma {:induction false} GuardedStored(schema: Schema, st: State, c: nat, g: nat, acc: Bytes)
    requires WellFormed(schema) && c < |schema| && schema[c].ConditionEntry?
    requires GuardedReads(schema, st, c, g, acc).result.Ok?
    ensures var r := GuardedReads(schema, st, c, g, acc);
      forall x :: g <= x < |schema[c].guarded| ==> schema[c].guarded[x].name in r.st.values
    ensures var r := GuardedReads(schema, st, c, g, acc);
      forall n :: n in st.values ==> n in r.st.values
    decreases |schema[c].guarded| - g
  {
    var gs := schema[c].guarded;
    if g < |gs| {
      var kind := gs[g].spec.kind;
      assert GuardedOk(schema, gs[g]);
      var sz := ResolveBound(schema, st, SizeArgOf(kind));
      ResolveKeepsValues(schema, st, SizeArgOf(kind));
      var o := ReadValue(kind, sz.result.value, sz.st.file);
      var st1 := Advance(sz.st, o.after);
      var st2 := st1.(values := st1.values[gs[g].name := o.result.value.1]);
      var r := GuardedReads(schema, st2, c, g + 1, acc + o.result.value.0);
      assert GuardedReads(schema, st, c, g, acc) == r;
      GuardedStored(schema, st2, c, g + 1, acc + o.result.value.0);
      assert NamesKept(st, st2) && gs[g].name in st2.values;
    }
  }

  /** Every name with a value in a still has one in b. */
  predicate NamesKept(a: State, b: State) {
    forall n :: n in a.values ==> n in b.values
  }

  /** Resolving a size argument keeps every value already there. */
  lemma ResolveKeepsValues(schema: Schema, st: State, arg: SizeArg)
    requires WellFormed(schema) && (arg.SizeOf? ==> FieldNameOk(schema, arg.name))
    ensures NamesKept(st, ResolveBound(schema, st, arg).st)
  {
    if arg.SizeOf? {
      var i := EntryIndex(schema, arg.name);
      if i.Some? {
        GetKeepsValues(schema, st, i.value);
      }
    }
  }

  lemma GetKeepsValues(schema: Schema, st: State, j: nat)
    requires WellFormed(schema) && IsField(schema, j)
    ensures NamesKept(st, GetF(schema, st, j).st)
  {
    if schema[j].name !in st.raw {
      ScanKeepsValues(schema, st, 0, j);
    }
  }

  lemma {:induction false} ScanKeepsValues(schema: Schema, st: State, k: nat, j: nat)
    requires WellFormed(schema) && k <= j && IsField(schema, j) && HasRawBefore(schema, st, k)
    ensures NamesKept(st, ScanF(schema, st, k, j).st)
    decreases j - k
  {
    var name := schema[k].name;
    if name in st.raw {
      if k < j {
        ScanKeepsValues(schema, st, k + 1, j);
      }
    } else if schema[k].FieldEntry? {
      var s := ReadFieldF(schema, st, k);
      ReadFieldKeepsValues(schema, st, k);
      if s.result.Ok? && k < j {
        ScanKeepsValues(schema, s.st, k + 1, j);
      }
    }
  }

  lemma ReadFieldKeepsValues(schema: Schema, st: State, k: nat)
    requires WellFormed(schema) && IsField(schema, k) && HasRawBefore(schema, st, k)
    ensures NamesKept(st, ReadFieldF(schema, st, k).st)
  {
    var kind := schema[k].spec.kind;
    if !kind.KCheckSum? {
      forall n | n in st.values
        ensures n in ScanSize(schema, st, k, SizeArgOf(kind)).st.values
      {
        ScanSizeKeeps(schema, st, k, SizeArgOf(kind), n);
      }
    }
  }

  /** Resolving a size while reading keeps every stored value: a sibling
      is decoded only when it has none. */
  lemma ScanSizeKeeps(schema: Schema, st: State, k: nat, arg: SizeArg, name: string)
    requires WellFormed(schema) && HasRawBefore(schema, st, k) && SizeRefOk(schema, k, arg)
    requires name in st.values
    ensures var r := ScanSize(schema, st, k, arg);
      name in r.st.values && r.st.values[name] == st.values[name]
  {
  }

  // ---------------------------------------------------------------------------
  // CheckSum

  /** The checksum c agrees with its span: every span field and c itself
      have raw bytes, and the stored bytes decode to the digest of the span's
      raw bytes, joined in order; a read of them passes the integrity check. */
  ghost predicate Consistent(schema: Schema, st: State, c: nat)
    requires WellFormed(schema) && IsCheckSum(schema, c)
  {
    && (forall x :: 0 <= x < |Span(schema, c)| ==> schema[Span(schema, c)[x]].name in st.raw)
    && schema[c].name in st.raw
    && N.IntegerDecode(schema[c].spec.kind.field, st.raw[schema[c].name])
         == Calculated(schema[c].spec.kind, RawConcat(schema, st, Span(schema, c)))
  }

  /** The extractions of the span fields from i on, added to acc, give the
      raw bytes of those fields, which stay in place. */
  lemma {:induction false} SpanDataConcat(schema: Schema, st: State, c: nat, i: nat, acc: Bytes)
    requires WellFormed(schema) && IsCheckSum(schema, c) && i <= |Span(schema, c)|
    requires forall x :: 0 <= x < i ==> schema[Span(schema, c)[x]].name in st.raw
    requires acc == RawConcat(schema, st, Span(schema, c)[..i])
    ensures var r := SpanData(schema, st, c, i, acc);
      r.result.Ok? ==>
        && (forall x :: 0 <= x < |Span(schema, c)| ==> schema[Span(schema, c)[x]].name in r.st.raw)
        && r.result.value == RawConcat(schema, r.st, Span(schema, c))
    decreases |Span(schema, c)| - i
  {
    var span := Span(schema, c);
    if i >= |span| {
      assert span[..i] == span;
    } else {
      var e := ExtractF(schema, st, span[i]);
      if e.result.Ok? {
        SpanDataMoves(schema, st, c, i, acc, e);
        SpanDataConcat(schema, e.st, c, i + 1, acc + e.result.value);
      }
    }
  }

  /** One field of the span extracted: its bytes join the accumulator, and the
      earlier span fields keep theirs. */
  lemma SpanDataMoves(schema: Schema, st: State, c: nat, i: nat, acc: Bytes, e: Step<Bytes>)
    requires WellFormed(schema) && IsCheckSum(schema, c) && i < |Span(schema, c)|
    requires forall x :: 0 <= x < i ==> schema[Span(schema, c)[x]].name in st.raw
    requires acc == RawConcat(schema, st, Span(schema, c)[..i])
    requires e == ExtractF(schema, st, Span(schema, c)[i]) && e.result.Ok?
    ensures forall x :: 0 <= x < i + 1 ==> schema[Span(schema, c)[x]].name in e.st.raw
    ensures acc + e.result.value == RawConcat(schema, e.st, Span(schema, c)[..i + 1])
    ensures SpanData(schema, st, c, i, acc) == SpanData(schema, e.st, c, i + 1, acc + e.result.value)
  {
    var span := Span(schema, c);
    RawConcatKept(schema, st, e.st, span[..i]);
    var pre := span[..i + 1];
    assert pre[..i] == span[..i];
  }

  /** Raw bytes that are kept give the same concatenation. */
  lemma {:induction false} RawConcatKept(schema: Schema, a: State, b: State, idx: seq<nat>)
    requires RawKept(a, b)
    requires forall x :: 0 <= x < |idx| ==> idx[x] < |schema| && schema[idx[x]].name in a.raw
    ensures RawConcat(schema, b, idx) == RawConcat(schema, a, idx)
    decreases |idx|
  {
    if |idx| > 0 {
      RawConcatKept(schema, a, b, idx[..|idx| - 1]);
    }
  }

  /** Replacing the raw bytes of a name outside the entries leaves their
      concatenation alone. */
  lemma {:induction false} RawConcatUpdate(schema: Schema, a: State, idx: seq<nat>, name: string, b: Bytes)
    requires forall x :: 0 <= x < |idx| ==> idx[x] < |schema| && schema[idx[x]].name in a.raw && schema[idx[x]].name != name
    ensures RawConcat(schema, a.(raw := a.raw[name := b]), idx) == RawConcat(schema, a, idx)
    decreases |idx|
  {
    if |idx| > 0 {
      RawConcatUpdate(schema, a, idx[..|idx| - 1], name, b);
    }
  }

  /** Assigning c its calculated value (update_encoded_value,
      steel/byte/fields/integrity.py:65-66) leaves it consistent with its
      span, when c is unsigned (the default) and no other checksum covers it. */
  lemma RecomputeConsistent(schema: Schema, st: State, c: nat)
    requires WellFormed(schema) && IsCheckSum(schema, c) && Covering(schema, c) == []
    requires !schema[c].spec.kind.field.signed
    ensures var u := UpdateEncodedValueF(schema, st, c);
      u.result.Ok? ==> Consistent(schema, u.st, c)
  {
    var kind := schema[c].spec.kind;
    var name := schema[c].name;
    var v := CalculatedF(schema, st, c);
    if v.result.Ok? {
      var span := Span(schema, c);
      assert span[..0] == [];
      SpanDataConcat(schema, st, c, 0, []);
      var x := v.result.value;
      N.UnsignedIntegerRoundTrip(kind.field, x);
      PlainIntegerSet(schema, v.st, c, x);
      var enc := N.IntegerEncode(kind.field, x).value;
      var s0 := v.st.(values := v.st.values[name := VInt(x)]);
      var s1 := s0.(raw := s0.raw[name := enc]);
      assert UpdateEncodedValueF(schema, st, c) == Step(Ok(()), s1);
      forall y | 0 <= y < |span|
        ensures schema[span[y]].name != name
      {
        assert span[y] < c;
      }
      RawConcatUpdate(schema, s0, span, name, enc);
      RawConcatKept(schema, v.st, s0, span);
      assert Calculated(kind, RawConcat(schema, s1, span)) == x;
    }
  }

  /** The byte sum after changing one byte. */
  lemma {:induction false} ByteSumUpdate(d: Bytes, i: nat, b: Byte)
    requires i < |d|
    ensures ByteSum(d[i := b]) == ByteSum(d) - d[i] + b
    decreases |d|
  {
    var n := |d| - 1;
    if i < n {
      assert d[i := b][..n] == d[..n][i := b];
      ByteSumUpdate(d[..n], i, b);
    } else {
      assert d[i := b][..n] == d[..n];
    }
  }

  /** With the byte sum as digest, changing any one byte of the data
      changes the calculated value: the sum moves by less than 256, and the
      mask keeps at least 8 bits. */
  lemma OneByteChangesSum(k: Kind, d: Bytes, i: nat, b: Byte)
    requires k.KCheckSum? && k.field.size >= 1 && i < |d| && b != d[i]
    requires forall x :: k.digest(x) == ByteSum(x)
    ensures Calculated(k, d[i := b]) != Calculated(k, d)
  {
    var m := PyInt.Pow2(8 * k.field.size);
    PyInt.Pow2Monotone(8, 8 * k.field.size);
    ByteSumUpdate(d, i, b);
    var s := ByteSum(d);
    var t := ByteSum(d[i := b]);
    PyInt.DistinctRemainders(t, s, m);
  }

  /** A checksum read over a span whose bytes differ in one place from those
      of a passing read fails with IntegrityError, the stored value being the
      same (steel/byte/fields/integrity.py:57-58; tests/byte/fields.py:296-299). */
  lemma AlteredSpanFails(schema: Schema, st: State, st2: State, k: nat, i: nat, b: Byte)
    requires WellFormed(schema) && IsCheckSum(schema, k) && HasRawBefore(schema, st, k) && HasRawBefore(schema, st2, k)
    requires schema[k].spec.kind.field.size >= 1 && forall x :: schema[k].spec.kind.digest(x) == ByteSum(x)
    requires st2.file == st.file
    requires var d := RawConcat(schema, st, Span(schema, k));
      i < |d| && b != d[i] && RawConcat(schema, st2, Span(schema, k)) == d[i := b]
    requires ReadCheckSum(schema, st, k).result.Ok?
    ensures ReadCheckSum(schema, st2, k).result == Err(IntegrityError)
  {
    OneByteChangesSum(schema[k].spec.kind, RawConcat(schema, st, Span(schema, k)), i, b);
  }

  /** A checksum read whose stored bytes differ from those of a passing read
      over the same span fails with IntegrityError, for an unsigned checksum
      (the default) (tests/byte/fields.py:313-316). */
  lemma AlteredStoredFails(schema: Schema, st: State, st2: State, k: nat)
    requires WellFormed(schema) && IsCheckSum(schema, k) && HasRawBefore(schema, st, k) && HasRawBefore(schema, st2, k)
    requires !schema[k].spec.kind.field.signed
    requires RawConcat(schema, st2, Span(schema, k)) == RawConcat(schema, st, Span(schema, k))
    requires var n := schema[k].spec.kind.field.size;
      var r1 := Read(st.file, n); var r2 := Read(st2.file, n);
      r1.Ok? && r2.Ok? && |r1.value.0| == n && |r2.value.0| == n && r1.value.0 != r2.value.0
    requires ReadCheckSum(schema, st, k).result.Ok?
    ensures ReadCheckSum(schema, st2, k).result == Err(IntegrityError)
  {
    var kind := schema[k].spec.kind;
    var f := kind.field;
    var b1 := Read(st.file, f.size).value.0;
    var b2 := Read(st2.file, f.size).value.0;
    assert N.IntegerDecode(f, b1) == Calculated(kind, RawConcat(schema, st, Span(schema, k)));
    if N.IntegerDecode(f, b2) == N.IntegerDecode(f, b1) {
      N.UnsignedDecodeInjective(f, b1, b2);
    }
  }

  // ---------------------------------------------------------------------------
  // The size hook

  /** Assigning an Integer or CheckSum field that no checksum covers stores
      the value, then its encoding if there is one, and nothing else. */
  lemma PlainIntegerSet(schema: Schema, st: State, i: nat, x: int)
    requires WellFormed(schema) && IsField(schema, i) && Covering(schema, i) == []
    requires schema[i].spec.kind.KInteger? || schema[i].spec.kind.KCheckSum?
    ensures var name := schema[i].name;
      var enc := N.IntegerEncode(schema[i].spec.kind.field, x);
      var st0 := st.(values := st.values[name := VInt(x)]);
      SetF(schema, st, i, VInt(x))
        == if enc.Err? then Step(Err(enc.error), st0) else Step(Ok(()), st0.(raw := st0.raw[name := enc.value]))
  {
    var kind := schema[i].spec.kind;
    var name := schema[i].name;
    var st0 := st.(values := st.values[name := VInt(x)]);
    assert EncodeK(kind, Unbound(SizeArgOf(kind)), VInt(x)) == N.IntegerEncode(kind.field, x);
    var enc := N.IntegerEncode(kind.field, x);
    assert EncodeBound(schema, st0, i, VInt(x)) == Step(enc, st0);
    if enc.Ok? {
      var st1 := st0.(raw := st0.raw[name := enc.value]);
      assert Hooks(schema, st1, i, 0) == Step(Ok(()), st1);
      assert AfterEncode(schema, st1, i, VInt(x)) == Hooks(schema, st1, i, 0);
    }
  }

  /** Assigning a field whose size names an unsigned Integer sibling sets the
      sibling to the length of the value, both its value and its raw bytes,
      when no checksum covers either (steel/fields/base.py:11-14;
      tests/byte/structures.py:44-55). */
  lemma SizeSiblingUpdated(schema: Schema, st: State, j: nat, v: Value)
    requires WellFormed(schema) && IsField(schema, j)
    requires SizeArgOf(schema[j].spec.kind).SizeOf?
    requires var i := EntryIndex(schema, SizeArgOf(schema[j].spec.kind).name);
      && i.Some? && schema[i.value].spec.kind.KInteger? && !schema[i.value].spec.kind.field.signed
      && Covering(schema, j) == [] && Covering(schema, i.value) == []
    ensures var r := SetF(schema, st, j, v);
      var i := EntryIndex(schema, SizeArgOf(schema[j].spec.kind).name).value;
      r.result.Ok? ==>
        && Len(v).Ok?
        && schema[i].name in r.st.values && r.st.values[schema[i].name] == VInt(Len(v).value)
        && schema[i].name in r.st.raw
        && N.IntegerDecode(schema[i].spec.kind.field, r.st.raw[schema[i].name]) == Len(v).value
        && schema[j].name in r.st.values && r.st.values[schema[j].name] == v
  {
    var name := schema[j].name;
    var i := EntryIndex(schema, SizeArgOf(schema[j].spec.kind).name).value;
    assert SizeRefOk(schema, j, SizeArgOf(schema[j].spec.kind));
    assert schema[i].name != name;
    var st0 := st.(values := st.values[name := v]);
    var e := EncodeBound(schema, st0, j, v);
    if e.result.Ok? {
      EncodeKeepsValue(schema, st0, j, v);
      var st1 := e.st.(raw := e.st.raw[name := e.result.value]);
      assert SetF(schema, st, j, v) == AfterEncode(schema, st1, j, v);
      var n := Len(v);
      if n.Ok? {
        var f := schema[i].spec.kind.field;
        PlainIntegerSet(schema, st1, i, n.value);
        var s := SetF(schema, st1, i, VInt(n.value));
        if s.result.Ok? {
          assert Hooks(schema, s.st, j, 0) == Step(Ok(()), s.st);
          N.UnsignedIntegerRoundTrip(f, n.value);
        }
      }
    }
  }

  /** The encoding of a value leaves the value just stored in place. */
  lemma EncodeKeepsValue(schema: Schema, st: State, j: nat, v: Value)
    requires WellFormed(schema) && IsField(schema, j)
    requires schema[j].name in st.values && st.values[schema[j].name] == v
    ensures var e := EncodeBound(schema, st, j, v);
      schema[j].name in e.st.values && e.st.values[schema[j].name] == v
  {
    var kind := schema[j].spec.kind;
    var arg := SizeArgOf(kind);
    if (kind.KString? || kind.KReserved?) && arg.SizeOf? {
      var i := EntryIndex(schema, arg.name);
      if i.Some? {
        assert SizeRefOk(schema, j, arg);
        GetKeepsValue(schema, st, i.value, schema[j].name);
      }
    }
  }

  /** A get of field i leaves alone the stored value of a name that is not
      that of i or of an entry before it. */
  lemma GetKeepsValue(schema: Schema, st: State, i: nat, name: string)
    requires WellFormed(schema) && IsField(schema, i)
    requires name in st.values && forall x :: 0 <= x <= i ==> schema[x].name != name
    ensures var g := GetF(schema, st, i);
      name in g.st.values && g.st.values[name] == st.values[name]
  {
    if schema[i].name !in st.raw {
      ScanKeepsOther(schema, st, 0, i, name);
    }
  }

  lemma {:induction false} ScanKeepsOther(schema: Schema, st: State, k: nat, j: nat, name: string)
    requires WellFormed(schema) && k <= j && IsField(schema, j) && HasRawBefore(schema, st, k)
    requires name in st.values && forall x :: k <= x <= j ==> schema[x].name != name
    ensures var r := ScanF(schema, st, k, j);
      name in r.st.values && r.st.values[name] == st.values[name]
    decreases j - k
  {
    if schema[k].name in st.raw {
      if k < j {
        ScanKeepsOther(schema, st, k + 1, j, name);
      }
    } else if schema[k].FieldEntry? {
      var s := ReadFieldF(schema, st, k);
      ReadFieldKeepsOther(schema, st, k, name);
      if s.result.Ok? && k < j {
        ScanKeepsOther(schema, s.st, k + 1, j, name);
      }
    }
  }

  /** Reading field k leaves alone the stored value of another name: a
      sibling that gives the size is only decoded when it has no value. */
  lemma ReadFieldKeepsOther(schema: Schema, st: State, k: nat, name: string)
    requires WellFormed(schema) && IsField(schema, k) && HasRawBefore(schema, st, k)
    requires name in st.values && name != schema[k].name
    ensures var r := ReadFieldF(schema, st, k);
      name in r.st.values && r.st.values[name] == st.values[name]
  {
    var kind := schema[k].spec.kind;
    if !kind.KCheckSum? {
      ScanSizeKeeps(schema, st, k, SizeArgOf(kind), name);
    }
  }

  // ---------------------------------------------------------------------------
  // validate

  /** out holds the failures of errors first, then at most n more, each a
      ValueError (IntegrityError included). */
  predicate Extends(errors: seq<Failure>, out: seq<Failure>, n: nat) {
    && |errors| <= |out| <= |errors| + n
    && out[..|errors|] == errors
    && (forall x :: |errors| <= x < |out| ==> out[x].error.IsValueError())
  }

  lemma ExtendsWider(errors: seq<Failure>, out: seq<Failure>, n: nat)
    requires Extends(errors, out, n)
    ensures Extends(errors, out, n + 1)
  {
  }

  lemma ExtendsAdded(errors: seq<Failure>, f: Failure, out: seq<Failure>, n: nat)
    requires f.error.IsValueError() && Extends(errors + [f], out, n)
    ensures Extends(errors, out, n + 1)
  {
    var e2 := errors + [f];
    assert out[..|errors|] == out[..|e2|][..|errors|];
    assert out[|errors|] == out[..|e2|][|errors|];
  }

  /** validate (steel/base.py:98-105) from entry k on: when it returns, the
      failures collected before k come first, and every failure added is a
      ValueError (IntegrityError included), one per entry at most. */
  lemma {:induction false} ValidateCollects(schema: Schema, st: State, k: nat, errors: seq<Failure>)
    requires WellFormed(schema) && k <= |schema|
    ensures var r := ValidateLoop(schema, st, k, errors);
      r.result.Ok? ==> Extends(errors, r.result.value, |schema| - k)
    decreases |schema| - k
  {
    if k < |schema| {
      var v := ValidateEntry(schema, st, k);
      var r := ValidateLoop(schema, st, k, errors);
      if v.result.Ok? {
        ValidateCollects(schema, v.st, k + 1, errors);
        if r.result.Ok? {
          ExtendsWider(errors, r.result.value, |schema| - (k + 1));
        }
      } else if v.result.error.IsValueError() {
        var f := Failure(schema[k].name, v.result.error);
        ValidateCollects(schema, v.st, k + 1, errors + [f]);
        if r.result.Ok? {
          ExtendsAdded(errors, f, r.result.value, |schema| - (k + 1));
        }
      }
    } else {
      assert errors[..|errors|] == errors;
    }
  }

  /** The converse, entry by entry: a field whose validation raises a
      ValueError (IntegrityError included) has its failure recorded right
      after the earlier ones; a field that validates adds nothing; any other
      error ends validate with that error. */
  lemma ValidateRecords(schema: Schema, st: State, k: nat, errors: seq<Failure>)
    requires WellFormed(schema) && k < |schema|
    ensures var v := ValidateEntry(schema, st, k); var r := ValidateLoop(schema, st, k, errors);
      v.result.Err? && v.result.error.IsValueError() && r.result.Ok? ==>
        |errors| < |r.result.value| && r.result.value[|errors|] == Failure(schema[k].name, v.result.error)
    ensures var v := ValidateEntry(schema, st, k);
      v.result.Ok? ==> ValidateLoop(schema, st, k, errors) == ValidateLoop(schema, v.st, k + 1, errors)
    ensures var v := ValidateEntry(schema, st, k);
      v.result.Err? && !v.result.error.IsValueError() ==> ValidateLoop(schema, st, k, errors) == Step(Err(v.result.error), v.st)
  {
    var v := ValidateEntry(schema, st, k);
    if v.result.Err? && v.result.error.IsValueError() {
      var f := Failure(schema[k].name, v.result.error);
      ValidateCollects(schema, v.st, k + 1, errors + [f]);
      var r := ValidateLoop(schema, st, k, errors);
      if r.result.Ok? {
        var e2 := errors + [f];
        assert r.result.value[..|e2|] == e2;
        assert r.result.value[|errors|] == r.result.value[..|e2|][|errors|];
      }
    }
  }

  // ---------------------------------------------------------------------------
  // A validate vector

  function OneByte(): N.IntegerField {
    N.IntegerField(1, false, N.BigEndian, N.TwosComplement)
  }

  /** A two-byte ASCII String `s`, a one-byte Integer `x`, and a one-byte
      CheckSum `c` over `x` with the default byte-sum digest. */
  function TextThenSummed(): (schema: Schema)
    ensures WellFormed(schema)
    ensures |schema| == 3 && IsCheckSum(schema, 2) && Span(schema, 2) == [1]
  {
    var s := FieldEntry("s", FieldSpec(KString(Fixed(2), S.Ascii, [0], [0]), None, []));
    var x := FieldEntry("x", FieldSpec(KInteger(OneByte()), None, []));
    var c := FieldEntry("c", FieldSpec(KCheckSum(OneByte(), Some("x"), Some("x"), ByteSum), None, []));
    var schema := [s, x, c];
    assert Span(schema, 2) == [1] by {
      SpanFromUnfold(schema, 2, Some("x"), Some("x"), 0, false);
      SpanFromUnfold(schema, 2, Some("x"), Some("x"), 1, false);
    }
    schema
  }

  /** The text "abc" in ASCII. */
  lemma AbcEncodes()
    ensures S.AsciiEncode("abc") == Ok([0x61, 0x62, 0x63])
  {
    assert S.IsAscii("abc");
    var e := S.AsciiEncode("abc").value;
    assert |e| == 3 && e[0] == 0x61 && e[1] == 0x62 && e[2] == 0x63;
    assert e == [0x61, 0x62, 0x63];
  }

  /** Read mode over 05 06, with "abc" assigned to the two-byte `s`: the
      value is kept and its encoding, three bytes, stored as it is. */
  lemma AbcAssigned()
    ensures var st0 := Fresh(Some(Source([5, 6], 0, Lenient)));
      SetAttrF(TextThenSummed(), st0, "s", VText("abc"))
        == Step(Ok(()), st0.(raw := map["s" := [0x61, 0x62, 0x63]], values := map["s" := VText("abc")]))
  {
    var schema := TextThenSummed();
    AbcEncodes();
    assert EntryIndex(schema, "s") == Some(0);
    assert Covering(schema, 0) == [] by {
      assert CoveringFrom(schema, 0, 3) == [];
      assert CoveringFrom(schema, 0, 2) == [];
    }
  }

  /** The state AbcAssigned leaves. */
  function AbcState(): State {
    Fresh(Some(Source([5, 6], 0, Lenient))).(raw := map["s" := [0x61, 0x62, 0x63]], values := map["s" := VText("abc")])
  }

  /** The state after `x` has been read: one byte consumed. */
  function SummandState(): State {
    var st := AbcState();
    st.(file := Source([5, 6], 1, Lenient), position := 1,
        raw := st.raw["x" := [5]], values := st.values["x" := VInt(5)])
  }

  /** `s` holds three bytes of text for two: a ValueError. */
  lemma ValidateTooLong()
    ensures ValidateEntry(TextThenSummed(), AbcState(), 0) == Step(Err(ValueError), AbcState())
  {
    AbcEncodes();
    assert EntryIndex(TextThenSummed(), "s") == Some(0);
  }

  /** `x` is read from the source: one byte, 05. */
  lemma SummandRead()
    ensures var st := AbcState();
      HasRawBefore(TextThenSummed(), st, 1)
      && ReadFieldF(TextThenSummed(), st, 1)
           == Step(Ok([5]), st.(file := Source([5, 6], 1, Lenient), position := 1, raw := st.raw["x" := [5]]))
  {
    var st := AbcState();
    assert st.file.Rest() == [5, 6] && [5, 6][..1] == [5];
    assert Read(st.file, 1) == Ok(([5], Source([5, 6], 1, Lenient)));
  }

  /** Getting `x` reads it and decodes 5. */
  lemma SummandGet()
    ensures GetF(TextThenSummed(), AbcState(), 1) == Step(Ok(VInt(5)), SummandState())
  {
    var schema := TextThenSummed();
    var st := AbcState();
    SummandRead();
    var r := ReadFieldF(schema, st, 1);
    assert ScanF(schema, st, 0, 1) == ScanF(schema, st, 1, 1);
    assert ScanF(schema, st, 1, 1) == Step(Ok([5]), r.st);
    assert N.BigEndianDecode(1, [5]) == 5;
  }

  /** The value 5 passes the checks of `x`. */
  lemma SummandChecks()
    ensures ValidateFieldF(TextThenSummed(), SummandState(), 1, VInt(5)) == Step(Ok(()), SummandState())
  {
    assert N.IntegerEncode(OneByte(), 5).Ok?;
  }

  /** `x` validates. */
  lemma ValidateSummand()
    ensures ValidateEntry(TextThenSummed(), AbcState(), 1) == Step(Ok(()), SummandState())
  {
    assert EntryIndex(TextThenSummed(), "x") == Some(1);
    SummandGet();
    SummandChecks();
  }

  /** The checksum `c` reads 06 where the byte sum of `x` is 5. */
  lemma AlteredCheckSum()
    ensures HasRawBefore(TextThenSummed(), SummandState(), 2)
      && ReadCheckSum(TextThenSummed(), SummandState(), 2).result == Err(IntegrityError)
  {
    var schema := TextThenSummed();
    var st := SummandState();
    assert st.file.Rest() == [6] && [6][..1] == [6];
    assert Read(st.file, 1) == Ok(([6], Source([5, 6], 2, Lenient)));
    assert RawConcat(schema, st, [1]) == [5] by {
      assert [1][..0] == [];
    }
    assert ByteSum([5]) == 5 by {
      assert [5][..0] == [];
    }
    assert N.BigEndianDecode(1, [6]) == 6;
  }

  /** Getting `c` raises the IntegrityError. */
  lemma AlteredGet()
    ensures GetF(TextThenSummed(), SummandState(), 2).result == Err(IntegrityError)
  {
    var schema := TextThenSummed();
    var st := SummandState();
    AlteredScan();
    ReadSave.ScanSkip(schema, st, 0, 2);
  }

  /** The scan of _extract reaching `c` reads it and raises the
      IntegrityError. */
  lemma AlteredScan()
    ensures HasRawBefore(TextThenSummed(), SummandState(), 2)
    ensures ScanF(TextThenSummed(), SummandState(), 2, 2).result == Err(IntegrityError)
  {
    var schema := TextThenSummed();
    var st := SummandState();
    AlteredCheckSum();
    assert schema[2].name == "c" && "c" !in st.raw && schema[2].FieldEntry?;
    var r := ReadFieldF(schema, st, 2);
    assert r.result == Err(IntegrityError);
  }

  /** `c` fails validation with IntegrityError. */
  lemma ValidateAltered()
    ensures ValidateEntry(TextThenSummed(), SummandState(), 2).result == Err(IntegrityError)
  {
    assert EntryIndex(TextThenSummed(), "c") == Some(2);
    AlteredGet();
  }

  /** One pass of the loop of validate, v being the entry's validation. */
  lemma ValidateLoopNext(schema: Schema, st: State, k: nat, errors: seq<Failure>, v: Step<()>)
    requires WellFormed(schema) && k < |schema| && v == ValidateEntry(schema, st, k)
    ensures ValidateLoop(schema, st, k, errors)
      == if v.result.Ok? then ValidateLoop(schema, v.st, k + 1, errors)
         else if v.result.error.IsValueError() then ValidateLoop(schema, v.st, k + 1, errors + [Failure(schema[k].name, v.result.error)])
         else Step(Err(v.result.error), v.st)
  {
  }

  /** A failing entry adds its failure and the loop goes on. */
  lemma ValidateLoopFails(schema: Schema, st: State, k: nat, errors: seq<Failure>, e: Error, st1: State)
    requires WellFormed(schema) && k < |schema| && e.IsValueError()
    requires ValidateEntry(schema, st, k) == Step(Err(e), st1)
    ensures ValidateLoop(schema, st, k, errors) == ValidateLoop(schema, st1, k + 1, errors + [Failure(schema[k].name, e)])
  {
    ValidateLoopNext(schema, st, k, errors, Step(Err(e), st1));
  }

  /** A passing entry adds nothing. */
  lemma ValidateLoopPasses(schema: Schema, st: State, k: nat, errors: seq<Failure>, st1: State)
    requires WellFormed(schema) && k < |schema|
    requires ValidateEntry(schema, st, k) == Step(Ok(()), st1)
    ensures ValidateLoop(schema, st, k, errors) == ValidateLoop(schema, st1, k + 1, errors)
  {
    ValidateLoopNext(schema, st, k, errors, Step(Ok(()), st1));
  }

  /** The first two entries of ThreeEntriesCollected: the first failure is
      recorded and the second entry adds nothing. */
  lemma FirstTwoEntries(schema: Schema, st: State, st2: State)
    requires WellFormed(schema) && |schema| == 3
    requires ValidateEntry(schema, st, 0) == Step(Err(ValueError), st)
    requires ValidateEntry(schema, st, 1) == Step(Ok(()), st2)
    ensures ValidateF(schema, st) == ValidateLoop(schema, st2, 2, [Failure(schema[0].name, ValueError)])
  {
    var f1 := Failure(schema[0].name, ValueError);
    ValidateLoopFails(schema, st, 0, [], ValueError, st);
    assert [] + [f1] == [f1];
    ValidateLoopPasses(schema, st, 1, [f1], st2);
  }

  /** A three-entry validate whose first entry fails with a ValueError, whose
      second passes and whose third fails with IntegrityError collects the
      two failures in order. */
  lemma ThreeEntriesCollected(schema: Schema, st: State, st2: State)
    requires WellFormed(schema) && |schema| == 3
    requires ValidateEntry(schema, st, 0) == Step(Err(ValueError), st)
    requires ValidateEntry(schema, st, 1) == Step(Ok(()), st2)
    requires ValidateEntry(schema, st2, 2).result == Err(IntegrityError)
    ensures ValidateF(schema, st).result == Ok([Failure(schema[0].name, ValueError), Failure(schema[2].name, IntegrityError)])
  {
    var f1 := Failure(schema[0].name, ValueError);
    var f2 := Failure(schema[2].name, IntegrityError);
    FirstTwoEntries(schema, st, st2);
    var v2 := ValidateEntry(schema, st2, 2);
    assert v2 == Step(Err(IntegrityError), v2.st);
    ValidateLoopFails(schema, st2, 2, [f1], IntegrityError, v2.st);
    assert [f1] + [f2] == [f1, f2];
    assert ValidateLoop(schema, v2.st, 3, [f1, f2]) == Step(Ok([f1, f2]), v2.st);
  }

  /** validate on a structure read from 05 06 with "abc" assigned to `s`:
      both failures are collected, in declaration order, the second an
      IntegrityError. */
  lemma TwoFailuresCollected()
    ensures ValidateF(TextThenSummed(), AbcState()).result == Ok([Failure("s", ValueError), Failure("c", IntegrityError)])
  {
    ValidateTooLong();
    ValidateSummand();
    ValidateAltered();
    ThreeEntriesCollected(TextThenSummed(), AbcState(), SummandState());
  }
}
