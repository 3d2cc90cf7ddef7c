/** Feeding a structure its bytes in pieces (steel/base.py:33-55).

    write keeps what the last field that ran out of data had not consumed in
    a carry buffer, so that the next write can go on where this one
    stopped.  As written, the loop does not stop at that field: it goes on to
    the later fields with the source at its end, and a later field that
    needs no bytes succeeds there, clears the carry buffer and moves the
    position past the bytes that were put back.  Written in two pieces, a
    structure then differs from the same bytes written at once. */
module WriteSplit {
  import opened Results
  import opened Streams
  import opened Values
  import opened Kinds
  import opened Schema
  import opened Engine
  import N = Numbers
  import Seqs
  import S = Strings

  /** A two-byte integer followed by an empty byte string. */
  function ShortThenEmpty(): (schema: Schema)
    ensures WellFormed(schema)
  {
    var a := FieldEntry("a", FieldSpec(KInteger(N.IntegerField(2, false, N.BigEndian, N.TwosComplement)), None, []));
    var b := FieldEntry("b", FieldSpec(KBytes(Fixed(0)), None, []));
    [a, b]
  }

  /** As written: writing 2a and then 00 leaves "a" undecoded, with 00 in the
      carry buffer and the position at 1, while writing 2a 00 at once decodes
      "a" as 0x2a00 and ends at position 2. */
  lemma SplitWriteAsWritten()
    ensures var schema := ShortThenEmpty();
      var one := WriteF(schema, Fresh(None), [0x2a]);
      var two := WriteF(schema, one.st, [0x00]);
      var whole := WriteF(schema, Fresh(None), [0x2a, 0x00]);
      && one.result.Ok? && two.result.Ok? && whole.result.Ok?
      && "a" !in two.st.values && two.st.buffer == [0x00] && two.st.position == 1
      && whole.st.values == map["a" := VInt(0x2a00), "b" := VBytes([])]
      && whole.st.buffer == [] && whole.st.position == 2
  {
    AsWrittenFirst();
    AsWrittenSecond();
    AsWrittenWhole();
  }

  /** write(2a): "a" runs out of data and 2a goes back to the carry buffer,
      then "b" reads nothing from the exhausted source and clears it. */
  lemma AsWrittenFirst()
    ensures var one := WriteF(ShortThenEmpty(), Fresh(None), [0x2a]);
      && one.result.Ok? && one.st.values == map["b" := VBytes([])]
      && one.st.buffer == [] && one.st.position == 1
  {
    var schema := ShortThenEmpty();
    var src := Source([0x2a], 0, Strict);
    assert src.Rest() == [0x2a];
    assert WriteRead(schema, 0, src).result == Err(EOFError);
    var empty := Source([0x2a], 1, Strict);
    assert empty.Rest() == [];
    var st0 := Fresh(None);
    var st1 := st0.(buffer := [0x2a]);
    assert WriteF(schema, st0, [0x2a]) == WriteLoop(schema, st1, 1, empty, 0);
    var rb := WriteRead(schema, 1, empty);
    assert rb.result == Ok(([], VBytes([]))) && rb.after.pos == 1;
    var st2 := st1.(raw := st1.raw["b" := []], values := st1.values["b" := VBytes([])], buffer := []);
    assert WriteLoop(schema, st1, 1, empty, 0) == WriteLoop(schema, st2, 2, rb.after, 1);
  }

  /** write(00) after write(2a): "a" runs out of data again and "b" already
      has its value. */
  lemma AsWrittenSecond()
    ensures var one := WriteF(ShortThenEmpty(), Fresh(None), [0x2a]);
      var two := WriteF(ShortThenEmpty(), one.st, [0x00]);
      && two.result.Ok? && "a" !in two.st.values && two.st.buffer == [0x00] && two.st.position == 1
  {
    AsWrittenFirst();
    var schema := ShortThenEmpty();
    var src := Source([0x00], 0, Strict);
    assert src.Rest() == [0x00];
    assert WriteRead(schema, 0, src).result == Err(EOFError);
  }

  /** write(2a 00) decodes both fields. */
  lemma AsWrittenWhole()
    ensures var whole := WriteF(ShortThenEmpty(), Fresh(None), [0x2a, 0x00]);
      && whole.result.Ok? && whole.st.values == map["a" := VInt(0x2a00), "b" := VBytes([])]
      && whole.st.buffer == [] && whole.st.position == 2
  {
    var schema := ShortThenEmpty();
    var f := N.IntegerField(2, false, N.BigEndian, N.TwosComplement);
    assert N.IntegerDecode(f, [0x2a, 0x00]) == 0x2a00;
    var src := Source([0x2a, 0x00], 0, Strict);
    assert src.Rest() == [0x2a, 0x00];
    assert src.Rest()[..2] == [0x2a, 0x00];
    var ra := WriteRead(schema, 0, src);
    assert ra.result == Ok(([0x2a, 0x00], VInt(0x2a00))) && ra.after.pos == 2;
    var st0 := Fresh(None);
    var st1 := st0.(raw := st0.raw["a" := [0x2a, 0x00]], values := st0.values["a" := VInt(0x2a00)], buffer := []);
    var rb := WriteRead(schema, 1, ra.after);
    assert rb.result == Ok(([], VBytes([]))) && rb.after.pos == 2;
    var st2 := st1.(raw := st1.raw["b" := []], values := st1.values["b" := VBytes([])], buffer := []);
    assert WriteLoop(schema, st1, 1, ra.after, 2) == WriteLoop(schema, st2, 2, rb.after, 2);
    assert WriteF(schema, st0, [0x2a, 0x00]) == WriteLoop(schema, st1, 1, ra.after, 2);
    assert st2.values == map["a" := VInt(0x2a00), "b" := VBytes([])];
  }

  /** Corrected on the same bytes: the first write stops at "a" and keeps 2a
      in the carry buffer, so the second write ends where the whole write
      does. */
  lemma SplitWriteFixedExample()
    ensures var schema := ShortThenEmpty();
      var one := WriteFixed(schema, Fresh(None), [0x2a]);
      var two := WriteFixed(schema, one.st, [0x00]);
      var whole := WriteFixed(schema, Fresh(None), [0x2a, 0x00]);
      && one.result.Ok? && one.st.buffer == [0x2a] && one.st.position == 0
      && two == whole
      && whole.st.values == map["a" := VInt(0x2a00), "b" := VBytes([])]
  {
    var schema := ShortThenEmpty();
    var f := N.IntegerField(2, false, N.BigEndian, N.TwosComplement);
    assert N.IntegerDecode(f, [0x2a, 0x00]) == 0x2a00;
    var one := WriteFixed(schema, Fresh(None), [0x2a]);
    assert one.st == Fresh(None).(buffer := [0x2a]);
    assert one.st.buffer + [0x00] == [0x2a, 0x00];
    var src := Source([0x2a, 0x00], 0, Strict);
    assert src.Rest() == [0x2a, 0x00];
    assert src.Rest()[..2] == [0x2a, 0x00];
    var ra := WriteRead(schema, 0, src);
    assert ra.result == Ok(([0x2a, 0x00], VInt(0x2a00)));
    var rb := WriteRead(schema, 1, ra.after);
    assert rb.result == Ok(([], VBytes([])));
  }

  // ---------------------------------------------------------------------------
  // Reading from a prefix of the data

  /** A field whose read, on a prefix of the data, either runs out of data or
      does what it does on the whole: every kind whose fixed sizes are not
      negative (a negative size reads everything there is). */
  predicate Incremental(k: Kind)
    decreases k
  {
    match k
    case KBytes(size) => !size.Fixed? || size.n >= 0
    case KReserved(size) => !size.Fixed? || size.n >= 0
    case KString(size, _, _, _) => !size.Fixed? || size.n >= 0
    case KList(e, _) => Incremental(e)
    case _ => true
  }

  ghost predicate AllIncremental(schema: Schema) {
    forall k: nat :: IsField(schema, k) ==> Incremental(schema[k].spec.kind)
  }

  /** Two strict sources (EOFBytesIO) of which the second holds what the
      first holds, followed by e. */
  ghost predicate Ext(s1: Source, s2: Source, e: Bytes) {
    && s1.mode == Strict && s2.mode == Strict
    && s1.pos <= |s1.data| && s2.pos <= |s2.data|
    && s2.Rest() == s1.Rest() + e
  }

  /** A read on s2 gave what the read on s1 gave, consumed the same bytes,
      and left the same bytes followed by e. */
  ghost predicate SameRead<T>(r1: ReadOut<T>, r2: ReadOut<T>, s1: Source, s2: Source, e: Bytes) {
    && r2.result == r1.result
    && (r1.result.Ok? ==> Ext(r1.after, r2.after, e) && r1.after.data == s1.data && r2.after.data == s2.data)
  }

  /** A strict read of n bytes: when the first source has them, the second
      gives the same bytes. */
  lemma ReadExt(s1: Source, s2: Source, e: Bytes, n: int)
    requires Ext(s1, s2, e) && (e == [] || n >= 0)
    ensures var r1 := Read(s1, n);
      var r2 := Read(s2, n);
      (e == [] || r1 != Err(EOFError)) ==>
        && (r1.Err? ==> r2 == r1)
        && (r1.Ok? ==> r2.Ok? && r2.value.0 == r1.value.0 && Ext(r1.value.1, r2.value.1, e))
  {
    var r1 := Read(s1, n);
    var rest1 := s1.Rest();
    var rest2 := s2.Rest();
    if r1.Ok? && (e == [] || r1 != Err(EOFError)) {
      var take := if n < 0 then |rest1| else Min(n, |rest1|);
      ReadTakes(s1, n);
      ReadTakes(s2, n);
      Seqs.SplitInFirst(rest1, e, take);
    }
  }

  lemma FieldReadExt(size: Resolved, s1: Source, s2: Source, e: Bytes)
    requires Ext(s1, s2, e) && (e == [] || !size.RInt? || size.n >= 0)
    ensures var r1 := FieldRead(size, s1);
      (e == [] || r1.result != Err(EOFError)) ==> SameRead(r1, FieldRead(size, s2), s1, s2, e)
  {
    if size.RInt? {
      ReadExt(s1, s2, e, size.n);
    }
  }

  lemma {:induction false} ReadTerminatedExt(s1: Source, s2: Source, e: Bytes, terminator: Bytes, acc: Bytes)
    requires Ext(s1, s2, e)
    ensures var r1 := S.ReadTerminated(s1, terminator, acc);
      var r2 := S.ReadTerminated(s2, terminator, acc);
      (e == [] || r1 != Err(EOFError)) ==>
        && (r1.Err? ==> r2 == r1)
        && (r1.Ok? ==> r2.Ok? && r2.value.0 == r1.value.0 && Ext(r1.value.1, r2.value.1, e))
    decreases |s1.Rest()|
  {
    var r1 := S.ReadTerminated(s1, terminator, acc);
    if e == [] || r1 != Err(EOFError) {
      var step1 := Read(s1, 1);
      ReadExt(s1, s2, e, 1);
      if step1.Ok? && |step1.value.0| > 0 && step1.value.0 != terminator {
        ReadTerminatedExt(step1.value.1, Read(s2, 1).value.1, e, terminator, acc + step1.value.0);
      }
    }
  }

  lemma LiftExt(r1: Result<(Bytes, Source)>, r2: Result<(Bytes, Source)>, s1: Source, s2: Source, e: Bytes)
    requires r1.Err? ==> r2 == r1
    requires r1.Ok? ==> r2.Ok? && r2.value.0 == r1.value.0 && Ext(r1.value.1, r2.value.1, e)
                        && r1.value.1.data == s1.data && r2.value.1.data == s2.data
    ensures SameRead(Lift(r1, s1), Lift(r2, s2), s1, s2, e)
  {
  }

  lemma {:induction false} KReadExt(k: Kind, s1: Source, s2: Source, e: Bytes)
    requires k.Valid() && (e == [] || Incremental(k)) && Ext(s1, s2, e)
    ensures var size := Unbound(SizeArgOf(k));
      var r1 := KRead(k, size, s1);
      (e == [] || r1.result != Err(EOFError)) ==> SameRead(r1, KRead(k, size, s2), s1, s2, e)
    decreases k, 1, 0
  {
    var size := Unbound(SizeArgOf(k));
    match k
    case KInteger(f) => FieldReadExt(size, s1, s2, e);
    case KFixedInteger(fx) => FieldReadExt(size, s1, s2, e);
    case KCheckSum(f, _, _, _) => FieldReadExt(size, s1, s2, e);
    case KBytes(_) => FieldReadExt(size, s1, s2, e);
    case KReserved(_) => FieldReadExt(size, s1, s2, e);
    case KString(_, codec, padding, terminator) =>
      if size.RObject? {
        FieldReadExt(size, s1, s2, e);
      } else if size.RInt? {
        ReadExt(s1, s2, e, size.n);
        if e == [] || Read(s1, size.n) != Err(EOFError) {
          LiftExt(Read(s1, size.n), Read(s2, size.n), s1, s2, e);
        }
      } else {
        ReadTerminatedExt(s1, s2, e, terminator, []);
        if e == [] || S.ReadTerminated(s1, terminator, []) != Err(EOFError) {
          LiftExt(S.ReadTerminated(s1, terminator, []), S.ReadTerminated(s2, terminator, []), s1, s2, e);
        }
      }
    case KLengthIndexed(prefix, _) =>
      if prefix.Some? {
        var r1 := S.LengthIndexedRead(prefix, s1);
        if e == [] || r1 != Err(EOFError) {
          ReadExt(s1, s2, e, prefix.value);
          var p1 := Read(s1, prefix.value);
          if p1.Ok? {
            var p2 := Read(s2, prefix.value);
            var n := N.IntegerDecode(S.LengthPrefixField(prefix.value), p1.value.0);
            ReadExt(p1.value.1, p2.value.1, e, n);
          }
          LiftExt(r1, S.LengthIndexedRead(prefix, s2), s1, s2, e);
        }
      }
    case KFixedString(fs, _) =>
      ReadExt(s1, s2, e, fs.Size());
    case KList(el, _) =>
      if size.RInt? {
        ListStepsExt(el, if size.n < 0 then 0 else size.n, s1, s2, e, [], []);
      }
  }

  lemma {:induction false} ReadValueExt(k: Kind, s1: Source, s2: Source, e: Bytes)
    requires k.Valid() && (e == [] || Incremental(k)) && Ext(s1, s2, e)
    ensures var size := Unbound(SizeArgOf(k));
      var r1 := ReadValue(k, size, s1);
      (e == [] || r1.result != Err(EOFError)) ==> SameRead(r1, ReadValue(k, size, s2), s1, s2, e)
    decreases k, 2, 0
  {
    if k.KCheckSum? {
      FieldReadExt(RInt(k.field.size), s1, s2, e);
    } else {
      KReadExt(k, s1, s2, e);
    }
  }

  lemma {:induction false} ListStepsExt(el: Kind, m: nat, s1: Source, s2: Source, e: Bytes, ab: Bytes, av: seq<Value>)
    requires el.Valid() && (e == [] || Incremental(el)) && Ext(s1, s2, e)
    ensures var r1 := ListSteps(el, m, s1, ab, av);
      (e == [] || r1.result != Err(EOFError)) ==> SameRead(r1, ListSteps(el, m, s2, ab, av), s1, s2, e)
    decreases el, 3, m
  {
    if m > 0 {
      var o1 := ReadValue(el, Unbound(SizeArgOf(el)), s1);
      var o2 := ReadValue(el, Unbound(SizeArgOf(el)), s2);
      ReadValueExt(el, s1, s2, e);
      if o1.result.Ok? {
        ListStepsExt(el, m - 1, o1.after, o2.after, e, ab + o1.result.value.0, av + [o1.result.value.1]);
      }
    }
  }

  /** What write reads for one field, on a prefix of the data. */
  lemma WriteReadExt(schema: Schema, k: nat, s1: Source, s2: Source, e: Bytes)
    requires WellFormed(schema) && IsField(schema, k)
    requires (e == [] || Incremental(schema[k].spec.kind)) && Ext(s1, s2, e)
    ensures var r1 := WriteRead(schema, k, s1);
      (e == [] || r1.result != Err(EOFError)) ==> SameRead(r1, WriteRead(schema, k, s2), s1, s2, e)
  {
    var kind := schema[k].spec.kind;
    if kind.KCheckSum? {
      FieldReadExt(RInt(kind.field.size), s1, s2, e);
    } else {
      ReadValueExt(kind, s1, s2, e);
    }
  }

  // ---------------------------------------------------------------------------
  // The write loop

  /** Some entry from k on has no value yet, so the loop reads at least once
      more before it can finish. */
  ghost predicate Pending(schema: Schema, st: State, k: nat) {
    exists j :: k <= j < |schema| && schema[j].name !in st.values
  }

  /** Entries that already have values are skipped. */
  lemma {:induction false} SkipDecoded(schema: Schema, st: State, i: nat, k: nat, file: Source, last: nat)
    requires WellFormed(schema) && i <= k <= |schema|
    requires forall x :: i <= x < k ==> schema[x].name in st.values
    ensures WriteFixedLoop(schema, st, i, file, last) == WriteFixedLoop(schema, st, k, file, last)
    decreases k - i
  {
    if i < k {
      SkipOne(schema, st, i, file, last);
      SkipDecoded(schema, st, i + 1, k, file, last);
    }
  }

  lemma SkipOne(schema: Schema, st: State, i: nat, file: Source, last: nat)
    requires WellFormed(schema) && i < |schema| && schema[i].name in st.values
    ensures WriteFixedLoop(schema, st, i, file, last) == WriteFixedLoop(schema, st, i + 1, file, last)
  {
  }

  /** Two runs of the loop over sources holding the same bytes end alike:
      the same result, raw bytes and values, and on success the same state,
      once the positions agree on where the data ends and the carry
      buffers agree or are about to be replaced. */
  lemma {:induction false} Lockstep(schema: Schema, s1: State, s2: State, k: nat, f1: Source, f2: Source)
    requires WellFormed(schema) && k <= |schema|
    requires Ext(f1, f2, [])
    requires s1.raw == s2.raw && s1.values == s2.values && s1.file == s2.file
    requires s1.position + |f1.data| == s2.position + |f2.data|
    requires s1.buffer == s2.buffer || Pending(schema, s1, k)
    ensures Alike(WriteFixedLoop(schema, s1, k, f1, f1.pos), WriteFixedLoop(schema, s2, k, f2, f2.pos))
    decreases |schema| - k
  {
    if k == |schema| {
      LockstepEnd(schema, s1, s2, f1, f2);
    } else if schema[k].name in s1.values {
      if s1.buffer != s2.buffer {
        var j :| k <= j < |schema| && schema[j].name !in s1.values;
        assert j != k;
      }
      Lockstep(schema, s1, s2, k + 1, f1, f2);
    } else if schema[k].FieldEntry? {
      WriteReadExt(schema, k, f1, f2, []);
      var o1 := WriteRead(schema, k, f1);
      var o2 := WriteRead(schema, k, f2);
      if o1.result.Ok? {
        var name := schema[k].name;
        var t1 := s1.(raw := s1.raw[name := o1.result.value.0], values := s1.values[name := o1.result.value.1], buffer := []);
        var t2 := s2.(raw := s2.raw[name := o2.result.value.0], values := s2.values[name := o2.result.value.1], buffer := []);
        Lockstep(schema, t1, t2, k + 1, o1.after, o2.after);
        ReadStep(schema, s1, k, f1, o1, t1);
        ReadStep(schema, s2, k, f2, o2, t2);
      } else {
        LockstepFails(schema, s1, s2, k, f1, f2, o1.result.error);
      }
    }
  }

  lemma LockstepEnd(schema: Schema, s1: State, s2: State, f1: Source, f2: Source)
    requires WellFormed(schema)
    requires Ext(f1, f2, [])
    requires s1.raw == s2.raw && s1.values == s2.values && s1.file == s2.file
    requires s1.position + |f1.data| == s2.position + |f2.data|
    requires s1.buffer == s2.buffer || Pending(schema, s1, |schema|)
    ensures Alike(WriteFixedLoop(schema, s1, |schema|, f1, f1.pos), WriteFixedLoop(schema, s2, |schema|, f2, f2.pos))
  {
    assert f2.Rest() == f1.Rest() + [];
    assert !Pending(schema, s1, |schema|);
  }

  /** A read that fails ends both runs: running out of data keeps the same
      bytes in both carry buffers, any other error is raised in both. */
  lemma LockstepFails(schema: Schema, s1: State, s2: State, k: nat, f1: Source, f2: Source, e: Error)
    requires WellFormed(schema) && k < |schema| && schema[k].FieldEntry? && schema[k].name !in s1.values
    requires Ext(f1, f2, [])
    requires s1.raw == s2.raw && s1.values == s2.values && s1.file == s2.file
    requires s1.position + |f1.data| == s2.position + |f2.data|
    requires WriteRead(schema, k, f1).result == Err(e) && WriteRead(schema, k, f2).result == Err(e)
    ensures Alike(WriteFixedLoop(schema, s1, k, f1, f1.pos), WriteFixedLoop(schema, s2, k, f2, f2.pos))
  {
    if e == EOFError {
      OutOfData(schema, s1, k, f1);
      OutOfData(schema, s2, k, f2);
      assert f2.Rest() == f1.Rest() + [];
    } else {
      Raises(schema, s1, k, f1);
      Raises(schema, s2, k, f2);
    }
  }

  /** The field at k runs out of data: the write ends, the carry buffer holds
      what the source still holds, and the position counts what came before. */
  lemma OutOfData(schema: Schema, st: State, k: nat, f: Source)
    requires WellFormed(schema) && k < |schema| && schema[k].FieldEntry? && schema[k].name !in st.values
    requires f.mode == Strict && f.pos <= |f.data|
    requires WriteRead(schema, k, f).result == Err(EOFError)
    ensures WriteFixedLoop(schema, st, k, f, f.pos) == Step(Ok(()), st.(buffer := f.Rest(), position := st.position + |f.data| - |f.Rest()|))
  {
    assert Source(f.data, f.pos, Strict) == f;
  }

  /** The field at k fails otherwise: the write raises that error. */
  lemma Raises(schema: Schema, st: State, k: nat, f: Source)
    requires WellFormed(schema) && k < |schema| && schema[k].FieldEntry? && schema[k].name !in st.values
    requires WriteRead(schema, k, f).result.Err? && WriteRead(schema, k, f).result.error != EOFError
    ensures WriteFixedLoop(schema, st, k, f, f.pos) == Step(Err(WriteRead(schema, k, f).result.error), st)
  {
  }

  /** Same result, raw bytes and values, and on success the same state. */
  ghost predicate Alike(r1: Step<()>, r2: Step<()>) {
    && r1.result == r2.result && r1.st.raw == r2.st.raw && r1.st.values == r2.st.values
    && (r1.result.Ok? ==> r1.st == r2.st)
  }

  /** A successful read of the field at k stores its bytes and value and
      clears the carry buffer. */
  lemma ReadStep(schema: Schema, st: State, k: nat, f: Source, o: ReadOut<(Bytes, Value)>, t: State)
    requires WellFormed(schema) && k < |schema| && schema[k].name !in st.values && schema[k].FieldEntry?
    requires o == WriteRead(schema, k, f) && o.result.Ok?
    requires t == st.(raw := st.raw[schema[k].name := o.result.value.0],
                      values := st.values[schema[k].name := o.result.value.1], buffer := [])
    ensures WriteFixedLoop(schema, st, k, f, f.pos) == WriteFixedLoop(schema, t, k + 1, o.after, o.after.pos)
  {
  }

  /** The first write and the whole write run alike while the first one's
      reads succeed; from the field that ran out of data on, the second
      write and the whole write run alike. */
  lemma {:induction false} PrefixRun(schema: Schema, s: State, k: nat, f1: Source, f2: Source, y: Bytes)
    requires WellFormed(schema) && AllIncremental(schema) && k <= |schema|
    requires Ext(f1, f2, y) && |f2.data| == |f1.data| + |y|
    requires forall i :: 0 <= i < k ==> schema[i].name in s.values
    ensures var a := WriteFixedLoop(schema, s, k, f1, f1.pos);
      var b := WriteFixedLoop(schema, a.st, 0, Source(a.st.buffer + y, 0, Strict), 0);
      var c := WriteFixedLoop(schema, s, k, f2, f2.pos);
      a.result.Ok? ==>
        && b.result == c.result && b.st.raw == c.st.raw && b.st.values == c.st.values
        && (b.result.Ok? ==> b.st == c.st)
    decreases |schema| - k
  {
    var a := WriteFixedLoop(schema, s, k, f1, f1.pos);
    var g := Source(a.st.buffer + y, 0, Strict);
    if k == |schema| {
      SkipDecoded(schema, a.st, 0, |schema|, g, 0);
      assert a.st.(position := a.st.position + 0) == a.st;
    } else if schema[k].name in s.values {
      PrefixRun(schema, s, k + 1, f1, f2, y);
    } else if schema[k].FieldEntry? {
      WriteReadExt(schema, k, f1, f2, y);
      var o1 := WriteRead(schema, k, f1);
      var o2 := WriteRead(schema, k, f2);
      if o1.result.Ok? {
        var name := schema[k].name;
        var t := s.(raw := s.raw[name := o1.result.value.0], values := s.values[name := o1.result.value.1], buffer := []);
        PrefixRun(schema, t, k + 1, o1.after, o2.after, y);
      } else if o1.result.error == EOFError {
        assert Source(f1.data, f1.pos, Strict) == f1;
        assert a.st == s.(buffer := f1.Rest(), position := s.position + f1.pos);
        SkipDecoded(schema, a.st, 0, k, g, 0);
        assert g.Rest() == f2.Rest() + [];
        Lockstep(schema, a.st, s, k, g, f2);
      }
    }
  }

  /** Corrected write: when the first write succeeds, writing x and then y
      ends like writing x + y at once; on success the whole state agrees,
      and otherwise the same error is raised over the same raw bytes and
      values. */
  lemma WriteInPieces(schema: Schema, st: State, x: Bytes, y: Bytes)
    requires WellFormed(schema) && AllIncremental(schema)
    ensures var one := WriteFixed(schema, st, x);
      var two := WriteFixed(schema, one.st, y);
      var whole := WriteFixed(schema, st, x + y);
      one.result.Ok? ==>
        && two.result == whole.result && two.st.raw == whole.st.raw && two.st.values == whole.st.values
        && (two.result.Ok? ==> two.st == whole.st)
  {
    if st.file.mode == Unreadable {
      var f1 := Source(st.buffer + x, 0, Strict);
      var f2 := Source(st.buffer + (x + y), 0, Strict);
      Seqs.Assoc(st.buffer, x, y);
      PrefixRun(schema, st, 0, f1, f2, y);
    }
  }
}
