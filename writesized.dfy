/** When write as written agrees with write as intended (steel/base.py:33-55).

    After a field runs out of data the loop as written goes on to the later
    fields with the source at its end.  When every field needs at least one
    byte, each of them runs out of data again there and puts the same bytes
    back into the carry buffer, so the write ends as if it had stopped at the
    first field that ran out: for such schemas write as written is write as
    intended, and writing in pieces is writing at once. */
module WriteSized {
  import opened Results
  import opened Streams
  import opened Values
  import opened Kinds
  import opened Schema
  import opened Engine
  import ReadSave
  import WriteSplit

  /** A field read that needs at least one byte from the source: a number of
      bytes fixed at declaration of at least one, a length prefix of at least
      one byte, or at least one element that needs one. */
  predicate SizedRead(k: Kind)
    decreases k
  {
    match k
    case KInteger(f) => f.size >= 1
    case KFixedInteger(fx) => fx.field.size >= 1
    case KCheckSum(f, _, _, _) => f.size >= 1
    case KString(size, _, _, _) => size.Fixed? && size.n >= 1
    case KLengthIndexed(prefix, _) => prefix.Some? && prefix.value >= 1
    case KFixedString(fs, _) => fs.Size() >= 1
    case KBytes(size) => size.Fixed? && size.n >= 1
    case KReserved(size) => size.Fixed? && size.n >= 1
    case KList(e, count) => count.Fixed? && count.n >= 1 && SizedRead(e)
  }

  ghost predicate AllSized(schema: Schema) {
    forall k: nat :: IsField(schema, k) ==> SizedRead(schema[k].spec.kind)
  }

  /** A strict source whose bytes are all consumed. */
  predicate Drained(src: Source) {
    src.mode == Strict && src.pos == |src.data|
  }

  /** A field that needs a byte runs out of data on a drained source. */
  lemma {:induction false} DrainedReadValue(k: Kind, src: Source)
    requires k.Valid() && SizedRead(k) && Drained(src)
    ensures ReadValue(k, Unbound(SizeArgOf(k)), src).result == Err(EOFError)
    decreases k
  {
    match k
    case KLengthIndexed(prefix, _) =>
      assert Read(src, prefix.value) == Err(EOFError);
    case KList(e, count) =>
      DrainedReadValue(e, src);
      assert ListSteps(e, count.n, src, [], []).result == Err(EOFError);
      assert ListRead(e, RInt(count.n), src).result == Err(EOFError);
      assert KRead(k, RInt(count.n), src).result == Err(EOFError);
    case _ =>
  }

  /** What write reads for such a field on a drained source runs out of data. */
  lemma DrainedWriteRead(schema: Schema, k: nat, src: Source)
    requires WellFormed(schema) && IsField(schema, k) && SizedRead(schema[k].spec.kind) && Drained(src)
    ensures WriteRead(schema, k, src).result == Err(EOFError)
  {
    if !schema[k].spec.kind.KCheckSum? {
      DrainedReadValue(schema[k].spec.kind, src);
    }
  }

  /** Past the field that ran out of data, the loop as written keeps the
      bytes from `last` on in the carry buffer and ends successfully with
      the position moved by `last`. */
  lemma {:induction false} DrainedLoop(schema: Schema, st: State, k: nat, data: Bytes, last: nat)
    requires WellFormed(schema) && ReadSave.NoConditions(schema) && AllSized(schema) && k <= |schema|
    requires st.buffer == Source(data, last, Strict).Rest()
    ensures WriteLoop(schema, st, k, Source(data, |data|, Strict), last)
      == Step(Ok(()), st.(position := st.position + last))
    decreases |schema| - k
  {
    if k < |schema| && schema[k].name !in st.values {
      DrainedWriteRead(schema, k, Source(data, |data|, Strict));
      assert st.(buffer := Source(data, last, Strict).Rest()) == st;
    }
    if k < |schema| {
      DrainedLoop(schema, st, k + 1, data, last);
    }
  }

  /** From any entry on, the loop as written and the loop as intended end
      in the same result and state. */
  lemma {:induction false} LoopsAgree(schema: Schema, st: State, k: nat, file: Source, last: nat)
    requires WellFormed(schema) && ReadSave.NoConditions(schema) && AllSized(schema) && k <= |schema|
    ensures WriteLoop(schema, st, k, file, last) == WriteFixedLoop(schema, st, k, file, last)
    decreases |schema| - k
  {
    if k == |schema| {
    } else if schema[k].name in st.values {
      LoopsAgree(schema, st, k + 1, file, last);
    } else {
      var o := WriteRead(schema, k, file);
      if o.result.Ok? {
        var name := schema[k].name;
        var st1 := st.(raw := st.raw[name := o.result.value.0], values := st.values[name := o.result.value.1], buffer := []);
        LoopsAgree(schema, st1, k + 1, o.after, o.after.pos);
      } else if o.result.error == EOFError {
        var back := Source(file.data, last, Strict);
        DrainedLoop(schema, st.(buffer := back.Rest()), k + 1, file.data, last);
      }
    }
  }

  /** For a schema of plain fields that each need at least one byte, write
      as written is write as intended. */
  lemma WriteAgrees(schema: Schema, st: State, data: Bytes)
    requires WellFormed(schema) && ReadSave.NoConditions(schema) && AllSized(schema)
    ensures WriteF(schema, st, data) == WriteFixed(schema, st, data)
  {
    if st.file.mode == Unreadable {
      LoopsAgree(schema, st, 0, Source(st.buffer + data, 0, Strict), 0);
    }
  }

  /** Write as written, for such a schema: the field at k runs out of data,
      so the write ends, the carry buffer holds what the source still holds,
      and the position counts what came before. */
  lemma OutOfData(schema: Schema, st: State, k: nat, f: Source)
    requires WellFormed(schema) && ReadSave.NoConditions(schema) && AllSized(schema)
    requires k < |schema| && schema[k].name !in st.values
    requires f.mode == Strict && f.pos <= |f.data|
    requires WriteRead(schema, k, f).result == Err(EOFError)
    ensures WriteLoop(schema, st, k, f, f.pos) == Step(Ok(()), st.(buffer := f.Rest(), position := st.position + |f.data| - |f.Rest()|))
  {
    LoopsAgree(schema, st, k, f, f.pos);
    WriteSplit.OutOfData(schema, st, k, f);
  }

  /** A field that needs a byte reads a prefix of the data the way
      WriteSplit.PrefixRun needs. */
  lemma SizedIncremental(k: Kind)
    requires SizedRead(k)
    ensures WriteSplit.Incremental(k)
    decreases k
  {
    if k.KList? {
      SizedIncremental(k.element);
    }
  }

  /** Write as written, for such a schema: when the first write succeeds,
      writing x and then y ends like writing x + y at once; on success the
      whole state agrees, and otherwise the same error is raised over the
      same raw bytes and values. */
  lemma WriteInPieces(schema: Schema, st: State, x: Bytes, y: Bytes)
    requires WellFormed(schema) && ReadSave.NoConditions(schema) && AllSized(schema)
    ensures var one := WriteF(schema, st, x);
      var two := WriteF(schema, one.st, y);
      var whole := WriteF(schema, st, x + y);
      one.result.Ok? ==>
        && two.result == whole.result && two.st.raw == whole.st.raw && two.st.values == whole.st.values
        && (two.result.Ok? ==> two.st == whole.st)
  {
    forall k: nat | IsField(schema, k)
      ensures WriteSplit.Incremental(schema[k].spec.kind)
    {
      SizedIncremental(schema[k].spec.kind);
    }
    WriteAgrees(schema, st, x);
    WriteAgrees(schema, WriteFixed(schema, st, x).st, y);
    WriteAgrees(schema, st, x + y);
    WriteSplit.WriteInPieces(schema, st, x, y);
  }
}
