/** Reading a structure from a file and saving it gives back the bytes it
    read (steel/base.py:60-90; tests/byte/structures.py:128-144): every field
    is read in declaration order, each read consumes exactly its raw bytes,
    and save concatenates those raw bytes in the same order.

    The theorem covers schemas of plain fields over a source that can be
    read; a field read there never raises IOError, so no default stands in
    for a value that was not read. */
module ReadSave {
  import opened Results
  import opened Streams
  import opened Values
  import opened Kinds
  import opened Schema
  import opened Engine
  import Seqs

  /** The text codecs of every top-level field fail only with ValueError. */
  ghost predicate SchemaCodecsValid(schema: Schema) {
    forall k: nat :: IsField(schema, k) ==> CodecsValid(schema[k].spec.kind)
  }

  /** Every entry is a field: the schema declares no condition. */
  predicate NoConditions(schema: Schema) {
    forall i :: 0 <= i < |schema| ==> schema[i].FieldEntry?
  }

  /** Once the entries before k have raw bytes, the scan of _extract starting
      anywhere before k reaches k without reading anything. */
  lemma {:induction false} ScanSkip(schema: Schema, st: State, i: nat, k: nat)
    requires WellFormed(schema) && i <= k && IsField(schema, k) && HasRawBefore(schema, st, k)
    ensures ScanF(schema, st, i, k) == ScanF(schema, st, k, k)
    decreases k - i
  {
    if i < k {
      assert schema[i].name in st.raw;
      ScanSkip(schema, st, i + 1, k);
    }
  }

  /** A size resolved during the scan, on a readable source, never raises
      IOError and leaves the source alone. */
  lemma ScanSizeReadable(schema: Schema, st: State, k: nat, arg: SizeArg)
    requires WellFormed(schema) && SchemaCodecsValid(schema)
    requires HasRawBefore(schema, st, k) && SizeRefOk(schema, k, arg)
    ensures ScanSize(schema, st, k, arg).result != Err(IOError)
  {
    if arg.SizeOf? {
      var i := EntryIndex(schema, arg.name);
      if i.Some? {
        var name := schema[i.value].name;
        if name !in st.values {
          DecodeKReadable(schema[i.value].spec.kind, st.raw[name]);
        }
      }
    }
  }

  /** Reading one field on a readable source: no IOError, the source keeps
      its mode, and on success the bytes kept as the field's raw value are
      exactly the bytes consumed, which the position counts. */
  lemma ReadFieldReadable(schema: Schema, st: State, k: nat)
    requires WellFormed(schema) && SchemaCodecsValid(schema)
    requires IsField(schema, k) && HasRawBefore(schema, st, k) && st.file.mode != Unreadable
    ensures var r := ReadFieldF(schema, st, k);
      && r.result != Err(IOError)
      && r.st.file.mode == st.file.mode
      && (r.result.Ok? ==> r.result.value + r.st.file.Rest() == st.file.Rest()
                           && r.st.position == st.position + |r.result.value|)
  {
    var kind := schema[k].spec.kind;
    if !kind.KCheckSum? {
      var sz := ScanSize(schema, st, k, SizeArgOf(kind));
      ScanSizeReadable(schema, st, k, SizeArgOf(kind));
      if sz.result.Ok? {
        KReadConsumes(kind, sz.result.value, sz.st.file);
        KReadReadable(kind, sz.result.value, sz.st.file);
        var o := KRead(kind, sz.result.value, sz.st.file);
        var st1 := Advance(sz.st, o.after);
        if o.result.Ok? {
          assert |o.result.value.Data()| == Consumed(st.file, o.after);
          assert st1.position == st.position + |o.result.value.Data()|;
        }
      }
    }
  }

  /** Getting a field that has no raw bytes yet, once every earlier field
      has them: the field is read from where the source stands, and only its
      raw entry is added. */
  lemma GetNextField(schema: Schema, st: State, k: nat)
    requires WellFormed(schema) && SchemaCodecsValid(schema)
    requires IsField(schema, k) && HasRawBefore(schema, st, k) && schema[k].name !in st.raw
    requires st.file.mode != Unreadable
    ensures var r := GetF(schema, st, k);
      && r.st.file.mode == st.file.mode
      && (r.result.Ok? ==>
            && schema[k].name in r.st.raw
            && r.st.raw == st.raw[schema[k].name := r.st.raw[schema[k].name]]
            && r.st.raw[schema[k].name] + r.st.file.Rest() == st.file.Rest()
            && r.st.position == st.position + |r.st.raw[schema[k].name]|)
  {
    ScanSkip(schema, st, 0, k);
    ReadFieldReadable(schema, st, k);
  }

  /** The loop of get_raw_bytes after a fresh read of the fields before k:
      the fields from k on have no raw bytes, and what was output, followed
      by what the source still holds, is what it held at the start. */
  lemma {:induction false} SaveLoopReads(schema: Schema, st: State, k: nat, out: Bytes, start: Bytes)
    requires WellFormed(schema) && SchemaCodecsValid(schema) && NoConditions(schema)
    requires k <= |schema| && st.file.mode != Unreadable
    requires forall i :: 0 <= i < |schema| ==> (schema[i].name in st.raw <==> i < k)
    requires out + st.file.Rest() == start && st.position == |out|
    ensures var r := RawBytesLoop(schema, st, k, out);
      r.result.Ok? ==> r.result.value + r.st.file.Rest() == start && r.st.position == |r.result.value|
    decreases |schema| - k
  {
    if k < |schema| {
      var g := GetF(schema, st, k);
      SaveStep(schema, st, k, out);
      if g.result.Ok? {
        var b := g.st.raw[schema[k].name];
        RawGrows(schema, st, g.st, k);
        Seqs.Assoc(out, b, g.st.file.Rest());
        SaveLoopReads(schema, g.st, k + 1, out + b, start);
      }
    }
  }

  /** One pass of the loop of get_raw_bytes: the entry is a field without raw
      bytes, which the get reads. */
  lemma SaveStep(schema: Schema, st: State, k: nat, out: Bytes)
    requires WellFormed(schema) && SchemaCodecsValid(schema) && NoConditions(schema)
    requires k < |schema| && st.file.mode != Unreadable
    requires forall i :: 0 <= i < |schema| ==> (schema[i].name in st.raw <==> i < k)
    ensures var g := GetF(schema, st, k);
      && GetAttrF(schema, st, schema[k].name) == g
      && g.st.file.mode == st.file.mode
      && (g.result.Ok? ==>
            && schema[k].name in g.st.raw
            && g.st.raw == st.raw[schema[k].name := g.st.raw[schema[k].name]]
            && g.st.raw[schema[k].name] + g.st.file.Rest() == st.file.Rest()
            && g.st.position == st.position + |g.st.raw[schema[k].name]|)
    ensures var g := GetF(schema, st, k);
      g.result.Ok? ==> RawBytesLoop(schema, st, k, out) == RawBytesLoop(schema, g.st, k + 1, out + g.st.raw[schema[k].name])
  {
    IndexOfName(schema, k);
    GetNextField(schema, st, k);
  }

  /** The raw entries after reading field k are those of the fields up to k. */
  lemma RawGrows(schema: Schema, st: State, st2: State, k: nat)
    requires WellFormed(schema) && k < |schema|
    requires forall i :: 0 <= i < |schema| ==> (schema[i].name in st.raw <==> i < k)
    requires schema[k].name in st2.raw && st2.raw == st.raw[schema[k].name := st2.raw[schema[k].name]]
    ensures forall i :: 0 <= i < |schema| ==> (schema[i].name in st2.raw <==> i < k + 1)
  {
    forall i | 0 <= i < |schema|
      ensures schema[i].name in st2.raw <==> i < k + 1
    {
      if i != k {
        assert schema[i].name != schema[k].name;
      }
    }
  }

  /** Saving a structure freshly read from a file writes out exactly the
      bytes the reads consumed: followed by what is left in the file, they
      are the file's remaining contents at the start, and the position
      counts them. */
  lemma ReadThenSave(schema: Schema, src: Source)
    requires WellFormed(schema) && SchemaCodecsValid(schema) && NoConditions(schema)
    requires src.mode == Lenient
    ensures var r := GetRawBytesF(schema, Fresh(Some(src)));
      r.result.Ok? ==> r.result.value + r.st.file.Rest() == src.Rest() && r.st.position == |r.result.value|
  {
    SaveLoopReads(schema, Fresh(Some(src)), 0, [], src.Rest());
  }

  /** In particular, when the structure takes up the whole file, saving it
      gives back the file's contents. */
  lemma ReadThenSaveWhole(schema: Schema, src: Source)
    requires WellFormed(schema) && SchemaCodecsValid(schema) && NoConditions(schema)
    requires src.mode == Lenient
    ensures var r := GetRawBytesF(schema, Fresh(Some(src)));
      r.result.Ok? && r.st.file.Rest() == [] ==> r.result.value == src.Rest()
  {
    ReadThenSave(schema, src);
    var r := GetRawBytesF(schema, Fresh(Some(src)));
    if r.result.Ok? && r.st.file.Rest() == [] {
      assert r.result.value + [] == r.result.value;
    }
  }
}
