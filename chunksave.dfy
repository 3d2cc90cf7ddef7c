/** What ChunkMixin.save (steel/chunks/base.py:63-69) writes for the frame
    layouts of EA IFF 85 (steel/chunks/iff.py), field assignment by field
    assignment: the constructor's id, the payload with its size hook, the
    explicit size, then get_raw_bytes. */
module ChunkSave {
  import opened Results
  import opened Streams
  import opened Values
  import opened Kinds
  import opened Schema
  import opened Engine
  import opened Chunks
  import N = Numbers
  import S = Strings
  import PyInt

  // ---------------------------------------------------------------------------
  // Assignments shared by both layouts

  /** The id field's bytes: the ASCII encoding of the text, NUL padded to
      four bytes (a longer id is kept whole). */
  function IdBytes(id: string): (b: Bytes)
    requires S.IsAscii(id)
    ensures |b| == if |id| <= 4 then 4 else |id|
    ensures b[..|id|] == S.AsciiEncode(id).value
    ensures forall i :: |id| <= i < |b| ==> b[i] == 0
  {
    S.LJust(S.AsciiEncode(id).value, 4, [0]).value
  }

  /** A field of a frame that no checksum covers: assigning it runs no
      recompute hook. */
  predicate Uncovered(schema: Schema, j: nat) {
    IsField(schema, j) && Covering(schema, j) == []
  }

  /** Assigning an id field: the value is kept and its padded ASCII bytes
      stored, or the encoding's ValueError is raised. */
  lemma IdSet(schema: Schema, j: nat, st: State, id: string)
    requires WellFormed(schema) && Uncovered(schema, j) && schema[j].spec.kind == IdKind
    ensures S.IsAscii(id) ==>
      SetF(schema, st, j, VText(id)) == Step(Ok(()), st.(values := st.values[schema[j].name := VText(id)], raw := st.raw[schema[j].name := IdBytes(id)]))
    ensures !S.IsAscii(id) ==> SetF(schema, st, j, VText(id)).result == Err(ValueError)
  {
    var st0 := st.(values := st.values[schema[j].name := VText(id)]);
    var e := EncodeBound(schema, st0, j, VText(id));
    if S.IsAscii(id) {
      assert S.StringEncode(S.StringField(RInt(4), S.Ascii, [0], [0]), id) == Ok(IdBytes(id));
      assert e == Step(Ok(IdBytes(id)), st0);
      var st1 := st0.(raw := st0.raw[schema[j].name := IdBytes(id)]);
      assert Hooks(schema, st1, j, 0) == Step(Ok(()), st1);
      assert AfterEncode(schema, st1, j, VText(id)) == Step(Ok(()), st1);
    } else {
      assert e.result == Err(ValueError);
    }
  }

  /** Assigning a 4-byte size field: the value is kept and its big-endian
      bytes stored for 0 <= n < 2^32; otherwise ValueError. */
  lemma SizeSet(schema: Schema, j: nat, st: State, n: int)
    requires WellFormed(schema) && Uncovered(schema, j) && schema[j].spec.kind == SizeKind
    ensures 0 <= n < PyInt.Pow2(32) ==>
      SetF(schema, st, j, VInt(n)) == Step(Ok(()), st.(values := st.values[schema[j].name := VInt(n)], raw := st.raw[schema[j].name := N.BigEndianEncode(4, n)]))
    ensures !(0 <= n < PyInt.Pow2(32)) ==> SetF(schema, st, j, VInt(n)).result == Err(ValueError)
  {
    var st0 := st.(values := st.values[schema[j].name := VInt(n)]);
    SizeEncodes(schema, j, st0, n);
    if 0 <= n < PyInt.Pow2(32) {
      var st1 := st0.(raw := st0.raw[schema[j].name := N.BigEndianEncode(4, n)]);
      assert Hooks(schema, st1, j, 0) == Step(Ok(()), st1);
      assert AfterEncode(schema, st1, j, VInt(n)) == Step(Ok(()), st1);
    }
  }

  /** A 4-byte size field encodes an unsigned value that fits as its
      big-endian bytes. */
  lemma SizeEncodes(schema: Schema, j: nat, st: State, n: int)
    requires WellFormed(schema) && IsField(schema, j) && schema[j].spec.kind == SizeKind
    ensures EncodeBound(schema, st, j, VInt(n))
      == Step(if 0 <= n < PyInt.Pow2(32) then Ok(N.BigEndianEncode(4, n)) else Err(ValueError), st)
  {
  }

  /** Assigning a payload field: its bytes are stored and, through its size
      hook, its length is assigned to the sibling `size`; a payload of 2^32
      bytes or more cannot be sized. */
  lemma PayloadSet(schema: Schema, j: nat, i: nat, st: State, body: Bytes)
    requires WellFormed(schema) && Uncovered(schema, j) && schema[j].spec.kind == PayloadKind
    requires EntryIndex(schema, "size") == Some(i) && Uncovered(schema, i) && schema[i].spec.kind == SizeKind
    ensures |body| < PyInt.Pow2(32) ==>
      SetF(schema, st, j, VBytes(body))
        == Step(Ok(()), st.(values := st.values[schema[j].name := VBytes(body)]["size" := VInt(|body|)],
                            raw := st.raw[schema[j].name := body]["size" := N.BigEndianEncode(4, |body|)]))
    ensures |body| >= PyInt.Pow2(32) ==> SetF(schema, st, j, VBytes(body)).result == Err(ValueError)
  {
    var v := VBytes(body);
    var st0 := st.(values := st.values[schema[j].name := v]);
    assert EncodeBound(schema, st0, j, v) == Step(Ok(body), st0);
    var st1 := st0.(raw := st0.raw[schema[j].name := body]);
    SizeSet(schema, i, st1, |body|);
    var s := SetF(schema, st1, i, VInt(|body|));
    assert Hooks(schema, s.st, j, 0) == Step(Ok(()), s.st);
    assert SizeArgOf(PayloadKind) == SizeOf("size");
  }

  /** A field that has raw bytes and a value gets that value and changes
      nothing. */
  lemma StoredGet(schema: Schema, st: State, j: nat)
    requires WellFormed(schema) && IsField(schema, j)
    requires schema[j].name in st.raw && schema[j].name in st.values
    ensures GetF(schema, st, j) == Step(Ok(st.values[schema[j].name]), st)
  {
    assert ExtractF(schema, st, j) == Step(Ok(st.raw[schema[j].name]), st);
  }

  /** Every entry is a field, found under its own name, with raw bytes and a
      value. */
  predicate Stored(schema: Schema, st: State) {
    forall i :: 0 <= i < |schema| ==>
      IsField(schema, i) && EntryIndex(schema, schema[i].name) == Some(i)
      && schema[i].name in st.raw && schema[i].name in st.values
  }

  /** The raw bytes of the entries from k on, in order. */
  function Joined(schema: Schema, st: State, k: nat): Bytes
    requires Stored(schema, st) && k <= |schema|
    decreases |schema| - k
  {
    if k == |schema| then [] else st.raw[schema[k].name] + Joined(schema, st, k + 1)
  }

  /** get_raw_bytes from field k on, once every field has raw bytes and a
      value: their bytes are joined in field order. */
  lemma {:induction false} RawBytesFrom(schema: Schema, st: State, k: nat, out: Bytes)
    requires WellFormed(schema) && Stored(schema, st) && k <= |schema|
    ensures RawBytesLoop(schema, st, k, out) == Step(Ok(out + Joined(schema, st, k)), st)
    decreases |schema| - k
  {
    if k == |schema| {
      assert out + [] == out;
    } else {
      var b := st.raw[schema[k].name];
      StoredGet(schema, st, k);
      assert RawBytesLoop(schema, st, k, out) == RawBytesLoop(schema, st, k + 1, out + b);
      RawBytesFrom(schema, st, k + 1, out + b);
      assert out + b + Joined(schema, st, k + 1) == out + Joined(schema, st, k);
    }
  }

  lemma MapSame<V>(m: map<string, V>, k: string, v: V)
    requires k in m && m[k] == v
    ensures m[k := v] == m
  {
  }

  /** Assigning a size field the value it holds changes nothing. */
  lemma SizeKept(schema: Schema, j: nat, st: State, n: nat)
    requires WellFormed(schema) && Uncovered(schema, j) && schema[j].spec.kind == SizeKind && n < PyInt.Pow2(32)
    requires schema[j].name in st.values && st.values[schema[j].name] == VInt(n)
    requires schema[j].name in st.raw && st.raw[schema[j].name] == N.BigEndianEncode(4, n)
    ensures SetF(schema, st, j, VInt(n)) == Step(Ok(()), st)
  {
    SizeSet(schema, j, st, n);
    var name := schema[j].name;
    MapSame(st.values, name, VInt(n));
    MapSame(st.raw, name, N.BigEndianEncode(4, n));
  }

  /** get_raw_bytes once every field is stored. */
  lemma RawBytesAll(schema: Schema, st: State)
    requires WellFormed(schema) && Stored(schema, st)
    ensures GetRawBytesF(schema, st) == Step(Ok(Joined(schema, st, 0)), st)
  {
    RawBytesFrom(schema, st, 0, []);
    assert [] + Joined(schema, st, 0) == Joined(schema, st, 0);
  }

  // ---------------------------------------------------------------------------
  // save on a frame with an id, a size and a payload

  /** A frame whose fields `id`, `size` and `payload` sit at i, s and p, are
      of the EA IFF 85 kinds, and are covered by no checksum. */
  ghost predicate Frame(schema: Schema, i: nat, s: nat, p: nat) {
    WellFormed(schema)
    && EntryIndex(schema, "id") == Some(i) && Uncovered(schema, i) && schema[i].spec.kind == IdKind
    && EntryIndex(schema, "size") == Some(s) && Uncovered(schema, s) && schema[s].spec.kind == SizeKind
    && EntryIndex(schema, "payload") == Some(p) && Uncovered(schema, p) && schema[p].spec.kind == PayloadKind
  }

  /** A new frame in write mode once the constructor assigned its id. */
  function IdAssigned(id: string): State
    requires S.IsAscii(id)
  {
    Fresh(None).(values := map["id" := VText(id)], raw := map["id" := IdBytes(id)])
  }

  /** The frame once the payload, and through its size hook the size, are
      assigned. */
  function PayloadAssigned(id: string, body: Bytes): State
    requires S.IsAscii(id)
  {
    var st := IdAssigned(id);
    st.(values := st.values["payload" := VBytes(body)]["size" := VInt(|body|)],
        raw := st.raw["payload" := body]["size" := N.BigEndianEncode(4, |body|)])
  }

  /** The constructor's id assignment. */
  lemma IdStep(schema: Schema, i: nat, s: nat, p: nat, id: string)
    requires Frame(schema, i, s, p)
    ensures S.IsAscii(id) ==> ConstructF(schema, None, [("id", VText(id))]) == Step(Ok(()), IdAssigned(id))
    ensures !S.IsAscii(id) ==> ConstructF(schema, None, [("id", VText(id))]).result == Err(ValueError)
  {
    var kw := [("id", VText(id))];
    IdSet(schema, i, Fresh(None), id);
    var c := SetF(schema, Fresh(None), i, VText(id));
    assert SetAttrF(schema, Fresh(None), "id", VText(id)) == c;
    if S.IsAscii(id) {
      assert map[]["id" := VText(id)] == map["id" := VText(id)];
      assert map[]["id" := IdBytes(id)] == map["id" := IdBytes(id)];
      assert c.st == IdAssigned(id);
      assert AssignAll(schema, c.st, kw, 1) == Step(Ok(()), c.st);
    }
  }

  /** Assigning the payload sets its size as well. */
  lemma PayloadStep(schema: Schema, i: nat, s: nat, p: nat, id: string, body: Bytes)
    requires Frame(schema, i, s, p) && S.IsAscii(id)
    ensures |body| < PyInt.Pow2(32) ==>
      SetAttrF(schema, IdAssigned(id), "payload", VBytes(body)) == Step(Ok(()), PayloadAssigned(id, body))
    ensures |body| >= PyInt.Pow2(32) ==>
      SetAttrF(schema, IdAssigned(id), "payload", VBytes(body)).result == Err(ValueError)
  {
    PayloadSet(schema, p, s, IdAssigned(id), body);
  }

  /** Getting the payload back, and assigning its length to the size again,
      leave the frame as it is. */
  lemma PayloadSizedAgain(schema: Schema, i: nat, s: nat, p: nat, id: string, body: Bytes)
    requires Frame(schema, i, s, p) && S.IsAscii(id) && |body| < PyInt.Pow2(32)
    ensures GetAttrF(schema, PayloadAssigned(id, body), "payload") == Step(Ok(VBytes(body)), PayloadAssigned(id, body))
    ensures SetAttrF(schema, PayloadAssigned(id, body), "size", VInt(|body|)) == Step(Ok(()), PayloadAssigned(id, body))
  {
    StoredGet(schema, PayloadAssigned(id, body), p);
    SizeKept(schema, s, PayloadAssigned(id, body), |body|);
  }

  /** save once its four assignments went through: the frame's raw bytes. */
  lemma SaveThrough(frame: Schema, id: Value, body: Bytes, st1: State, st2: State)
    requires WellFormed(frame)
    requires ConstructF(frame, None, [("id", id)]) == Step(Ok(()), st1)
    requires SetAttrF(frame, st1, "payload", VBytes(body)) == Step(Ok(()), st2)
    requires GetAttrF(frame, st2, "payload") == Step(Ok(VBytes(body)), st2)
    requires SetAttrF(frame, st2, "size", VInt(|body|)) == Step(Ok(()), st2)
    ensures SaveF(frame, id, body) == GetRawBytesF(frame, st2).result
  {
    assert Len(VBytes(body)) == Ok(|body|);
  }

  /** save stops at the first assignment that fails, with its error. */
  lemma SaveStops(frame: Schema, id: Value, body: Bytes, st1: State)
    requires WellFormed(frame)
    ensures ConstructF(frame, None, [("id", id)]).result.Err? ==>
      SaveF(frame, id, body) == Err(ConstructF(frame, None, [("id", id)]).result.error)
    ensures ConstructF(frame, None, [("id", id)]) == Step(Ok(()), st1) && SetAttrF(frame, st1, "payload", VBytes(body)).result.Err? ==>
      SaveF(frame, id, body) == Err(SetAttrF(frame, st1, "payload", VBytes(body)).result.error)
  {
  }

  /** ChunkMixin.save on any such frame: an id outside ASCII, or a payload
      too long for a 4-byte size, is refused with ValueError; otherwise the
      frame's raw bytes once id, payload and size are assigned. */
  lemma FrameSave(schema: Schema, i: nat, s: nat, p: nat, id: string, body: Bytes)
    requires Frame(schema, i, s, p)
    ensures !S.IsAscii(id) || |body| >= PyInt.Pow2(32) ==> SaveF(schema, VText(id), body) == Err(ValueError)
    ensures S.IsAscii(id) && |body| < PyInt.Pow2(32) ==>
      SaveF(schema, VText(id), body) == GetRawBytesF(schema, PayloadAssigned(id, body)).result
  {
    IdStep(schema, i, s, p, id);
    if S.IsAscii(id) {
      PayloadStep(schema, i, s, p, id, body);
      SaveStops(schema, VText(id), body, IdAssigned(id));
      if |body| < PyInt.Pow2(32) {
        PayloadSizedAgain(schema, i, s, p, id, body);
        SaveThrough(schema, VText(id), body, IdAssigned(id), PayloadAssigned(id, body));
      }
    } else {
      SaveStops(schema, VText(id), body, Fresh(None));
    }
  }

  // ---------------------------------------------------------------------------
  // The Chunk frame

  /** The Chunk frame's fields sit at 0, 1 and 2. */
  lemma IffChunkFrameAt()
    ensures Frame(IffChunk, 0, 1, 2)
  {
    IffChunkLayout();
    assert EntryIndexFrom(IffChunk, "payload", 2) == Some(2);
    assert EntryIndexFrom(IffChunk, "payload", 1) == Some(2);
    forall j | 0 <= j < 3
      ensures Covering(IffChunk, j) == []
    {
      assert CoveringFrom(IffChunk, j, 3) == [];
      assert CoveringFrom(IffChunk, j, 2) == [];
      assert CoveringFrom(IffChunk, j, 1) == [];
    }
  }

  /** Every field of the assigned Chunk frame is stored; joined, they are
      the id, size and payload bytes. */
  lemma ChunkStored(id: string, body: Bytes)
    requires S.IsAscii(id)
    ensures Stored(IffChunk, PayloadAssigned(id, body))
    ensures Joined(IffChunk, PayloadAssigned(id, body), 0) == IdBytes(id) + N.BigEndianEncode(4, |body|) + body
  {
    var st := PayloadAssigned(id, body);
    IffChunkFrameAt();
    forall j | 0 <= j < 3
      ensures IffChunk[j].name in st.raw && IffChunk[j].name in st.values
    {
    }
    assert Joined(IffChunk, st, 2) == body;
    assert Joined(IffChunk, st, 1) == N.BigEndianEncode(4, |body|) + body;
  }

  /** ChunkMixin.save on the Chunk frame: the id's padded ASCII bytes, the
      payload's length as four big-endian bytes, then the payload; an id
      outside ASCII or a payload too long for its size field is refused
      with ValueError. */
  lemma IffChunkSave(id: string, body: Bytes)
    ensures WellFormed(IffChunk)
    ensures SaveF(IffChunk, VText(id), body)
      == if !S.IsAscii(id) || |body| >= PyInt.Pow2(32) then Err(ValueError)
         else Ok(IdBytes(id) + N.BigEndianEncode(4, |body|) + body)
  {
    IffChunkFrameAt();
    FrameSave(IffChunk, 0, 1, 2, id, body);
    if S.IsAscii(id) && |body| < PyInt.Pow2(32) {
      ChunkStored(id, body);
      RawBytesAll(IffChunk, PayloadAssigned(id, body));
    }
  }

  /** The frame of an id of at most four ASCII characters: four id bytes,
      four size bytes that decode to the payload's length, the payload. */
  lemma IffChunkFrame(id: string, body: Bytes)
    requires S.IsAscii(id) && |id| <= 4 && |body| < PyInt.Pow2(32)
    ensures WellFormed(IffChunk)
    ensures SaveF(IffChunk, VText(id), body).Ok?
    ensures FrameLayout(id, body, SaveF(IffChunk, VText(id), body).value)
  {
    IffChunkSave(id, body);
    FrameBytes(id, body);
  }

  /** b holds id's ASCII bytes NUL padded to four, the payload's length as
      four big-endian bytes, then the payload. */
  predicate FrameLayout(id: string, body: Bytes, b: Bytes)
    requires S.IsAscii(id) && |id| <= 4
  {
    |b| == 8 + |body| && b[..|id|] == S.AsciiEncode(id).value && (forall i :: |id| <= i < 4 ==> b[i] == 0)
    && N.BigEndianDecode(4, b[4..8]) == |body| && b[8..] == body
  }

  lemma FrameBytes(id: string, body: Bytes)
    requires S.IsAscii(id) && |id| <= 4 && |body| < PyInt.Pow2(32)
    ensures FrameLayout(id, body, IdBytes(id) + N.BigEndianEncode(4, |body|) + body)
  {
    var ib := IdBytes(id);
    var sb := N.BigEndianEncode(4, |body|);
    var b := ib + sb + body;
    assert b[..4] == ib;
    assert b[4..8] == sb;
    assert b[8..] == body;
    assert b[..|id|] == ib[..|id|];
    SizeBytesDecode(|body|);
  }

  /** The four size bytes decode to the length they encode. */
  lemma SizeBytesDecode(n: nat)
    requires n < PyInt.Pow2(32)
    ensures N.BigEndianDecode(4, N.BigEndianEncode(4, n)) == n
  {
    BigEndianFits(4, n);
  }

  lemma BigEndianFits(k: nat, n: nat)
    requires n < PyInt.Pow2(8 * k)
    ensures N.BigEndianDecode(k, N.BigEndianEncode(k, n)) == n
  {
    PyInt.Pow256IsPow2(k);
    N.EndianRoundTrip(N.BigEndian, k, n);
  }

  // ---------------------------------------------------------------------------
  // The FORM frame

  /** The FORM frame as it would be were FixedString's default its decoded
      value, the value a read gives: the literal text 'FORM'. */
  const IffFormIntended: Schema :=
    [FieldEntry("tag", FieldSpec(KFixedString(FormTag, Some(S.Ascii)), Some(VText("FORM")), [])),
     Plain("size", SizeKind), Plain("id", IdKind), Plain("payload", PayloadKind)]

  /** A frame with a leading fixed string `tag` and then size, id and
      payload. */
  ghost predicate TaggedFrame(schema: Schema) {
    |schema| == 4 && Frame(schema, 2, 1, 3) && EntryIndex(schema, "tag") == Some(0) && Uncovered(schema, 0)
    && schema[0].spec.kind.KFixedString? && schema[0].spec.default.Some?
  }

  /** A FORM layout with the given tag default. */
  ghost predicate FormLike(schema: Schema, d: Value) {
    schema == [FieldEntry("tag", FieldSpec(KFixedString(FormTag, Some(S.Ascii)), Some(d), [])),
               Plain("size", SizeKind), Plain("id", IdKind), Plain("payload", PayloadKind)]
  }

  /** Such a layout is a tagged frame: the fields sit at 2, 1 and 3 after
      the tag, and no checksum covers any of them. */
  lemma FormFrameAt(schema: Schema, d: Value)
    requires FormLike(schema, d)
    ensures TaggedFrame(schema)
  {
    FormWellFormed(schema, d);
    IndexOfName(schema, 0);
    IndexOfName(schema, 1);
    IndexOfName(schema, 2);
    IndexOfName(schema, 3);
    FormUncovered(schema, d);
  }

  lemma FormWellFormed(schema: Schema, d: Value)
    requires FormLike(schema, d)
    ensures WellFormed(schema)
  {
    assert EntryIndexFrom(schema, "size", 1) == Some(1);
    assert SizeRefOk(schema, 3, SizeArgOf(schema[3].spec.kind));
    forall k: nat | IsField(schema, k)
      ensures SizeRefOk(schema, k, SizeArgOf(schema[k].spec.kind))
    {
      assert k < 4;
    }
  }

  lemma FormUncovered(schema: Schema, d: Value)
    requires FormLike(schema, d)
    ensures forall j :: 0 <= j < 4 ==> Uncovered(schema, j)
  {
    forall j | 0 <= j < 4
      ensures Covering(schema, j) == []
    {
      assert CoveringFrom(schema, j, 4) == [];
      assert CoveringFrom(schema, j, 3) == [];
      assert CoveringFrom(schema, j, 2) == [];
      assert CoveringFrom(schema, j, 1) == [];
    }
  }

  /** The FORM frame as declared: a tagged frame whose tag defaults to the
      bytes b'FORM'. */
  lemma IffFormAt()
    ensures TaggedFrame(IffForm)
    ensures IffForm[0].spec.kind.literal == FormTag && IffForm[0].spec.default == Some(VBytes(FormTag.encoded))
  {
    FormFrameAt(IffForm, VBytes(FormTag.encoded));
  }

  /** The intended FORM frame: a tagged frame whose tag defaults to the text
      'FORM'. */
  lemma IffFormIntendedAt()
    ensures TaggedFrame(IffFormIntended)
    ensures IffFormIntended[0].spec.kind.literal == FormTag && IffFormIntended[0].spec.default == Some(VText("FORM"))
  {
    FormFrameAt(IffFormIntended, VText("FORM"));
  }

  /** In write mode the leading fixed string cannot be read, so getting it
      gives its default and changes nothing (steel/common/fields.py:162-165). */
  lemma UnreadFirstGet(schema: Schema, st: State, d: Value)
    requires WellFormed(schema) && IsField(schema, 0) && schema[0].spec.kind.KFixedString? && schema[0].spec.default == Some(d)
    requires st.file.mode == Unreadable && schema[0].name !in st.raw
    ensures GetF(schema, st, 0) == Step(Ok(d), st)
  {
    var kind := schema[0].spec.kind;
    assert ScanSize(schema, st, 0, SizeArgOf(kind)) == Step(Ok(RInt(kind.literal.Size())), st);
    assert KRead(kind, RInt(kind.literal.Size()), st.file) == ReadOut(Err(IOError), st.file);
    assert Advance(st, st.file) == st;
    assert ReadFieldF(schema, st, 0) == Step(Err(IOError), st);
    assert ExtractF(schema, st, 0) == Step(Err(IOError), st);
  }

  /** Assigning a fixed string: only its literal text or bytes are accepted,
      the fixed encoding being stored (steel/fields/strings.py:100-103). */
  lemma FixedSet(schema: Schema, j: nat, st: State, v: Value)
    requires WellFormed(schema) && Uncovered(schema, j) && schema[j].spec.kind.KFixedString?
    ensures ValueLiteral(v) != Some(schema[j].spec.kind.literal.decoded) ==> SetF(schema, st, j, v).result == Err(ValueError)
    ensures ValueLiteral(v) == Some(schema[j].spec.kind.literal.decoded) ==>
      SetF(schema, st, j, v)
        == Step(Ok(()), st.(values := st.values[schema[j].name := v], raw := st.raw[schema[j].name := schema[j].spec.kind.literal.encoded]))
  {
    var fs := schema[j].spec.kind.literal;
    var st0 := st.(values := st.values[schema[j].name := v]);
    if ValueLiteral(v) == Some(fs.decoded) {
      assert EncodeBound(schema, st0, j, v) == Step(Ok(fs.encoded), st0);
      var st1 := st0.(raw := st0.raw[schema[j].name := fs.encoded]);
      assert Hooks(schema, st1, j, 0) == Step(Ok(()), st1);
      assert AfterEncode(schema, st1, j, v) == Step(Ok(()), st1);
    } else {
      assert EncodeBound(schema, st0, j, v).result == Err(ValueError);
    }
  }

  /** get_raw_bytes reaching the leading fixed string (steel/base.py:74-80):
      its default is got twice and assigned back, which fails unless the
      default is the literal the field was declared with. */
  lemma FirstFixedRaw(schema: Schema, st: State, d: Value)
    requires WellFormed(schema) && Uncovered(schema, 0) && schema[0].spec.kind.KFixedString? && schema[0].spec.default == Some(d)
    requires EntryIndex(schema, schema[0].name) == Some(0)
    requires st.file.mode == Unreadable && schema[0].name !in st.raw
    ensures ValueLiteral(d) != Some(schema[0].spec.kind.literal.decoded) ==>
      RawBytesLoop(schema, st, 0, []).result == Err(ValueError)
    ensures ValueLiteral(d) == Some(schema[0].spec.kind.literal.decoded) ==>
      RawBytesLoop(schema, st, 0, [])
        == RawBytesLoop(schema, st.(values := st.values[schema[0].name := d], raw := st.raw[schema[0].name := schema[0].spec.kind.literal.encoded]),
                        1, schema[0].spec.kind.literal.encoded)
  {
    UnreadFirstGet(schema, st, d);
    FixedSet(schema, 0, st, d);
    assert [] + schema[0].spec.kind.literal.encoded == schema[0].spec.kind.literal.encoded;
  }

  /** The stored FORM-like frame once the tag has been assigned d. */
  function TagAssigned(id: string, body: Bytes, d: Value, tag: Bytes): State
    requires S.IsAscii(id)
  {
    var st := PayloadAssigned(id, body);
    st.(values := st.values["tag" := d], raw := st.raw["tag" := tag])
  }

  /** Once the tag is assigned every field is stored. */
  lemma TaggedStored(schema: Schema, id: string, body: Bytes, d: Value, tag: Bytes)
    requires TaggedFrame(schema) && S.IsAscii(id)
    ensures Stored(schema, TagAssigned(id, body, d, tag))
  {
    var st := TagAssigned(id, body, d, tag);
    assert schema[0].name == "tag" && schema[1].name == "size" && schema[2].name == "id" && schema[3].name == "payload";
    assert "tag" in st.raw && "size" in st.raw && "id" in st.raw && "payload" in st.raw;
    assert "tag" in st.values && "size" in st.values && "id" in st.values && "payload" in st.values;
  }

  /** Joined from the size on, the stored fields are the size, id and
      payload bytes. */
  lemma TaggedJoined(schema: Schema, id: string, body: Bytes, d: Value, tag: Bytes)
    requires TaggedFrame(schema) && S.IsAscii(id) && Stored(schema, TagAssigned(id, body, d, tag))
    ensures Joined(schema, TagAssigned(id, body, d, tag), 1) == N.BigEndianEncode(4, |body|) + IdBytes(id) + body
  {
    var st := TagAssigned(id, body, d, tag);
    assert schema[1].name == "size" && schema[2].name == "id" && schema[3].name == "payload";
    assert Joined(schema, st, 3) == body;
    assert Joined(schema, st, 2) == IdBytes(id) + body;
  }

  /** save on such a frame when the tag's default is not the literal it
      was declared with: ValueError whatever the id and payload. */
  lemma TaggedRefused(schema: Schema, id: string, body: Bytes)
    requires TaggedFrame(schema)
    requires ValueLiteral(schema[0].spec.default.value) != Some(schema[0].spec.kind.literal.decoded)
    ensures SaveF(schema, VText(id), body) == Err(ValueError)
  {
    FrameSave(schema, 2, 1, 3, id, body);
    if S.IsAscii(id) && |body| < PyInt.Pow2(32) {
      var st := PayloadAssigned(id, body);
      FirstFixedRaw(schema, st, schema[0].spec.default.value);
      assert GetRawBytesF(schema, st) == RawBytesLoop(schema, st, 0, []);
    }
  }

  /** save on such a frame when the tag's default is its literal: the
      literal's bytes, then the size, id and payload bytes. */
  lemma TaggedWrites(schema: Schema, id: string, body: Bytes)
    requires TaggedFrame(schema)
    requires ValueLiteral(schema[0].spec.default.value) == Some(schema[0].spec.kind.literal.decoded)
    ensures SaveF(schema, VText(id), body)
      == if !S.IsAscii(id) || |body| >= PyInt.Pow2(32) then Err(ValueError)
         else Ok(schema[0].spec.kind.literal.encoded + N.BigEndianEncode(4, |body|) + IdBytes(id) + body)
  {
    FrameSave(schema, 2, 1, 3, id, body);
    if S.IsAscii(id) && |body| < PyInt.Pow2(32) {
      TaggedRaw(schema, id, body);
    }
  }

  /** get_raw_bytes on such a frame once id, payload and size are assigned. */
  lemma TaggedRaw(schema: Schema, id: string, body: Bytes)
    requires TaggedFrame(schema) && S.IsAscii(id)
    requires ValueLiteral(schema[0].spec.default.value) == Some(schema[0].spec.kind.literal.decoded)
    ensures GetRawBytesF(schema, PayloadAssigned(id, body)).result
      == Ok(schema[0].spec.kind.literal.encoded + N.BigEndianEncode(4, |body|) + IdBytes(id) + body)
  {
    var d := schema[0].spec.default.value;
    var tag := schema[0].spec.kind.literal.encoded;
    TagFirst(schema, id, body);
    TaggedStored(schema, id, body, d, tag);
    TaggedRest(schema, id, body, d, tag);
    Regroup(tag, N.BigEndianEncode(4, |body|), IdBytes(id), body);
  }

  lemma Regroup(a: Bytes, b: Bytes, c: Bytes, e: Bytes)
    ensures a + (b + c + e) == a + b + c + e
  {
  }

  /** get_raw_bytes after the tag: the size, id and payload bytes follow. */
  lemma TaggedRest(schema: Schema, id: string, body: Bytes, d: Value, tag: Bytes)
    requires TaggedFrame(schema) && S.IsAscii(id) && Stored(schema, TagAssigned(id, body, d, tag))
    ensures RawBytesLoop(schema, TagAssigned(id, body, d, tag), 1, tag).result
      == Ok(tag + (N.BigEndianEncode(4, |body|) + IdBytes(id) + body))
  {
    var rest := N.BigEndianEncode(4, |body|) + IdBytes(id) + body;
    TaggedJoined(schema, id, body, d, tag);
    RawBytesJoin(schema, TagAssigned(id, body, d, tag), 1, tag, rest);
  }

  /** get_raw_bytes from k on, with what the stored fields join to. */
  lemma RawBytesJoin(schema: Schema, st: State, k: nat, out: Bytes, rest: Bytes)
    requires WellFormed(schema) && Stored(schema, st) && k <= |schema| && Joined(schema, st, k) == rest
    ensures RawBytesLoop(schema, st, k, out).result == Ok(out + rest)
  {
    RawBytesFrom(schema, st, k, out);
  }

  /** get_raw_bytes assigns the tag its default first. */
  lemma TagFirst(schema: Schema, id: string, body: Bytes)
    requires TaggedFrame(schema) && S.IsAscii(id)
    requires ValueLiteral(schema[0].spec.default.value) == Some(schema[0].spec.kind.literal.decoded)
    ensures var tag := schema[0].spec.kind.literal.encoded;
      GetRawBytesF(schema, PayloadAssigned(id, body))
        == RawBytesLoop(schema, TagAssigned(id, body, schema[0].spec.default.value, tag), 1, tag)
  {
    FirstFixedRaw(schema, PayloadAssigned(id, body), schema[0].spec.default.value);
  }

  /** The FORM frame as declared cannot be saved: whatever the id and
      payload, save fails with ValueError.  Its tag reads back as the bytes
      b'FORM' (FixedString's default is its encoded value,
      steel/fields/strings.py:83), and assigning those bytes back compares
      them with the text 'FORM' (steel/fields/strings.py:100-102). */
  lemma IffFormSaveRefused(id: string, body: Bytes)
    ensures WellFormed(IffForm)
    ensures SaveF(IffForm, VText(id), body) == Err(ValueError)
  {
    IffFormAt();
    TaggedRefused(IffForm, id, body);
  }

  /** With the tag defaulting to its text, save writes 'FORM', the
      payload's length as four big-endian bytes, the padded ASCII form type,
      then the payload; the refusals are those of the Chunk frame. */
  lemma IffFormIntendedSave(id: string, body: Bytes)
    ensures WellFormed(IffFormIntended)
    ensures SaveF(IffFormIntended, VText(id), body)
      == if !S.IsAscii(id) || |body| >= PyInt.Pow2(32) then Err(ValueError)
         else Ok(FormTag.encoded + N.BigEndianEncode(4, |body|) + IdBytes(id) + body)
  {
    IffFormIntendedAt();
    TaggedWrites(IffFormIntended, id, body);
  }
}
