/** Chunked containers (steel/chunks/base.py) and the two frame layouts of
    Electronic Arts' EA IFF 85 (steel/chunks/iff.py).

    A frame is a byte structure of its own: it has an id, a size and a
    payload, and a chunk class registered under an id is built over the
    payload of each frame carrying that id.  A chunk list reads frames one
    after another from a shared source; a chunk streamer yields them one at a
    time.  Frames are read by the structure engine of engine.dfy, in place by
    the class of structure.dfy. */
module Chunks {
  import opened Results
  import opened Streams
  import opened Values
  import opened Kinds
  import opened Schema
  import opened Engine
  import Structures
  import N = Numbers
  import S = Strings
  import ReadSave
  import Seqs

  // ---------------------------------------------------------------------------
  // The EA IFF 85 frame layouts (steel/chunks/iff.py)

  /** String(size=4, encoding='ascii'): four bytes, NUL padded. */
  const IdKind: Kind := KString(Fixed(4), S.Ascii, [0], [0])

  /** Integer(size=4): unsigned, big-endian. */
  const SizeKind: Kind := KInteger(N.IntegerField(4, false, N.BigEndian, N.TwosComplement))

  /** Payload(size=size): as many bytes as the sibling `size` says. */
  const PayloadKind: Kind := KBytes(SizeOf("size"))

  /** FixedString('FORM') and its ASCII encoding. */
  const FormTag: S.FixedString := S.FixedString([0x46, 0x4f, 0x52, 0x4d], S.LitText("FORM"))

  /** A field declared without default or choices. */
  function Plain(name: string, k: Kind): (e: Entry)
    ensures e.FieldEntry? && e.name == name && e.spec.kind == k
  {
    FieldEntry(name, FieldSpec(k, None, []))
  }

  /** The Chunk frame (steel/chunks/iff.py:10-13): a 4-byte ASCII id, a
      4-byte length, then that many payload bytes. */
  const IffChunk: Schema := [Plain("id", IdKind), Plain("size", SizeKind), Plain("payload", PayloadKind)]

  /** The FORM frame (steel/chunks/iff.py:16-20): the literal 'FORM', a
      4-byte length, the 4-byte form type (ASCII from the class option),
      then `length` payload bytes.  A FixedString defaults to its encoding. */
  const IffForm: Schema :=
    [FieldEntry("tag", FieldSpec(KFixedString(FormTag, Some(S.Ascii)), Some(VBytes(FormTag.encoded)), [])),
     Plain("size", SizeKind), Plain("id", IdKind), Plain("payload", PayloadKind)]

  /** FormTag is what FixedString('FORM') builds with its default arguments. */
  lemma FormTagBuilt()
    ensures S.MakeFixedString(S.LitText("FORM"), S.FixedStringDefaults(S.Ascii)) == Ok(FormTag)
  {
    var e := S.AsciiEncode("FORM").value;
    assert e[0] == 0x46 && e[1] == 0x4f && e[2] == 0x52 && e[3] == 0x4d;
    assert e == FormTag.encoded;
    assert e + [] == e;
  }

  /** Both layouts are schemas the engine runs, without conditions and with
      codecs that fail only with ValueError. */
  lemma IffLayouts()
    ensures WellFormed(IffChunk) && ReadSave.NoConditions(IffChunk) && ReadSave.SchemaCodecsValid(IffChunk)
    ensures WellFormed(IffForm) && ReadSave.NoConditions(IffForm) && ReadSave.SchemaCodecsValid(IffForm)
  {
    IffChunkLayout();
    IffFormLayout();
    IffChunkCodecs();
    IffFormCodecs();
  }

  lemma IffChunkCodecs()
    ensures ReadSave.NoConditions(IffChunk) && ReadSave.SchemaCodecsValid(IffChunk)
  {
    S.AsciiIsValid();
  }

  lemma IffFormCodecs()
    ensures ReadSave.NoConditions(IffForm) && ReadSave.SchemaCodecsValid(IffForm)
  {
    S.AsciiIsValid();
  }

  lemma IffChunkLayout()
    ensures WellFormed(IffChunk)
  {
    assert IffChunk[0].name != "size";
    assert EntryIndexFrom(IffChunk, "size", 1) == Some(1);
    assert EntryIndex(IffChunk, "size") == Some(1);
  }

  lemma IffFormLayout()
    ensures WellFormed(IffForm)
  {
    IffFormSizes();
  }

  lemma IffFormSizes()
    ensures forall k: nat :: IsField(IffForm, k) ==> SizeRefOk(IffForm, k, SizeArgOf(IffForm[k].spec.kind))
  {
    assert IffForm[0].name != "size";
    assert EntryIndexFrom(IffForm, "size", 1) == Some(1);
    assert EntryIndex(IffForm, "size") == Some(1);
    assert SizeRefOk(IffForm, 3, SizeArgOf(IffForm[3].spec.kind));
    forall k: nat | IsField(IffForm, k)
      ensures SizeRefOk(IffForm, k, SizeArgOf(IffForm[k].spec.kind))
    {
      assert k < 4;
    }
  }

  // ---------------------------------------------------------------------------
  // Chunk.read (steel/chunks/base.py:30-40)

  /** The loop of Chunk.read from field k on, out being the bytes gathered so
      far: get each field, then append its raw bytes. */
  function ChunkReadLoop(schema: Schema, st: State, k: nat, out: Bytes): (r: Step<Bytes>)
    requires WellFormed(schema) && k <= |schema|
    decreases |schema| - k
  {
    if k == |schema| then Step(Ok(out), st)
    else
      var name := schema[k].name;
      var g := GetAttrF(schema, st, name);
      if g.result.Err? then Step(Err(g.result.error), g.st)
      else if name !in g.st.raw then Step(Err(KeyError), g.st)
      else ChunkReadLoop(schema, g.st, k + 1, out + g.st.raw[name])
  }

  /** Chunk.read: a frame structure over the source, every field forced,
      and the raw bytes of the fields; the state is the frame instance. */
  function ChunkReadF(schema: Schema, src: Source): Step<Bytes>
    requires WellFormed(schema)
  {
    ChunkReadLoop(schema, Fresh(Some(src)), 0, [])
  }

  /** Chunk.read, over a new frame instance. */
  method ChunkRead(schema: Schema, src: Source) returns (bytes: Result<Bytes>, frame: Structures.Structure)
    requires WellFormed(schema)
    ensures fresh(frame) && frame.Valid() && frame.schema == schema
    ensures Step(bytes, frame.State()) == ChunkReadF(schema, src)
  {
    frame := new Structures.Structure(schema, Some(src));
    var out: Bytes := [];
    var k := 0;
    while k < |schema|
      invariant 0 <= k <= |schema|
      invariant frame.Valid() && frame.schema == schema
      invariant ChunkReadLoop(schema, frame.State(), k, out) == ChunkReadF(schema, src)
      decreases |schema| - k
    {
      var name := schema[k].name;
      var g := frame.GetAttr(name);
      if g.Err? {
        return Err(g.error), frame;
      }
      if name !in frame.raw {
        return Err(KeyError), frame;
      }
      out := out + frame.raw[name];
      k := k + 1;
    }
    return Ok(out), frame;
  }

  /** The loop of Chunk.read after a fresh read of the fields before k:
      every field it passes gets raw bytes, read where the previous one
      stopped, so what was gathered followed by what the source still holds
      is what it held at the start. */
  lemma {:induction false} ChunkReadLoopConsumes(schema: Schema, st: State, k: nat, out: Bytes, start: Bytes)
    requires WellFormed(schema) && ReadSave.SchemaCodecsValid(schema) && ReadSave.NoConditions(schema)
    requires k <= |schema| && st.file.mode != Unreadable
    requires forall i :: 0 <= i < |schema| ==> (schema[i].name in st.raw <==> i < k)
    requires out + st.file.Rest() == start && st.position == |out|
    ensures var r := ChunkReadLoop(schema, st, k, out);
      r.result.Ok? ==> && r.result.value + r.st.file.Rest() == start
                       && r.st.position == |r.result.value|
                       && r.st.file.mode == st.file.mode
                       && forall i :: 0 <= i < |schema| ==> schema[i].name in r.st.raw
    decreases |schema| - k
  {
    if k < |schema| {
      ReadSave.SaveStep(schema, st, k, out);
      var g := GetF(schema, st, k);
      if g.result.Ok? {
        var b := g.st.raw[schema[k].name];
        ReadSave.RawGrows(schema, st, g.st, k);
        Seqs.Assoc(out, b, g.st.file.Rest());
        ChunkReadLoopConsumes(schema, g.st, k + 1, out + b, start);
      }
    }
  }

  /** A frame read from a readable source consumes exactly the bytes it
      returns, forcing every field; its position counts them. */
  lemma ChunkReadConsumes(schema: Schema, src: Source)
    requires WellFormed(schema) && ReadSave.SchemaCodecsValid(schema) && ReadSave.NoConditions(schema)
    requires src.mode != Unreadable
    ensures var r := ChunkReadF(schema, src);
      r.result.Ok? ==> && r.result.value + r.st.file.Rest() == src.Rest()
                       && r.st.position == |r.result.value|
                       && r.st.file.mode == src.mode
                       && forall i :: 0 <= i < |schema| ==> schema[i].name in r.st.raw
  {
    ChunkReadLoopConsumes(schema, Fresh(Some(src)), 0, [], src.Rest());
  }

  /** The bytes Chunk.read returns are the raw bytes of the frame's fields in
      declaration order, as the instance keeps them. */
  lemma {:induction false} ChunkReadLoopInOrder(schema: Schema, st: State, k: nat, out: Bytes)
    requires WellFormed(schema) && ReadSave.NoConditions(schema) && k <= |schema| && HasRawBefore(schema, st, k)
    requires out == RawConcat(schema, st, Range(0, k))
    ensures var r := ChunkReadLoop(schema, st, k, out);
      r.result.Ok? ==> HasRawBefore(schema, r.st, |schema|) && r.result.value == RawConcat(schema, r.st, Range(0, |schema|))
    decreases |schema| - k
  {
    if k < |schema| {
      var name := schema[k].name;
      IndexOfName(schema, k);
      var g := GetAttrF(schema, st, name);
      assert g == GetF(schema, st, k);
      if g.result.Ok? && name in g.st.raw {
        RawConcatKept(schema, st, g.st, k);
        RangeSnoc(k);
        ChunkReadLoopInOrder(schema, g.st, k + 1, out + g.st.raw[name]);
      }
    }
  }

  /** Chunk.read gives the fields' raw bytes concatenated in declaration order. */
  lemma ChunkReadInOrder(schema: Schema, src: Source)
    requires WellFormed(schema) && ReadSave.NoConditions(schema)
    ensures var r := ChunkReadF(schema, src);
      r.result.Ok? ==> HasRawBefore(schema, r.st, |schema|) && r.result.value == RawConcat(schema, r.st, Range(0, |schema|))
  {
    ChunkReadLoopInOrder(schema, Fresh(Some(src)), 0, []);
  }

  /** Raw bytes received by earlier fields are kept by a later get. */
  lemma {:induction false} RawConcatKept(schema: Schema, a: State, b: State, k: nat)
    requires k <= |schema| && HasRawBefore(schema, a, k) && RawKept(a, b)
    ensures HasRawBefore(schema, b, k) && RawConcat(schema, b, Range(0, k)) == RawConcat(schema, a, Range(0, k))
    decreases k
  {
    if k > 0 {
      RangeSnoc(k - 1);
      RawConcatKept(schema, a, b, k - 1);
    }
  }

  /** The indices below k + 1 are those below k, then k. */
  lemma RangeSnoc(k: nat)
    ensures |Range(0, k + 1)| == k + 1 && Range(0, k + 1)[..k] == Range(0, k) && Range(0, k + 1)[k] == k
  {
  }

  // ---------------------------------------------------------------------------
  // ChunkList (steel/chunks/base.py:78-115)

  /** A class decorated with Chunk(id); `name` tells classes apart. */
  datatype ChunkClass = ChunkClass(name: nat, id: Value)

  /** The class a terminator names: the frame structure class (or one of
      its bases), or a chunk class. */
  datatype ClassRef = FrameStructure | MemberClass(cls: ChunkClass)

  /** known_types (steel/chunks/base.py:84): each id maps to a class
      registered with it. */
  function KnownTypes(classes: seq<ChunkClass>): (r: map<Value, ChunkClass>)
    ensures forall i :: 0 <= i < |classes| ==> classes[i].id in r
    ensures forall v :: v in r ==> r[v] in classes && r[v].id == v
    decreases |classes|
  {
    if |classes| == 0 then map[]
    else KnownTypes(classes[..|classes| - 1])[classes[|classes| - 1].id := classes[|classes| - 1]]
  }

  /** Of several classes registered under one id, the last one wins (a dict
      comprehension keeps the last value for a key). */
  lemma {:induction false} KnownTypesLast(classes: seq<ChunkClass>, i: nat)
    requires i < |classes|
    requires forall j :: i < j < |classes| ==> classes[j].id != classes[i].id
    ensures KnownTypes(classes)[classes[i].id] == classes[i]
    decreases |classes|
  {
    if i < |classes| - 1 {
      var front := classes[..|classes| - 1];
      assert front[i] == classes[i];
      KnownTypesLast(front, i);
    }
  }

  /** A chunk list field: the frame it reads, its registered classes by id,
      and the optional terminator. */
  datatype ChunkList = ChunkList(frame: Schema, known: map<Value, ChunkClass>, terminator: Option<ClassRef>)

  /** A member built over a frame's payload, cls(payload, process_chunk=False). */
  datatype Member = Member(cls: ChunkClass, payload: Value)

  /** Python truth of a value. */
  predicate Truthy(v: Value) {
    match v
    case VNone => false
    case VBool(b) => b
    case VInt(i) => i != 0
    case VText(t) => |t| > 0
    case VBytes(b) => |b| > 0
    case VList(items) => |items| > 0
  }

  /** What one frame does to the list. */
  datatype Verdict = Keep(m: Member) | Skip | Stop | Fail(error: Error)

  datatype Classified = Classified(verdict: Verdict, st: State)

  /** The loop body after the read (steel/chunks/base.py:93-103): a
      registered id builds a member over the payload, which is kept unless
      the frame is an instance of the terminator; any other true id is
      skipped; a false id ends the list.  The terminator test looks at the
      frame, which only the frame structure class has as an instance.  A
      list is not hashable, so it cannot be looked up. */
  function ClassifyF(cl: ChunkList, st: State): (r: Classified)
    requires WellFormed(cl.frame)
  {
    var id := GetAttrF(cl.frame, st, "id");
    if id.result.Err? then Classified(Fail(id.result.error), id.st)
    else if id.result.value.VList? then Classified(Fail(TypeError), id.st)
    else if id.result.value in cl.known then
      var p := GetAttrF(cl.frame, id.st, "payload");
      if p.result.Err? then Classified(Fail(p.result.error), p.st)
      else if cl.terminator == Some(FrameStructure) then Classified(Stop, p.st)
      else Classified(Keep(Member(cl.known[id.result.value], p.result.value)), p.st)
    else if Truthy(id.result.value) then Classified(Skip, id.st)
    else Classified(Stop, id.st)
  }

  /** How reading a chunk list ends: the bytes of every frame read and the
      members kept, in stream order; an exception; or a frame that consumed
      nothing and did not end the list, which the next pass reads again, for
      ever. */
  datatype ListOutcome = Decoded(raw: Bytes, members: seq<Member>, after: Source) | Failed(error: Error) | Hangs

  /** The loop of ChunkList.read (steel/chunks/base.py:87-104) from `src`,
      with the bytes and members gathered so far. */
  function ListLoop(cl: ChunkList, src: Source, raw: Bytes, members: seq<Member>): (r: ListOutcome)
    requires WellFormed(cl.frame)
    decreases |src.Rest()|
  {
    var f := ChunkReadF(cl.frame, src);
    if f.result.Err? then Failed(f.result.error)
    else
      var c := ClassifyF(cl, f.st);
      var seen := raw + f.result.value;
      match c.verdict
      case Fail(e) => Failed(e)
      case Stop => Decoded(seen, members, c.st.file)
      case Skip =>
        if |c.st.file.Rest()| < |src.Rest()| then ListLoop(cl, c.st.file, seen, members) else Hangs
      case Keep(m) =>
        if |c.st.file.Rest()| < |src.Rest()| then ListLoop(cl, c.st.file, seen, members + [m]) else Hangs
  }

  /** ChunkList.read: the raw bytes and the members, raised together as
      FullyDecoded. */
  function ChunkListReadF(cl: ChunkList, src: Source): ListOutcome
    requires WellFormed(cl.frame)
  {
    ListLoop(cl, src, [], [])
  }

  /** The loop body after the read, on the frame instance. */
  method ClassifyFrame(cl: ChunkList, frame: Structures.Structure) returns (v: Verdict)
    requires frame.Valid() && frame.schema == cl.frame
    modifies frame
    ensures Classified(v, frame.State()) == ClassifyF(cl, old(frame.State()))
  {
    var id := frame.GetAttr("id");
    if id.Err? {
      return Fail(id.error);
    }
    if id.value.VList? {
      return Fail(TypeError);
    }
    if id.value in cl.known {
      var p := frame.GetAttr("payload");
      if p.Err? {
        return Fail(p.error);
      }
      if cl.terminator == Some(FrameStructure) {
        return Stop;
      }
      return Keep(Member(cl.known[id.value], p.value));
    }
    if Truthy(id.value) {
      return Skip;
    }
    return Stop;
  }

  /** ChunkList.read. */
  method ReadChunkList(cl: ChunkList, src: Source) returns (r: ListOutcome)
    requires WellFormed(cl.frame)
    ensures r == ChunkListReadF(cl, src)
  {
    var file := src;
    var raw: Bytes := [];
    var members: seq<Member> := [];
    while true
      invariant ListLoop(cl, file, raw, members) == ChunkListReadF(cl, src)
      decreases |file.Rest()|
    {
      var bytes, frame := ChunkRead(cl.frame, file);
      if bytes.Err? {
        return Failed(bytes.error);
      }
      var v := ClassifyFrame(cl, frame);
      raw := raw + bytes.value;
      if v.Fail? {
        return Failed(v.error);
      }
      if v.Stop? {
        return Decoded(raw, members, frame.file);
      }
      if |frame.file.Rest()| >= |file.Rest()| {
        return Hangs;
      }
      if v.Keep? {
        members := members + [v.m];
      }
      file := frame.file;
    }
  }

  /** An outcome read after `raw` and `members` were gathered. */
  function Prefixed(raw: Bytes, members: seq<Member>, o: ListOutcome): ListOutcome {
    match o
    case Decoded(r, m, a) => Decoded(raw + r, members + m, a)
    case _ => o
  }

  /** The loop only appends to what it gathered before. */
  lemma {:induction false} ListLoopGathers(cl: ChunkList, src: Source, raw: Bytes, members: seq<Member>)
    requires WellFormed(cl.frame)
    ensures ListLoop(cl, src, raw, members) == Prefixed(raw, members, ListLoop(cl, src, [], []))
    decreases |src.Rest()|
  {
    var f := ChunkReadF(cl.frame, src);
    if f.result.Ok? {
      var c := ClassifyF(cl, f.st);
      var b := f.result.value;
      var a := c.st.file;
      assert [] + b == b && members + [] == members;
      if |a.Rest()| < |src.Rest()| && c.verdict.Skip? {
        assert ListLoop(cl, src, raw, members) == ListLoop(cl, a, raw + b, members);
        assert ListLoop(cl, src, [], []) == ListLoop(cl, a, b, []);
        ListLoopGathers(cl, a, raw + b, members);
        ListLoopGathers(cl, a, b, []);
        PrefixedTwice(raw, b, members, [], ListLoop(cl, a, [], []));
      } else if |a.Rest()| < |src.Rest()| && c.verdict.Keep? {
        var m := c.verdict.m;
        assert [] + [m] == [m];
        assert ListLoop(cl, src, raw, members) == ListLoop(cl, a, raw + b, members + [m]);
        assert ListLoop(cl, src, [], []) == ListLoop(cl, a, b, [m]);
        ListLoopGathers(cl, a, raw + b, members + [m]);
        ListLoopGathers(cl, a, b, [m]);
        PrefixedTwice(raw, b, members, [m], ListLoop(cl, a, [], []));
      }
    }
  }

  lemma PrefixedTwice(r1: Bytes, r2: Bytes, m1: seq<Member>, m2: seq<Member>, o: ListOutcome)
    ensures Prefixed(r1 + r2, m1 + m2, o) == Prefixed(r1, m1, Prefixed(r2, m2, o))
  {
    if o.Decoded? {
      Seqs.Assoc(r1, r2, o.raw);
      Seqs.Assoc(m1, m2, o.members);
    }
  }

  /** A frame with a registered id, when no frame-class terminator is set,
      contributes its member, in stream order, ahead of the members of the
      frames after it (steel/chunks/base.py:91-97). */
  lemma KnownFrameKept(cl: ChunkList, src: Source)
    requires WellFormed(cl.frame) && cl.terminator != Some(FrameStructure)
    requires ChunkReadF(cl.frame, src).result.Ok?
    requires ClassifyF(cl, ChunkReadF(cl.frame, src).st).verdict.Keep?
    ensures var f := ChunkReadF(cl.frame, src);
      var c := ClassifyF(cl, f.st);
      && c.verdict.m == Member(cl.known[GetAttrF(cl.frame, f.st, "id").result.value],
                               GetAttrF(cl.frame, GetAttrF(cl.frame, f.st, "id").st, "payload").result.value)
      && ChunkListReadF(cl, src) ==
           if |c.st.file.Rest()| < |src.Rest()| then Prefixed(f.result.value, [c.verdict.m], ChunkListReadF(cl, c.st.file))
           else Hangs
  {
    var f := ChunkReadF(cl.frame, src);
    var c := ClassifyF(cl, f.st);
    if |c.st.file.Rest()| < |src.Rest()| {
      assert [] + f.result.value == f.result.value;
      assert [] + [c.verdict.m] == [c.verdict.m];
      ListLoopGathers(cl, c.st.file, f.result.value, [c.verdict.m]);
    }
  }

  /** A frame whose id is true but not registered is consumed and skipped
      (steel/chunks/base.py:98-100). */
  lemma UnknownFrameSkipped(cl: ChunkList, src: Source)
    requires WellFormed(cl.frame)
    requires var f := ChunkReadF(cl.frame, src);
      var id := GetAttrF(cl.frame, f.st, "id");
      && f.result.Ok? && id.result.Ok? && !id.result.value.VList?
      && id.result.value !in cl.known && Truthy(id.result.value)
    ensures var f := ChunkReadF(cl.frame, src);
      var a := GetAttrF(cl.frame, f.st, "id").st.file;
      ChunkListReadF(cl, src) ==
        if |a.Rest()| < |src.Rest()| then Prefixed(f.result.value, [], ChunkListReadF(cl, a)) else Hangs
  {
    var f := ChunkReadF(cl.frame, src);
    var a := GetAttrF(cl.frame, f.st, "id").st.file;
    if |a.Rest()| < |src.Rest()| {
      assert [] + f.result.value == f.result.value;
      ListLoopGathers(cl, a, f.result.value, []);
    }
  }

  /** A frame whose id is false (the empty id read at the end of the input)
      ends the list, its bytes included (steel/chunks/base.py:101-104). */
  lemma EmptyIdEnds(cl: ChunkList, src: Source)
    requires WellFormed(cl.frame)
    requires var f := ChunkReadF(cl.frame, src);
      var id := GetAttrF(cl.frame, f.st, "id");
      && f.result.Ok? && id.result.Ok? && !id.result.value.VList?
      && id.result.value !in cl.known && !Truthy(id.result.value)
    ensures var f := ChunkReadF(cl.frame, src);
      ChunkListReadF(cl, src) == Decoded(f.result.value, [], GetAttrF(cl.frame, f.st, "id").st.file)
  {
    assert [] + ChunkReadF(cl.frame, src).result.value == ChunkReadF(cl.frame, src).result.value;
  }

  /** With the frame structure class as terminator, the first frame with a
      registered id ends the list before its member is appended, so a list
      that decodes keeps no member at all (steel/chunks/base.py:95-96). */
  lemma {:induction false} FrameTerminatorKeepsNothing(cl: ChunkList, src: Source, raw: Bytes, members: seq<Member>)
    requires WellFormed(cl.frame) && cl.terminator == Some(FrameStructure)
    ensures ListLoop(cl, src, raw, members).Decoded? ==> ListLoop(cl, src, raw, members).members == members
    decreases |src.Rest()|
  {
    var f := ChunkReadF(cl.frame, src);
    if f.result.Ok? {
      var c := ClassifyF(cl, f.st);
      if c.verdict.Skip? && |c.st.file.Rest()| < |src.Rest()| {
        assert ListLoop(cl, src, raw, members) == ListLoop(cl, c.st.file, raw + f.result.value, members);
        FrameTerminatorKeepsNothing(cl, c.st.file, raw + f.result.value, members);
      } else {
        assert !c.verdict.Keep?;
      }
    }
  }

  /** A chunk class as terminator never matches a frame: the list reads as
      if no terminator were set (steel/chunks/base.py:95). */
  lemma {:induction false} MemberTerminatorIgnored(cl: ChunkList, src: Source, raw: Bytes, members: seq<Member>)
    requires WellFormed(cl.frame) && cl.terminator.Some? && cl.terminator.value.MemberClass?
    ensures ListLoop(cl, src, raw, members) == ListLoop(cl.(terminator := None), src, raw, members)
    decreases |src.Rest()|
  {
    var plain := cl.(terminator := None);
    var f := ChunkReadF(cl.frame, src);
    if f.result.Ok? {
      var c := ClassifyF(cl, f.st);
      assert c == ClassifyF(plain, f.st);
      if |c.st.file.Rest()| < |src.Rest()| {
        match c.verdict
        case Skip => MemberTerminatorIgnored(cl, c.st.file, raw + f.result.value, members);
        case Keep(m) => MemberTerminatorIgnored(cl, c.st.file, raw + f.result.value, members + [m]);
        case _ =>
      }
    }
  }

  /** Getting a field of a frame whose fields all have raw bytes reads
      nothing: the source stays where it is. */
  lemma ForcedGetReadsNothing(schema: Schema, st: State, name: string)
    requires WellFormed(schema) && ReadSave.NoConditions(schema)
    requires forall i :: 0 <= i < |schema| ==> schema[i].name in st.raw
    ensures GetAttrF(schema, st, name).st.file == st.file
    ensures forall i :: 0 <= i < |schema| ==> schema[i].name in GetAttrF(schema, st, name).st.raw
  {
  }

  /** One frame of the list on a readable source: the bytes read are those
      consumed, and the look at its id and payload reads nothing more. */
  lemma FrameConsumes(cl: ChunkList, src: Source)
    requires WellFormed(cl.frame) && ReadSave.SchemaCodecsValid(cl.frame) && ReadSave.NoConditions(cl.frame)
    requires src.mode != Unreadable
    ensures var f := ChunkReadF(cl.frame, src);
      f.result.Ok? ==> && ClassifyF(cl, f.st).st.file == f.st.file
                       && f.result.value + f.st.file.Rest() == src.Rest()
                       && f.st.file.mode == src.mode
  {
    var f := ChunkReadF(cl.frame, src);
    if f.result.Ok? {
      ChunkReadConsumes(cl.frame, src);
      var id := GetAttrF(cl.frame, f.st, "id");
      ForcedGetReadsNothing(cl.frame, f.st, "id");
      ForcedGetReadsNothing(cl.frame, id.st, "payload");
    }
  }

  /** On a readable source, the bytes of a decoded list are exactly the
      bytes its frames consumed, the one that ended it included
      (steel/chunks/base.py:88-92, 104). */
  lemma {:induction false} ListLoopConsumes(cl: ChunkList, src: Source, raw: Bytes, members: seq<Member>)
    requires WellFormed(cl.frame) && ReadSave.SchemaCodecsValid(cl.frame) && ReadSave.NoConditions(cl.frame)
    requires src.mode != Unreadable
    ensures var r := ListLoop(cl, src, raw, members);
      r.Decoded? ==> r.raw + r.after.Rest() == raw + src.Rest() && r.after.mode == src.mode
    decreases |src.Rest()|
  {
    var f := ChunkReadF(cl.frame, src);
    if f.result.Ok? {
      FrameConsumes(cl, src);
      var c := ClassifyF(cl, f.st);
      var b := f.result.value;
      var a := c.st.file;
      Seqs.Assoc(raw, b, a.Rest());
      if |a.Rest()| < |src.Rest()| && c.verdict.Skip? {
        assert ListLoop(cl, src, raw, members) == ListLoop(cl, a, raw + b, members);
        ListLoopConsumes(cl, a, raw + b, members);
      } else if |a.Rest()| < |src.Rest()| && c.verdict.Keep? {
        assert ListLoop(cl, src, raw, members) == ListLoop(cl, a, raw + b, members + [c.verdict.m]);
        ListLoopConsumes(cl, a, raw + b, members + [c.verdict.m]);
      }
    }
  }

  /** ChunkList.read returns, as its raw bytes, exactly what it consumed. */
  lemma ListConsumes(cl: ChunkList, src: Source)
    requires WellFormed(cl.frame) && ReadSave.SchemaCodecsValid(cl.frame) && ReadSave.NoConditions(cl.frame)
    requires src.mode != Unreadable
    ensures var r := ChunkListReadF(cl, src);
      r.Decoded? ==> r.raw + r.after.Rest() == src.Rest()
  {
    ListLoopConsumes(cl, src, [], []);
    assert [] + src.Rest() == src.Rest();
  }

  // ---------------------------------------------------------------------------
  // ChunkMixin.save and ChunkList.encode (steel/chunks/base.py:63-69, 106-115)

  /** ChunkMixin.save: a frame built with the class's id, the member's own
      serialisation as payload (whose assignment also sets the size through
      the payload's size hook), then size = len(payload) explicitly; the
      frame's bytes are written. */
  function SaveF(frame: Schema, id: Value, body: Bytes): (r: Result<Bytes>)
    requires WellFormed(frame)
  {
    var c := ConstructF(frame, None, [("id", id)]);
    if c.result.Err? then Err(c.result.error)
    else
      var s1 := SetAttrF(frame, c.st, "payload", VBytes(body));
      if s1.result.Err? then Err(s1.result.error)
      else
        var p := GetAttrF(frame, s1.st, "payload");
        if p.result.Err? then Err(p.result.error)
        else
          var n := Len(p.result.value);
          if n.Err? then Err(n.error)
          else
            var s2 := SetAttrF(frame, p.st, "size", VInt(n.value));
            if s2.result.Err? then Err(s2.result.error)
            else GetRawBytesF(frame, s2.st).result
  }

  /** ChunkMixin.save, on a new frame instance. */
  method Save(frame: Schema, id: Value, body: Bytes) returns (r: Result<Bytes>)
    requires WellFormed(frame)
    ensures r == SaveF(frame, id, body)
  {
    var c := Structures.Create(frame, None, [("id", id)]);
    if c.Err? {
      return Err(c.error);
    }
    var chunk := c.value;
    var s1 := chunk.SetAttr("payload", VBytes(body));
    if s1.Err? {
      return Err(s1.error);
    }
    var p := chunk.GetAttr("payload");
    if p.Err? {
      return Err(p.error);
    }
    var n := Len(p.value);
    if n.Err? {
      return Err(n.error);
    }
    var s2 := chunk.SetAttr("size", VInt(n.value));
    if s2.Err? {
      return Err(s2.error);
    }
    r := chunk.GetRawBytes();
  }

  /** A member object to be written: its class and the bytes its own
      structure save writes. */
  datatype Outgoing = Outgoing(cls: ChunkClass, body: Bytes)

  /** isinstance(member, terminator): only a chunk class has members as
      instances. */
  predicate IsInstance(o: Outgoing, t: ClassRef) {
    t == MemberClass(o.cls)
  }

  /** The frames of the members from i on, each checked against the
      registered classes first, out being what was written so far. */
  function EncodeLoop(cl: ChunkList, chunks: seq<Outgoing>, i: nat, out: Bytes): (r: Result<Bytes>)
    requires WellFormed(cl.frame)
    decreases |chunks| - i
  {
    if i >= |chunks| then Ok(out)
    else if chunks[i].cls !in cl.known.Values then Err(TypeError)
    else
      var b := SaveF(cl.frame, chunks[i].cls.id, chunks[i].body);
      if b.Err? then b else EncodeLoop(cl, chunks, i + 1, out + b.value)
  }

  /** What terminator().save(output) writes: a new frame structure saves
      its own fields; a new member of a chunk class saves a frame around
      `body`, the bytes its own structure save writes. */
  function TerminatorSave(cl: ChunkList, body: Bytes): (r: Result<Bytes>)
    requires WellFormed(cl.frame) && cl.terminator.Some?
  {
    match cl.terminator.value
    case FrameStructure => GetRawBytesF(cl.frame, Fresh(None)).result
    case MemberClass(c) => SaveF(cl.frame, c.id, body)
  }

  /** ChunkList.encode: every member's frame, then a terminator unless the
      last member already is one.  With a terminator set and no member, the
      test looks at a loop variable that was never bound. */
  function EncodeF(cl: ChunkList, chunks: seq<Outgoing>, body: Bytes): (r: Result<Bytes>)
    requires WellFormed(cl.frame)
  {
    var out :- EncodeLoop(cl, chunks, 0, []);
    if cl.terminator.None? then Ok(out)
    else if |chunks| == 0 then Err(NameError)
    else if IsInstance(chunks[|chunks| - 1], cl.terminator.value) then Ok(out)
    else
      var t :- TerminatorSave(cl, body);
      Ok(out + t)
  }

  /** ChunkList.encode, writing into a buffer. */
  method Encode(cl: ChunkList, chunks: seq<Outgoing>, body: Bytes) returns (r: Result<Bytes>)
    requires WellFormed(cl.frame)
    ensures r == EncodeF(cl, chunks, body)
  {
    var output: Bytes := [];
    var i := 0;
    while i < |chunks|
      invariant 0 <= i <= |chunks|
      invariant EncodeLoop(cl, chunks, i, output) == EncodeLoop(cl, chunks, 0, [])
      decreases |chunks| - i
    {
      if chunks[i].cls !in cl.known.Values {
        return Err(TypeError);
      }
      var b := Save(cl.frame, chunks[i].cls.id, chunks[i].body);
      if b.Err? {
        return b;
      }
      output := output + b.value;
      i := i + 1;
    }
    if cl.terminator.None? {
      return Ok(output);
    }
    if |chunks| == 0 {
      return Err(NameError);
    }
    if IsInstance(chunks[|chunks| - 1], cl.terminator.value) {
      return Ok(output);
    }
    var t: Result<Bytes>;
    match cl.terminator.value {
      case FrameStructure =>
        var s := new Structures.Structure(cl.frame, None);
        t := s.GetRawBytes();
      case MemberClass(c) =>
        t := Save(cl.frame, c.id, body);
    }
    if t.Err? {
      return Err(t.error);
    }
    return Ok(output + t.value);
  }

  /** Every member is of a registered class and its frame can be saved. */
  ghost predicate Writable(cl: ChunkList, chunks: seq<Outgoing>)
    requires WellFormed(cl.frame)
  {
    forall i :: 0 <= i < |chunks| ==> chunks[i].cls in cl.known.Values && SaveF(cl.frame, chunks[i].cls.id, chunks[i].body).Ok?
  }

  /** The saved frames of writable members, concatenated in order. */
  ghost function Frames(cl: ChunkList, chunks: seq<Outgoing>): Bytes
    requires WellFormed(cl.frame) && Writable(cl, chunks)
    decreases |chunks|
  {
    if |chunks| == 0 then []
    else SaveF(cl.frame, chunks[0].cls.id, chunks[0].body).value + Frames(cl, chunks[1..])
  }

  /** The member loop succeeds exactly on writable members, and then
      writes their frames in order; a member of an unregistered class,
      reached before any save failed, raises TypeError
      (steel/chunks/base.py:108-111). */
  lemma {:induction false} EncodeLoopWrites(cl: ChunkList, chunks: seq<Outgoing>, i: nat, out: Bytes)
    requires WellFormed(cl.frame) && i <= |chunks|
    ensures EncodeLoop(cl, chunks, i, out).Ok? <==> Writable(cl, chunks[i..])
    ensures Writable(cl, chunks[i..]) ==> EncodeLoop(cl, chunks, i, out) == Ok(out + Frames(cl, chunks[i..]))
    ensures var j := FirstUnwritable(cl, chunks, i); j < |chunks| && chunks[j].cls !in cl.known.Values ==>
              EncodeLoop(cl, chunks, i, out) == Err(TypeError)
    decreases |chunks| - i
  {
    if i < |chunks| {
      var rest := chunks[i + 1..];
      assert chunks[i..][1..] == rest;
      assert forall x :: 0 <= x < |rest| ==> rest[x] == chunks[i..][x + 1];
      var b := SaveF(cl.frame, chunks[i].cls.id, chunks[i].body);
      if chunks[i].cls in cl.known.Values && b.Ok? {
        EncodeLoopWrites(cl, chunks, i + 1, out + b.value);
        if Writable(cl, rest) {
          Seqs.Assoc(out, b.value, Frames(cl, rest));
        }
        assert Writable(cl, chunks[i..]) <==> Writable(cl, rest);
      } else {
        assert !Writable(cl, chunks[i..]) by {
          assert chunks[i..][0] == chunks[i];
        }
      }
    } else {
      assert chunks[i..] == [];
      assert out + [] == out;
    }
  }

  /** The index of the first member from i on that is not writable. */
  ghost function FirstUnwritable(cl: ChunkList, chunks: seq<Outgoing>, i: nat): (r: nat)
    requires WellFormed(cl.frame) && i <= |chunks|
    ensures i <= r <= |chunks|
    ensures r < |chunks| ==> !(chunks[r].cls in cl.known.Values && SaveF(cl.frame, chunks[r].cls.id, chunks[r].body).Ok?)
    decreases |chunks| - i
  {
    if i == |chunks| then i
    else if !(chunks[i].cls in cl.known.Values && SaveF(cl.frame, chunks[i].cls.id, chunks[i].body).Ok?) then i
    else FirstUnwritable(cl, chunks, i + 1)
  }

  /** encode writes the members' frames, then a terminator exactly when one
      is set and the last member is not an instance of it
      (steel/chunks/base.py:112-115). */
  lemma EncodeTerminated(cl: ChunkList, chunks: seq<Outgoing>, body: Bytes)
    requires WellFormed(cl.frame) && Writable(cl, chunks) && |chunks| > 0
    requires cl.terminator.Some? && !IsInstance(chunks[|chunks| - 1], cl.terminator.value) ==> TerminatorSave(cl, body).Ok?
    ensures EncodeF(cl, chunks, body) ==
      Ok(Frames(cl, chunks) +
         if cl.terminator.Some? && !IsInstance(chunks[|chunks| - 1], cl.terminator.value)
         then TerminatorSave(cl, body).value else [])
  {
    EncodeLoopWrites(cl, chunks, 0, []);
    assert chunks[0..] == chunks;
    assert [] + Frames(cl, chunks) == Frames(cl, chunks);
    assert Frames(cl, chunks) + [] == Frames(cl, chunks);
  }

  /** A terminator set and nothing to encode: NameError, as the test reads
      the unbound loop variable (steel/chunks/base.py:112). */
  lemma EncodeEmptyUnbound(cl: ChunkList, body: Bytes)
    requires WellFormed(cl.frame)
    ensures EncodeF(cl, [], body) == if cl.terminator.Some? then Err(NameError) else Ok([])
  {
  }

  /** A member of an unregistered class that comes before any failing save
      makes encode raise TypeError. */
  lemma EncodeRejectsUnknown(cl: ChunkList, chunks: seq<Outgoing>, body: Bytes)
    requires WellFormed(cl.frame)
    requires FirstUnwritable(cl, chunks, 0) < |chunks| && chunks[FirstUnwritable(cl, chunks, 0)].cls !in cl.known.Values
    ensures EncodeF(cl, chunks, body) == Err(TypeError)
  {
    assert chunks[0..] == chunks;
    EncodeLoopWrites(cl, chunks, 0, []);
  }

  // ---------------------------------------------------------------------------
  // ChunkValueList.of_type (steel/chunks/base.py:118-120)

  /** The members of the given class, in order. */
  function OfType(members: seq<Member>, cls: ChunkClass): (r: seq<Member>)
    ensures |r| <= |members|
    decreases |members|
  {
    if |members| == 0 then []
    else (if members[0].cls == cls then [members[0]] else []) + OfType(members[1..], cls)
  }

  /** of_type keeps exactly the members of the class. */
  lemma {:induction false} OfTypeExactly(members: seq<Member>, cls: ChunkClass)
    ensures forall m :: m in OfType(members, cls) <==> m in members && m.cls == cls
    decreases |members|
  {
    if |members| > 0 {
      OfTypeExactly(members[1..], cls);
      assert forall m :: m in members <==> m == members[0] || m in members[1..];
    }
  }

  /** of_type keeps the order of the list: filtering a concatenation is the
      concatenation of the filtered parts. */
  lemma {:induction false} OfTypeConcat(a: seq<Member>, b: seq<Member>, cls: ChunkClass)
    ensures OfType(a + b, cls) == OfType(a, cls) + OfType(b, cls)
    decreases |a|
  {
    if |a| > 0 {
      assert (a + b)[1..] == a[1..] + b;
      OfTypeConcat(a[1..], b, cls);
      Seqs.Assoc(if a[0].cls == cls then [a[0]] else [], OfType(a[1..], cls), OfType(b, cls));
    } else {
      assert a + b == b;
    }
  }

  /** A list of one class only is its own of_type. */
  lemma {:induction false} OfTypeAll(members: seq<Member>, cls: ChunkClass)
    requires forall i :: 0 <= i < |members| ==> members[i].cls == cls
    ensures OfType(members, cls) == members
    decreases |members|
  {
    if |members| > 0 {
      OfTypeAll(members[1..], cls);
      assert [members[0]] + members[1..] == members;
    }
  }

  // ---------------------------------------------------------------------------
  // ChunkMixin.__init__ (steel/chunks/base.py:47-61)

  /** What a new member is built over: the payload of a frame read and
      checked here, or the arguments it was given. */
  datatype Built = OverPayload(payload: Value, frame: State) | OverArguments

  /** A frame read over src with every field forced, then its id got twice
      (steel/chunks/base.py:51-56); the result is the second id. */
  function ForcedId(frame: Schema, src: Source): (r: Step<Value>)
    requires WellFormed(frame)
  {
    var f := ForceLoop(frame, Fresh(Some(src)), 0);
    if f.result.Err? then Step(Err(f.result.error), f.st)
    else
      var id1 := GetAttrF(frame, f.st, "id");
      if id1.result.Err? then id1
      else GetAttrF(frame, id1.st, "id")
  }

  /** ChunkMixin.__init__ with the source as its one positional argument
      (None: no positional argument).  Without one there is nothing to
      process; with process_chunk, a frame is read over it, every field
      forced, and its id must equal the class's (ValueError otherwise). */
  function MemberInitF(frame: Schema, cls: ChunkClass, file: Option<Source>, processChunk: bool): (r: Result<Built>)
    requires WellFormed(frame)
    ensures !processChunk || file.None? ==> r == Ok(OverArguments)
    ensures r.Ok? && r.value.OverPayload? ==>
      ForcedId(frame, file.value).result.Ok? && PyEq(ForcedId(frame, file.value).result.value, cls.id)
    ensures processChunk && file.Some? && ForcedId(frame, file.value).result.Ok? ==>
      (!PyEq(ForcedId(frame, file.value).result.value, cls.id) ==> r == Err(ValueError))
  {
    if !processChunk || file.None? then Ok(OverArguments)
    else
      var id := ForcedId(frame, file.value);
      if id.result.Err? then Err(id.result.error)
      else if !PyEq(id.result.value, cls.id) then Err(ValueError)
      else
        var p := GetAttrF(frame, id.st, "payload");
        if p.result.Err? then Err(p.result.error)
        else Ok(OverPayload(p.result.value, p.st))
  }

  /** ChunkMixin.__init__, over a new frame instance. */
  method MemberInit(frame: Schema, cls: ChunkClass, file: Option<Source>, processChunk: bool) returns (r: Result<Built>)
    requires WellFormed(frame)
    ensures r == MemberInitF(frame, cls, file, processChunk)
  {
    if !processChunk || file.None? {
      return Ok(OverArguments);
    }
    var chunk := new Structures.Structure(frame, file);
    var f := chunk.Force();
    if f.Err? {
      return Err(f.error);
    }
    var id1 := chunk.GetAttr("id");
    if id1.Err? {
      return Err(id1.error);
    }
    var id2 := chunk.GetAttr("id");
    if id2.Err? {
      return Err(id2.error);
    }
    if !PyEq(id2.value, cls.id) {
      return Err(ValueError);
    }
    var p := chunk.GetAttr("payload");
    if p.Err? {
      return Err(p.error);
    }
    return Ok(OverPayload(p.value, chunk.State()));
  }

  // ---------------------------------------------------------------------------
  // ChunkStreamer (steel/chunks/base.py:123-152)

  /** What parse yields: a registered parser applied to a frame's payload,
      or the frame itself when its id has no parser. */
  datatype Yielded = Applied(parser: nat, payload: Value) | Unrecognised(frame: State)

  /** How a stream of at most n items ended: all n were given, the stream
      stopped (a false id or the terminator), or an exception was raised. */
  datatype StreamEnd = AllGiven | Finished | Threw(error: Error)

  datatype Streamed = Streamed(items: seq<Yielded>, end: StreamEnd, file: Source)

  /** parser(*chunk_classes) registers one function under the id of each class,
      in order. */
  function Registered(parsers: map<Value, nat>, classes: seq<ChunkClass>, func: nat): (r: map<Value, nat>)
    ensures r.Keys >= parsers.Keys
    decreases |classes|
  {
    if |classes| == 0 then parsers
    else Registered(parsers, classes[..|classes| - 1], func)[classes[|classes| - 1].id := func]
  }

  /** After registration, the parsers hold the ids of the classes, each
      mapped to the function, and every other id keeps its parser. */
  lemma {:induction false} RegisteredMaps(parsers: map<Value, nat>, classes: seq<ChunkClass>, func: nat)
    ensures var r := Registered(parsers, classes, func);
      forall v :: v in r <==> v in parsers || exists i :: 0 <= i < |classes| && classes[i].id == v
    ensures var r := Registered(parsers, classes, func);
      forall i :: 0 <= i < |classes| ==> r[classes[i].id] == func
    ensures var r := Registered(parsers, classes, func);
      forall v :: v in parsers && (forall i :: 0 <= i < |classes| ==> classes[i].id != v) ==> r[v] == parsers[v]
    decreases |classes|
  {
    if |classes| > 0 {
      var init := classes[..|classes| - 1];
      var last := classes[|classes| - 1];
      RegisteredMaps(parsers, init, func);
      var r := Registered(parsers, classes, func);
      assert r == Registered(parsers, init, func)[last.id := func];
      forall v | v in r
        ensures v in parsers || exists i :: 0 <= i < |classes| && classes[i].id == v
      {
        if v != last.id && v !in parsers {
          var i :| 0 <= i < |init| && init[i].id == v;
          assert classes[i] == init[i];
        }
      }
      forall v | v in parsers || exists i :: 0 <= i < |classes| && classes[i].id == v
        ensures v in r
      {
        if v !in parsers && v != last.id {
          var i :| 0 <= i < |classes| && classes[i].id == v;
          assert i < |init| && init[i] == classes[i];
        }
      }
      forall i | 0 <= i < |classes|
        ensures r[classes[i].id] == func
      {
        if i < |init| {
          assert init[i] == classes[i];
        }
      }
      forall v | v in parsers && (forall i :: 0 <= i < |classes| ==> classes[i].id != v)
        ensures r[v] == parsers[v]
      {
        assert v != last.id;
        assert forall i :: 0 <= i < |init| ==> init[i] == classes[i];
      }
    }
  }

  /** One step of the stream: the item a frame over src gives, or how the
      stream ends there. */
  datatype Next = Gave(item: Yielded, file: Source) | Ended(end: StreamEnd, file: Source)

  /** One frame of ChunkStreamer.parse (steel/chunks/base.py:137-152): its
      id is got first; a frame with a parser is forced and its payload
      handed to the parser, unless the frame class is the terminator,
      which ends the stream; one whose id is true but has no parser is
      forced and yielded itself; a false id ends the stream. */
  function StreamNext(frame: Schema, parsers: map<Value, nat>, terminator: Option<ClassRef>, src: Source): (r: Next)
    requires WellFormed(frame)
    ensures r.Ended? ==> r.end != AllGiven
    ensures terminator == Some(FrameStructure) && r.Gave? ==> r.item.Unrecognised?
  {
    var id := GetAttrF(frame, Fresh(Some(src)), "id");
    if id.result.Err? then Ended(Threw(id.result.error), id.st.file)
    else if id.result.value.VList? then Ended(Threw(TypeError), id.st.file)
    else if id.result.value in parsers then
      var f := ForceLoop(frame, id.st, 0);
      if f.result.Err? then Ended(Threw(f.result.error), f.st.file)
      else
        var p := GetAttrF(frame, f.st, "payload");
        if p.result.Err? then Ended(Threw(p.result.error), p.st.file)
        else if terminator == Some(FrameStructure) then Ended(Finished, p.st.file)
        else Gave(Applied(parsers[id.result.value], p.result.value), p.st.file)
    else if Truthy(id.result.value) then
      var f := ForceLoop(frame, id.st, 0);
      if f.result.Err? then Ended(Threw(f.result.error), f.st.file)
      else Gave(Unrecognised(f.st), f.st.file)
    else Ended(Finished, id.st.file)
  }

  /** A stream of at most n items, each step taken by `next` where the
      previous one ended. */
  function Unroll(next: Source -> Next, src: Source, n: nat): (r: Streamed)
    decreases n, 1
  {
    if n == 0 then Streamed([], AllGiven, src) else UnrollOn(next, src, n)
  }

  /** The stream of n > 0 items: one step, then the rest of the stream
      from where it ended. */
  function UnrollOn(next: Source -> Next, src: Source, n: nat): (r: Streamed)
    requires n > 0
    decreases n, 0
  {
    match next(src)
    case Ended(e, file) => Streamed([], e, file)
    case Gave(y, file) =>
      var rest := Unroll(next, file, n - 1);
      Streamed([y] + rest.items, rest.end, rest.file)
  }

  /** A stream of n > 0 items takes its first step, then goes on. */
  lemma UnrollStep(next: Source -> Next, src: Source, n: nat)
    requires n > 0
    ensures next(src).Ended? ==> Unroll(next, src, n) == Streamed([], next(src).end, next(src).file)
    ensures next(src).Gave? ==>
      Unroll(next, src, n) == Ahead([next(src).item], Unroll(next, next(src).file, n - 1))
  {
    assert Unroll(next, src, n) == UnrollOn(next, src, n);
  }

  /** A stream whose first step ends gives nothing more. */
  lemma UnrollEnded(next: Source -> Next, src: Source, n: nat, x: Next)
    requires n > 0 && next(src) == x && x.Ended?
    ensures Unroll(next, src, n) == Streamed([], x.end, x.file)
  {
    UnrollStep(next, src, n);
  }

  /** A stream whose first step gives an item goes on from where that step
      stopped. */
  lemma UnrollGave(next: Source -> Next, src: Source, n: nat, x: Next, rest: nat)
    requires n > 0 && rest == n - 1 && next(src) == x && x.Gave?
    ensures Unroll(next, src, n) == Ahead([x.item], Unroll(next, x.file, rest))
  {
    UnrollStep(next, src, n);
  }

  /** A stream already `items` into its run goes on with the item its
      next step gives. */
  lemma UnrollAdvance(next: Source -> Next, src: Source, n: nat, file: Source, left: nat, items: seq<Yielded>,
                      y: Yielded, after: Source, rest: nat)
    requires Ahead(items, Unroll(next, file, left)) == Unroll(next, src, n)
    requires Unroll(next, file, left) == Ahead([y], Unroll(next, after, rest))
    ensures Ahead(items + [y], Unroll(next, after, rest)) == Unroll(next, src, n)
  {
    Seqs.Assoc(items, [y], Unroll(next, after, rest).items);
  }

  /** A stream with the given items before it. */
  function Ahead(items: seq<Yielded>, r: Streamed): Streamed {
    Streamed(items + r.items, r.end, r.file)
  }

  /** Asked for more items, a stream gives the same ones first, and one
      that ended before n items ends the same way. */
  lemma {:induction false} UnrollExtends(next: Source -> Next, src: Source, n: nat)
    ensures Unroll(next, src, n).items <= Unroll(next, src, n + 1).items
    ensures Unroll(next, src, n).end != AllGiven ==> Unroll(next, src, n + 1) == Unroll(next, src, n)
    decreases n
  {
    UnrollStep(next, src, n + 1);
    if n > 0 {
      UnrollStep(next, src, n);
      if next(src).Gave? {
        UnrollExtends(next, next(src).file, n - 1);
      }
    }
  }

  /** A stream whose steps never end with AllGiven gives at most n items,
      and exactly n when it reports AllGiven. */
  lemma {:induction false} UnrollLength(next: Source -> Next, src: Source, n: nat)
    requires forall s :: next(s).Ended? ==> next(s).end != AllGiven
    ensures |Unroll(next, src, n).items| <= n
    ensures Unroll(next, src, n).end == AllGiven ==> |Unroll(next, src, n).items| == n
    decreases n
  {
    if n > 0 {
      UnrollStep(next, src, n);
      if next(src).Gave? {
        UnrollLength(next, next(src).file, n - 1);
      }
    }
  }

  /** Every item of a stream is one some step gave. */
  lemma {:induction false} UnrollItems(next: Source -> Next, src: Source, n: nat, p: Yielded -> bool)
    requires forall s :: next(s).Gave? ==> p(next(s).item)
    ensures forall i :: 0 <= i < |Unroll(next, src, n).items| ==> p(Unroll(next, src, n).items[i])
    decreases n
  {
    if n > 0 {
      UnrollStep(next, src, n);
      if next(src).Gave? {
        UnrollItems(next, next(src).file, n - 1, p);
      }
    }
  }

  /** The streamer's step: one frame read by ChunkStreamer.parse. */
  ghost function Stepper(frame: Schema, parsers: map<Value, nat>, terminator: Option<ClassRef>): Source -> Next {
    s => if WellFormed(frame) then StreamNext(frame, parsers, terminator, s) else Ended(Finished, s)
  }

  /** ChunkStreamer.parse for at most n items: the unrolling of its
      one-frame step. */
  ghost function StreamF(frame: Schema, parsers: map<Value, nat>, terminator: Option<ClassRef>, src: Source, n: nat): (r: Streamed)
    requires WellFormed(frame)
  {
    Unroll(Stepper(frame, parsers, terminator), src, n)
  }

  /** A generator asked for more items gives the same ones first: the
      first n items of the stream do not depend on how many more are
      wanted, and a stream that ended before n items ends the same way. */
  lemma StreamExtends(frame: Schema, parsers: map<Value, nat>, terminator: Option<ClassRef>, src: Source, n: nat)
    requires WellFormed(frame)
    ensures StreamF(frame, parsers, terminator, src, n).items <= StreamF(frame, parsers, terminator, src, n + 1).items
    ensures StreamF(frame, parsers, terminator, src, n).end != AllGiven ==>
      StreamF(frame, parsers, terminator, src, n + 1) == StreamF(frame, parsers, terminator, src, n)
  {
    UnrollExtends(Stepper(frame, parsers, terminator), src, n);
  }

  /** The stream gives at most the items asked for, and all of them unless
      it ended early. */
  lemma StreamLength(frame: Schema, parsers: map<Value, nat>, terminator: Option<ClassRef>, src: Source, n: nat)
    requires WellFormed(frame)
    ensures |StreamF(frame, parsers, terminator, src, n).items| <= n
    ensures StreamF(frame, parsers, terminator, src, n).end == AllGiven ==> |StreamF(frame, parsers, terminator, src, n).items| == n
  {
    UnrollLength(Stepper(frame, parsers, terminator), src, n);
  }

  /** With the frame structure class as terminator, the first frame that
      has a parser ends the stream: no parser is ever applied
      (steel/chunks/base.py:142-143). */
  lemma StreamFrameTerminator(frame: Schema, parsers: map<Value, nat>, src: Source, n: nat)
    requires WellFormed(frame)
    ensures forall i :: 0 <= i < |StreamF(frame, parsers, Some(FrameStructure), src, n).items| ==>
      StreamF(frame, parsers, Some(FrameStructure), src, n).items[i].Unrecognised?
  {
    UnrollItems(Stepper(frame, parsers, Some(FrameStructure)), src, n, (y: Yielded) => y.Unrecognised?);
  }

  /** One frame of ChunkStreamer.parse, a new instance over the shared source. */
  method NextFrame(frame: Schema, parsers: map<Value, nat>, terminator: Option<ClassRef>, src: Source) returns (x: Next)
    requires WellFormed(frame)
    ensures x == StreamNext(frame, parsers, terminator, src)
  {
    var chunk := new Structures.Structure(frame, Some(src));
    var id := chunk.GetAttr("id");
    if id.Err? {
      return Ended(Threw(id.error), chunk.file);
    }
    if id.value.VList? {
      return Ended(Threw(TypeError), chunk.file);
    }
    if id.value in parsers {
      var f := chunk.Force();
      if f.Err? {
        return Ended(Threw(f.error), chunk.file);
      }
      var p := chunk.GetAttr("payload");
      if p.Err? {
        return Ended(Threw(p.error), chunk.file);
      }
      if terminator == Some(FrameStructure) {
        return Ended(Finished, chunk.file);
      }
      return Gave(Applied(parsers[id.value], p.value), chunk.file);
    } else if Truthy(id.value) {
      var f := chunk.Force();
      if f.Err? {
        return Ended(Threw(f.error), chunk.file);
      }
      return Gave(Unrecognised(chunk.State()), chunk.file);
    }
    return Ended(Finished, chunk.file);
  }

  /** One frame of the stream, read by NextFrame: how the stream of `left`
      more items from src goes on. */
  method StreamOne(frame: Schema, parsers: map<Value, nat>, terminator: Option<ClassRef>, src: Source, ghost left: nat, ghost rest: nat)
    returns (x: Next)
    requires WellFormed(frame) && left > 0 && rest == left - 1
    ensures x.Ended? ==> StreamF(frame, parsers, terminator, src, left) == Streamed([], x.end, x.file)
    ensures x.Gave? ==> StreamF(frame, parsers, terminator, src, left)
                        == Ahead([x.item], StreamF(frame, parsers, terminator, x.file, rest))
  {
    x := NextFrame(frame, parsers, terminator, src);
    StreamStep(frame, parsers, terminator, src, left, rest, x);
  }

  /** The stream of left > 0 items takes the streamer's step first. */
  lemma StreamStep(frame: Schema, parsers: map<Value, nat>, terminator: Option<ClassRef>, src: Source,
                   left: nat, rest: nat, x: Next)
    requires WellFormed(frame) && left > 0 && rest == left - 1
    requires x == StreamNext(frame, parsers, terminator, src)
    ensures x.Ended? ==> StreamF(frame, parsers, terminator, src, left) == Streamed([], x.end, x.file)
    ensures x.Gave? ==> StreamF(frame, parsers, terminator, src, left)
                        == Ahead([x.item], StreamF(frame, parsers, terminator, x.file, rest))
  {
    var next := Stepper(frame, parsers, terminator);
    assert next(src) == x;
    if x.Ended? {
      UnrollEnded(next, src, left, x);
    } else {
      UnrollGave(next, src, left, x, rest);
    }
  }

  /** ChunkStreamer.parse for at most n items: frames are read one after
      the other from where the previous one stopped. */
  method ParseFrames(frame: Schema, parsers: map<Value, nat>, terminator: Option<ClassRef>, src: Source, n: nat) returns (r: Streamed)
    requires WellFormed(frame)
    ensures r == StreamF(frame, parsers, terminator, src, n)
  {
    var file := src;
    var items: seq<Yielded> := [];
    var left: nat := n;
    while true
      invariant Ahead(items, StreamF(frame, parsers, terminator, file, left)) == StreamF(frame, parsers, terminator, src, n)
      decreases left
    {
      if left == 0 {
        assert items + [] == items;
        return Streamed(items, AllGiven, file);
      }
      var rest := left - 1;
      var x := StreamOne(frame, parsers, terminator, file, left, rest);
      if x.Ended? {
        assert items + [] == items;
        return Streamed(items, x.end, x.file);
      }
      UnrollAdvance(Stepper(frame, parsers, terminator), src, n, file, left, items, x.item, x.file, rest);
      file := x.file;
      items := items + [x.item];
      left := rest;
    }
  }

  /** A chunk streamer: the frame it reads, its terminator and the parsers
      registered by id. */
  class ChunkStreamer {
    const frame: Schema
    const terminator: Option<ClassRef>
    var parsers: map<Value, nat>

    constructor (frame: Schema, terminator: Option<ClassRef>)
      ensures this.frame == frame && this.terminator == terminator && parsers == map[]
    {
      this.frame := frame;
      this.terminator := terminator;
      parsers := map[];
    }

    /** parser(*chunk_classes)(func) (steel/chunks/base.py:129-133). */
    method Parser(classes: seq<ChunkClass>, func: nat)
      modifies this
      ensures parsers == Registered(old(parsers), classes, func)
    {
      var i := 0;
      while i < |classes|
        invariant 0 <= i <= |classes|
        invariant parsers == Registered(old(parsers), classes[..i], func)
        decreases |classes| - i
      {
        assert classes[..i + 1][..i] == classes[..i];
        parsers := parsers[classes[i].id := func];
        i := i + 1;
      }
      assert classes[..|classes|] == classes;
    }

    method Parse(src: Source, n: nat) returns (r: Streamed)
      requires WellFormed(frame)
      ensures r == StreamF(frame, parsers, terminator, src, n)
    {
      r := ParseFrames(frame, parsers, terminator, src, n);
    }

  }
}
