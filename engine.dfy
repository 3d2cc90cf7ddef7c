/** A byte structure instance and what its operations do to it, as functions
    of its state (steel/base.py, steel/common/fields.py:153-184 and 257-294,
    steel/fields/base.py, steel/byte/fields/integrity.py:43-69).

    An instance holds its source, a position, the carry buffer of incremental
    writes, the raw bytes of each entry and the decoded value of each name.
    Its mode is fixed by the source: a structure built from a file reads it
    ('rb'); one built without reads nothing ('wb'), and every read raises
    IOError.  Each operation here is a function from a state to a result and
    the next state; the class in structure.dfy carries out the same steps in
    place.  The instance bound to a field while it works is passed
    explicitly: the functions that resolve a sizing argument take the state. */
module Engine {
  import opened Results
  import opened Streams
  import opened Values
  import opened Kinds
  import opened Schema
  import N = Numbers
  import PyInt

  datatype State = State(file: Source, position: int, buffer: Bytes,
                         raw: map<string, Bytes>, values: map<string, Value>)

  /** A result together with the state the operation left behind: an
      exception does not undo what was stored before it. */
  datatype Step<+T> = Step(result: Result<T>, st: State)

  /** The state of a new instance: in read mode over the given source, in
      write mode (an unreadable empty source) without one. */
  function Fresh(source: Option<Source>): (st: State)
    ensures source.Some? ==> st.file == source.value
    ensures source.None? ==> st.file.mode == Unreadable
    ensures st.raw == map[] && st.values == map[] && st.buffer == [] && st.position == 0
  {
    State(if source.Some? then source.value else Source([], 0, Unreadable), 0, [], map[], map[])
  }

  /** The structure's read wrapper moved the source to `after`, adding what it
      consumed to the position (steel/base.py:24-31). */
  function Advance(st: State, after: Source): State {
    st.(file := after, position := st.position + Consumed(st.file, after))
  }

  /** Every raw entry of a is still in b, unchanged: raw bytes are only ever
      added or replaced by an assignment. */
  predicate RawKept(a: State, b: State) {
    forall n :: n in a.raw ==> n in b.raw && b.raw[n] == a.raw[n]
  }

  /** The entries before k have raw bytes. */
  predicate HasRawBefore(schema: Schema, st: State, k: nat) {
    forall i :: 0 <= i < k && i < |schema| ==> schema[i].name in st.raw
  }

  // ---------------------------------------------------------------------------
  // Getting a field

  /** The tail of Field.__get__ once raw bytes exist: the cached value, or
      the decoded raw bytes, stored for later gets. */
  function CachedGet(schema: Schema, st: State, i: nat): (r: Step<Value>)
    requires WellFormed(schema) && IsField(schema, i) && schema[i].name in st.raw
    ensures r.st == st.(values := r.st.values)
    ensures r.result.Ok? ==> r.st.values == st.values[schema[i].name := r.result.value]
    ensures r.result.Err? ==> r.st == st
  {
    var name := schema[i].name;
    if name in st.values then Step(Ok(st.values[name]), st)
    else
      var d := DecodeK(schema[i].spec.kind, st.raw[name]);
      if d.Err? then Step(Err(d.error), st)
      else Step(Ok(d.value), st.(values := st.values[name := d.value]))
  }

  /** A sizing argument of the field at k, read with the instance bound
      while _extract works on k: a sibling before k already has raw bytes,
      so getting it only decodes; a guarded sibling is a plain attribute;
      Remainder gives -1. */
  function ScanSize(schema: Schema, st: State, k: nat, arg: SizeArg): (r: Step<Resolved>)
    requires WellFormed(schema) && HasRawBefore(schema, st, k) && SizeRefOk(schema, k, arg)
    ensures r.st == st.(values := r.st.values)
  {
    match arg
    case NoSize => Step(Ok(RNone), st)
    case Fixed(n) => Step(Ok(RInt(n)), st)
    case ToEnd => Step(Ok(RInt(-1)), st)
    case SizeOf(name) =>
      var i := EntryIndex(schema, name);
      if i.Some? then
        var g := CachedGet(schema, st, i.value);
        Step(if g.result.Err? then Err(g.result.error) else Ok(SizeFromValue(g.result.value)), g.st)
      else if name in st.values then Step(Ok(SizeFromValue(st.values[name])), st)
      else Step(Err(AttributeError), st)
  }

  /** digest(span bytes) & ((1 << size*8) - 1)
      (steel/byte/fields/integrity.py:61-63). */
  function Calculated(k: Kind, data: Bytes): (r: int)
    requires k.KCheckSum?
    ensures 0 <= r < PyInt.Pow2(8 * k.field.size)
  {
    k.digest(data) % PyInt.Pow2(8 * k.field.size)
  }

  /** The raw bytes of the given entries, concatenated in order. */
  function RawConcat(schema: Schema, st: State, idx: seq<nat>): Bytes
    requires forall x :: 0 <= x < |idx| ==> idx[x] < |schema| && schema[idx[x]].name in st.raw
  {
    if |idx| == 0 then []
    else RawConcat(schema, st, idx[..|idx| - 1]) + st.raw[schema[idx[|idx| - 1]].name]
  }

  /** CheckSum.read inside its structure (steel/byte/fields/integrity.py:49-59):
      read and decode the stored value, then compare it with the value
      calculated from the span, whose fields all come earlier and so all have
      raw bytes already (build_cache finds nothing to do). */
  function ReadCheckSum(schema: Schema, st: State, k: nat): (r: Step<Bytes>)
    requires WellFormed(schema) && IsCheckSum(schema, k) && HasRawBefore(schema, st, k)
    ensures r.st.raw == st.raw
    ensures r.st.values == st.values
  {
    var kind := schema[k].spec.kind;
    var o := FieldRead(RInt(kind.field.size), st.file);
    var st1 := Advance(st, o.after);
    if o.result.Err? then Step(Err(o.result.error), st1)
    else if N.IntegerDecode(kind.field, o.result.value) != Calculated(kind, RawConcat(schema, st, Span(schema, k)))
    then Step(Err(IntegrityError), st1)
    else Step(Ok(o.result.value), st1)
  }

  /** One pass of the loop of _extract (steel/base.py:63-71): read the field
      at k with the instance bound, store its raw bytes, and its value when
      the read produced one. */
  function ReadFieldF(schema: Schema, st: State, k: nat): (r: Step<Bytes>)
    requires WellFormed(schema) && IsField(schema, k) && HasRawBefore(schema, st, k)
    ensures r.result.Ok? ==> r.st.raw == st.raw[schema[k].name := r.result.value]
    ensures r.result.Err? ==> r.st.raw == st.raw
  {
    var name := schema[k].name;
    var kind := schema[k].spec.kind;
    if kind.KCheckSum? then
      var c := ReadCheckSum(schema, st, k);
      if c.result.Err? then c
      else
        var v := VInt(N.IntegerDecode(kind.field, c.result.value));
        Step(c.result, c.st.(raw := c.st.raw[name := c.result.value], values := c.st.values[name := v]))
    else
      var sz := ScanSize(schema, st, k, SizeArgOf(kind));
      if sz.result.Err? then Step(Err(sz.result.error), sz.st)
      else
        var o := KRead(kind, sz.result.value, sz.st.file);
        var st1 := Advance(sz.st, o.after);
        if o.result.Err? then Step(Err(o.result.error), st1)
        else match o.result.value
          case Raw(b) => Step(Ok(b), st1.(raw := st1.raw[name := b]))
          case Full(b, v) => Step(Ok(b), st1.(raw := st1.raw[name := b], values := st1.values[name := v]))
  }

  /** The loop of _extract from entry k on, up to the field j: entries with
      raw bytes are skipped, a condition without them cannot be read. */
  function ScanF(schema: Schema, st: State, k: nat, j: nat): (r: Step<Bytes>)
    requires WellFormed(schema) && k <= j && IsField(schema, j) && HasRawBefore(schema, st, k)
    ensures RawKept(st, r.st)
    ensures r.result.Ok? ==> HasRawBefore(schema, r.st, j + 1) && r.result.value == r.st.raw[schema[j].name]
    decreases j - k
  {
    var name := schema[k].name;
    var s: Step<Bytes> :=
      if name in st.raw then Step(Ok(st.raw[name]), st)
      else if schema[k].ConditionEntry? then Step(Err(AttributeError), st)
      else ReadFieldF(schema, st, k);
    if s.result.Err? then s
    else if k == j then Step(Ok(s.st.raw[name]), s.st)
    else ScanF(schema, s.st, k + 1, j)
  }

  /** _extract(field) (steel/base.py:60-73): the raw bytes of field j,
      reading every earlier field that lacks them first. */
  function ExtractF(schema: Schema, st: State, j: nat): (r: Step<Bytes>)
    requires WellFormed(schema) && IsField(schema, j)
    ensures RawKept(st, r.st)
    ensures r.result.Ok? ==> schema[j].name in r.st.raw && r.result.value == r.st.raw[schema[j].name]
  {
    var name := schema[j].name;
    if name in st.raw then Step(Ok(st.raw[name]), st) else ScanF(schema, st, 0, j)
  }

  /** Field.__get__ (steel/common/fields.py:153-175): extract, falling back on
      the default, or AttributeError, when the source cannot be read; then
      decode once and keep the value. */
  function GetF(schema: Schema, st: State, j: nat): (r: Step<Value>)
    requires WellFormed(schema) && IsField(schema, j)
    ensures RawKept(st, r.st)
  {
    var e := ExtractF(schema, st, j);
    if e.result.Err? then
      if e.result.error != IOError then Step(Err(e.result.error), e.st)
      else if schema[j].spec.default.Some? then Step(Ok(schema[j].spec.default.value), e.st)
      else Step(Err(AttributeError), e.st)
    else CachedGet(schema, e.st, j)
  }

  /** A sizing argument read with the instance bound, at any time: a
      top-level sibling is got (and may be read), a guarded one is a plain
      attribute (steel/common/args.py:54-67). */
  function ResolveBound(schema: Schema, st: State, arg: SizeArg): (r: Step<Resolved>)
    requires WellFormed(schema) && (arg.SizeOf? ==> FieldNameOk(schema, arg.name))
    ensures RawKept(st, r.st)
  {
    match arg
    case NoSize => Step(Ok(RNone), st)
    case Fixed(n) => Step(Ok(RInt(n)), st)
    case ToEnd => Step(Ok(RInt(-1)), st)
    case SizeOf(name) =>
      var i := EntryIndex(schema, name);
      if i.Some? then
        var g := GetF(schema, st, i.value);
        Step(if g.result.Err? then Err(g.result.error) else Ok(SizeFromValue(g.result.value)), g.st)
      else if name in st.values then Step(Ok(SizeFromValue(st.values[name])), st)
      else Step(Err(AttributeError), st)
  }

  // ---------------------------------------------------------------------------
  // Setting a field

  /** field.encode(value) with the instance bound.  Of the kinds, only a
      sized String and Reserved look at their size while encoding, and a
      String encodes the text before it does. */
  function EncodeBound(schema: Schema, st: State, j: nat, v: Value): (r: Step<Bytes>)
    requires WellFormed(schema) && IsField(schema, j)
    ensures RawKept(st, r.st)
  {
    var kind := schema[j].spec.kind;
    if kind.KString? && !v.VText? then Step(Err(AttributeError), st)
    else if kind.KString? && kind.codec.encode(v.t).Err? then Step(Err(kind.codec.encode(v.t).error), st)
    else if kind.KString? || kind.KReserved? then
      var sz := ResolveBound(schema, st, SizeArgOf(kind));
      if sz.result.Err? then Step(Err(sz.result.error), sz.st)
      else Step(EncodeK(kind, sz.result.value, v), sz.st)
    else Step(EncodeK(kind, Unbound(SizeArgOf(kind)), v), st)
  }

  /** The order in which assignments may trigger one another: a field's size
      hook assigns an earlier field, a recompute hook assigns a checksum after
      the field, and a checksum has no size hook.  So checksums rank below
      every other field, checksums by descending position, others by
      ascending position. */
  function Tier(schema: Schema, j: nat): nat {
    if IsCheckSum(schema, j) then 0 else 1
  }

  function Place(schema: Schema, j: nat): nat {
    if IsCheckSum(schema, j) then |schema| - j else j
  }

  /** Field.__set__ (steel/common/fields.py:177-184): keep the value, store its
      encoding, then run the after_encode subscribers.  A failed encoding
      leaves the value stored and no raw bytes. */
  function SetF(schema: Schema, st: State, j: nat, v: Value): (r: Step<()>)
    requires WellFormed(schema) && IsField(schema, j)
    decreases Tier(schema, j), Place(schema, j), 2, 0
  {
    var name := schema[j].name;
    var st0 := st.(values := st.values[name := v]);
    var e := EncodeBound(schema, st0, j, v);
    if e.result.Err? then Step(Err(e.result.error), e.st)
    else AfterEncode(schema, e.st.(raw := e.st.raw[name := e.result.value]), j, v)
  }

  /** The after_encode subscribers of field j: its own size hook
      (steel/common/fields.py:65-68), which sets the sibling named by its
      size to len(value), then the recompute routine of each checksum
      covering j.  The source keeps the subscribers in a set; here they run
      size hook first, then checksums in declaration order. */
  function AfterEncode(schema: Schema, st: State, j: nat, v: Value): (r: Step<()>)
    requires WellFormed(schema) && IsField(schema, j)
    decreases Tier(schema, j), Place(schema, j), 1, 0
  {
    var arg := SizeArgOf(schema[j].spec.kind);
    if !arg.SizeOf? then Hooks(schema, st, j, 0)
    else
      var n := Len(v);
      if n.Err? then Step(Err(n.error), st)
      else
        var i := EntryIndex(schema, arg.name);
        if i.None? then Hooks(schema, st.(values := st.values[arg.name := VInt(n.value)]), j, 0)
        else
          var s := SetF(schema, st, i.value, VInt(n.value));
          if s.result.Err? then s else Hooks(schema, s.st, j, 0)
  }

  /** CheckSum.update_encoded_value for each checksum covering j, from the
      i-th on (steel/byte/fields/integrity.py:65-66). */
  function Hooks(schema: Schema, st: State, j: nat, i: nat): (r: Step<()>)
    requires WellFormed(schema) && IsField(schema, j)
    decreases Tier(schema, j), Place(schema, j), 0, |Covering(schema, j)| - i
  {
    var cs := Covering(schema, j);
    if i >= |cs| then Step(Ok(()), st)
    else
      var u := UpdateEncodedValueF(schema, st, cs[i]);
      if u.result.Err? then u else Hooks(schema, u.st, j, i + 1)
  }

  /** CheckSum.update_encoded_value (steel/byte/fields/integrity.py:65-66):
      assign the checksum c its calculated value. */
  function UpdateEncodedValueF(schema: Schema, st: State, c: nat): (r: Step<()>)
    requires WellFormed(schema) && IsCheckSum(schema, c)
    decreases Tier(schema, c), Place(schema, c), 3, 0
  {
    var v := CalculatedF(schema, st, c);
    if v.result.Err? then Step(Err(v.result.error), v.st)
    else SetF(schema, v.st, c, VInt(v.result.value))
  }

  /** get_calculated_value at any time: each span field is extracted, which
      may read it, in order. */
  function CalculatedF(schema: Schema, st: State, c: nat): (r: Step<int>)
    requires WellFormed(schema) && IsCheckSum(schema, c)
    ensures RawKept(st, r.st)
  {
    var d := SpanData(schema, st, c, 0, []);
    if d.result.Err? then Step(Err(d.result.error), d.st)
    else Step(Ok(Calculated(schema[c].spec.kind, d.result.value)), d.st)
  }

  function SpanData(schema: Schema, st: State, c: nat, i: nat, acc: Bytes): (r: Step<Bytes>)
    requires WellFormed(schema) && IsCheckSum(schema, c)
    ensures RawKept(st, r.st)
    decreases |Span(schema, c)| - i
  {
    var span := Span(schema, c);
    if i >= |span| then Step(Ok(acc), st)
    else
      var e := ExtractF(schema, st, span[i]);
      if e.result.Err? then Step(Err(e.result.error), e.st)
      else SpanData(schema, e.st, c, i + 1, acc + e.result.value)
  }

  // ---------------------------------------------------------------------------
  // Conditions

  /** getattr(instance, name) for a field name: the descriptor of a
      top-level field, the instance dictionary for a guarded one. */
  function LookupF(schema: Schema, st: State, name: string): (r: Step<Value>)
    requires WellFormed(schema) && FieldNameOk(schema, name)
    ensures RawKept(st, r.st)
  {
    var i := EntryIndex(schema, name);
    if i.Some? then GetF(schema, st, i.value)
    else if name in st.values then Step(Ok(st.values[name]), st)
    else Step(Err(AttributeError), st)
  }

  function OperandF(schema: Schema, st: State, o: Operand): (r: Step<Value>)
    requires WellFormed(schema) && (o.OField? ==> FieldNameOk(schema, o.field))
    ensures RawKept(st, r.st)
  {
    match o
    case OField(name) => LookupF(schema, st, name)
    case OConst(v) => Step(Ok(v), st)
  }

  /** The ordering of two values: numbers by value, text and bytes
      lexicographically; any other pair cannot be ordered. */
  function Below(a: Value, b: Value): (r: Result<bool>)
    ensures (a.VInt? || a.VBool?) && (b.VInt? || b.VBool?) ==> r == Ok(AsInt(a).value < AsInt(b).value)
  {
    if (a.VInt? || a.VBool?) && (b.VInt? || b.VBool?) then Ok(AsInt(a).value < AsInt(b).value)
    else if a.VText? && b.VText? then Ok(TextBelow(a.t, b.t))
    else if a.VBytes? && b.VBytes? then Ok(BytesBelow(a.bytes, b.bytes))
    else Err(TypeError)
  }

  function TextBelow(a: string, b: string): bool {
    if |b| == 0 then false
    else if |a| == 0 then true
    else if a[0] != b[0] then a[0] < b[0]
    else TextBelow(a[1..], b[1..])
  }

  function BytesBelow(a: Bytes, b: Bytes): bool {
    if |b| == 0 then false
    else if |a| == 0 then true
    else if a[0] != b[0] then a[0] < b[0]
    else BytesBelow(a[1..], b[1..])
  }

  /** The comparison a condition was declared with. */
  function Compare(op: CompareOp, a: Value, b: Value): (r: Result<bool>)
    ensures op == Eq ==> r == Ok(PyEq(a, b))
    ensures op == Ne ==> r == Ok(!PyEq(a, b))
  {
    match op
    case Eq => Ok(PyEq(a, b))
    case Ne => Ok(!PyEq(a, b))
    case Lt => Below(a, b)
    case Gt => Below(b, a)
  }

  /** The guarded fields of the condition at c from the g-th on, each read
      with read_value and the instance bound, its value stored in the
      instance dictionary (steel/common/fields.py:279-288). */
  function GuardedReads(schema: Schema, st: State, c: nat, g: nat, acc: Bytes): (r: Step<Bytes>)
    requires WellFormed(schema) && c < |schema| && schema[c].ConditionEntry?
    ensures RawKept(st, r.st)
    decreases |schema[c].guarded| - g
  {
    var gs := schema[c].guarded;
    if g >= |gs| then Step(Ok(acc), st)
    else
      var kind := gs[g].spec.kind;
      assert GuardedOk(schema, gs[g]);
      var sz := ResolveBound(schema, st, SizeArgOf(kind));
      if sz.result.Err? then Step(Err(sz.result.error), sz.st)
      else
        var o := ReadValue(kind, sz.result.value, sz.st.file);
        var st1 := Advance(sz.st, o.after);
        if o.result.Err? then Step(Err(o.result.error), st1)
        else
          var st2 := st1.(values := st1.values[gs[g].name := o.result.value.1]);
          GuardedReads(schema, st2, c, g + 1, acc + o.result.value.0)
  }

  /** Condition.__get__ (steel/common/fields.py:257-289): once assigned, a
      condition is not evaluated again; otherwise the comparison decides
      whether the guarded fields are read, their bytes stored together under
      the condition's name.  The attribute itself always reads as None. */
  function ConditionGetF(schema: Schema, st: State, c: nat): (r: Step<Value>)
    requires WellFormed(schema) && c < |schema| && schema[c].ConditionEntry?
    ensures forall n :: n in st.raw && n != schema[c].name ==> n in r.st.raw && r.st.raw[n] == st.raw[n]
    ensures r.result.Ok? ==> r.result.value == VNone
  {
    var e := schema[c];
    if e.name in st.values then Step(Ok(VNone), st)
    else
      var a := LookupF(schema, st, e.subject);
      if a.result.Err? then Step(Err(a.result.error), a.st)
      else
        var b := OperandF(schema, a.st, e.other);
        if b.result.Err? then Step(Err(b.result.error), b.st)
        else
          var t := Compare(e.op, a.result.value, b.result.value);
          if t.Err? then Step(Err(t.error), b.st)
          else if !t.value then Step(Ok(VNone), b.st)
          else
            var g := GuardedReads(schema, b.st, c, 0, []);
            if g.result.Err? then Step(Err(g.result.error), g.st)
            else Step(Ok(VNone), g.st.(raw := g.st.raw[e.name := g.result.value]))
  }

  /** Condition.__set__ (steel/common/fields.py:292-294). */
  function ConditionSetF(schema: Schema, st: State, c: nat, v: Value): (r: State)
    requires c < |schema|
    ensures r.values == st.values[schema[c].name := v] && r.raw == st.raw[schema[c].name := []]
    ensures r.file == st.file && r.position == st.position && r.buffer == st.buffer
  {
    st.(values := st.values[schema[c].name := v], raw := st.raw[schema[c].name := []])
  }

  /** getattr(instance, name) for a class attribute or anything else. */
  function GetAttrF(schema: Schema, st: State, name: string): (r: Step<Value>)
    requires WellFormed(schema)
  {
    var i := EntryIndex(schema, name);
    if i.None? then
      (if name in st.values then Step(Ok(st.values[name]), st) else Step(Err(AttributeError), st))
    else if schema[i.value].FieldEntry? then GetF(schema, st, i.value)
    else ConditionGetF(schema, st, i.value)
  }

  /** setattr(instance, name, value). */
  function SetAttrF(schema: Schema, st: State, name: string, v: Value): (r: Step<()>)
    requires WellFormed(schema)
  {
    var i := EntryIndex(schema, name);
    if i.None? then Step(Ok(()), st.(values := st.values[name := v]))
    else if schema[i.value].FieldEntry? then SetF(schema, st, i.value, v)
    else Step(Ok(()), ConditionSetF(schema, st, i.value, v))
  }

  // ---------------------------------------------------------------------------
  // Reading and writing the instance itself

  /** Structure.read (steel/base.py:24-31): only in read mode; without a size
      it returns the rest of the source and leaves the position alone. */
  function ReadF(st: State, size: Option<int>): (r: Step<Bytes>)
    ensures st.file.mode == Unreadable ==> r == Step(Err(IOError), st)
    ensures r.result.Ok? && size.Some? ==> r.st.position == st.position + |r.result.value|
    ensures r.result.Ok? ==> r.result.value + r.st.file.Rest() == st.file.Rest()
  {
    var o := Read(st.file, if size.Some? then size.value else -1);
    if o.Err? then Step(Err(o.error), st)
    else if size.None? then Step(Ok(o.value.0), st.(file := o.value.1))
    else Step(Ok(o.value.0), st.(file := o.value.1, position := st.position + |o.value.0|))
  }

  /** What write reads for the field at k from the strict source (no
      instance is bound, so a sibling size is the field object itself).  A
      checksum reads its stored value, then build_cache looks for raw bytes
      on the source object: with a non-empty span that fails. */
  function WriteRead(schema: Schema, k: nat, file: Source): (r: ReadOut<(Bytes, Value)>)
    requires WellFormed(schema) && IsField(schema, k)
  {
    var kind := schema[k].spec.kind;
    if kind.KCheckSum? then
      var o := FieldRead(RInt(kind.field.size), file);
      if o.result.Err? then ReadOut(Err(o.result.error), o.after)
      else if |Span(schema, k)| > 0 then ReadOut(Err(AttributeError), o.after)
      else
        var given := N.IntegerDecode(kind.field, o.result.value);
        if given != Calculated(kind, []) then ReadOut(Err(IntegrityError), o.after)
        else ReadOut(Ok((o.result.value, VInt(given))), o.after)
    else ReadValue(kind, Unbound(SizeArgOf(kind)), file)
  }

  /** Structure.write (steel/base.py:33-55), the loop over entries from k as
      written: every entry without a value is read from the strict source;
      a field that runs out of data puts everything after the last decoded
      field back into the carry buffer and the loop goes on to the next
      entry. */
  function WriteLoop(schema: Schema, st: State, k: nat, file: Source, last: nat): (r: Step<()>)
    requires WellFormed(schema) && k <= |schema|
    ensures r.st.file == st.file
    decreases |schema| - k
  {
    if k == |schema| then Step(Ok(()), st.(position := st.position + last))
    else if schema[k].name in st.values then WriteLoop(schema, st, k + 1, file, last)
    else if schema[k].ConditionEntry? then Step(Err(AttributeError), st)
    else
      var o := WriteRead(schema, k, file);
      if o.result.Ok? then
        var name := schema[k].name;
        var st1 := st.(raw := st.raw[name := o.result.value.0], values := st.values[name := o.result.value.1], buffer := []);
        WriteLoop(schema, st1, k + 1, o.after, o.after.pos)
      else if o.result.error == EOFError then
        var back := Source(file.data, last, Strict);
        WriteLoop(schema, st.(buffer := back.Rest()), k + 1, Source(file.data, |file.data|, Strict), last)
      else Step(Err(o.result.error), st)
  }

  /** Structure.write as written. */
  function WriteF(schema: Schema, st: State, data: Bytes): (r: Step<()>)
    requires WellFormed(schema)
  {
    if st.file.mode != Unreadable then Step(Err(IOError), st)
    else WriteLoop(schema, st, 0, Source(st.buffer + data, 0, Strict), 0)
  }

  /** The loop of write as evidently intended: the first field that runs out
      of data ends the write, so no later field is read from what remains. */
  function WriteFixedLoop(schema: Schema, st: State, k: nat, file: Source, last: nat): (r: Step<()>)
    requires WellFormed(schema) && k <= |schema|
    ensures r.st.file == st.file
    decreases |schema| - k
  {
    if k == |schema| then Step(Ok(()), st.(position := st.position + last))
    else if schema[k].name in st.values then WriteFixedLoop(schema, st, k + 1, file, last)
    else if schema[k].ConditionEntry? then Step(Err(AttributeError), st)
    else
      var o := WriteRead(schema, k, file);
      if o.result.Ok? then
        var name := schema[k].name;
        var st1 := st.(raw := st.raw[name := o.result.value.0], values := st.values[name := o.result.value.1], buffer := []);
        WriteFixedLoop(schema, st1, k + 1, o.after, o.after.pos)
      else if o.result.error == EOFError then
        Step(Ok(()), st.(buffer := Source(file.data, last, Strict).Rest(), position := st.position + last))
      else Step(Err(o.result.error), st)
  }

  function WriteFixed(schema: Schema, st: State, data: Bytes): (r: Step<()>)
    requires WellFormed(schema)
  {
    if st.file.mode != Unreadable then Step(Err(IOError), st)
    else WriteFixedLoop(schema, st, 0, Source(st.buffer + data, 0, Strict), 0)
  }

  /** get_raw_bytes (steel/base.py:75-82) from entry k on, out being what
      was emitted so far: get each entry, assign it to itself when that
      left no raw bytes, and emit its raw bytes. */
  function RawBytesLoop(schema: Schema, st: State, k: nat, out: Bytes): (r: Step<Bytes>)
    requires WellFormed(schema) && k <= |schema|
    decreases |schema| - k
  {
    if k == |schema| then Step(Ok(out), st)
    else
      var name := schema[k].name;
      var g := GetAttrF(schema, st, name);
      if g.result.Err? then Step(Err(g.result.error), g.st)
      else if name in g.st.raw then RawBytesLoop(schema, g.st, k + 1, out + g.st.raw[name])
      else
        var g2 := GetAttrF(schema, g.st, name);
        if g2.result.Err? then Step(Err(g2.result.error), g2.st)
        else
          var s := SetAttrF(schema, g2.st, name, g2.result.value);
          if s.result.Err? then Step(Err(s.result.error), s.st)
          else if name !in s.st.raw then Step(Err(KeyError), s.st)
          else RawBytesLoop(schema, s.st, k + 1, out + s.st.raw[name])
  }

  /** get_raw_bytes, which save writes out (steel/base.py:89-90). */
  function GetRawBytesF(schema: Schema, st: State): (r: Step<Bytes>)
    requires WellFormed(schema)
  {
    RawBytesLoop(schema, st, 0, [])
  }

  /** One collected validation failure: the message names the field; here the
      exception class stands for the message. */
  datatype Failure = Failure(name: string, error: Error)

  /** field.validate(self, value) for the top-level field k. */
  function ValidateFieldF(schema: Schema, st: State, k: nat, v: Value): (r: Step<()>)
    requires WellFormed(schema) && IsField(schema, k)
  {
    var spec := schema[k].spec;
    var kind := spec.kind;
    var arg := SizeArgOf(kind);
    if kind.KString? || kind.KLengthIndexed? || kind.KFixedString? then
      var sib := arg.SizeOf? && NamedKindIsInteger(schema, arg.name);
      Step(ValidateK(kind, Unbound(arg), v, spec.choices, sib), st)
    else if kind.KReserved? then
      var sz := ResolveBound(schema, st, arg);
      if sz.result.Err? then Step(Err(sz.result.error), sz.st)
      else Step(ValidateK(kind, sz.result.value, v, spec.choices, false), sz.st)
    else Step(ValidateK(kind, Unbound(arg), v, spec.choices, false), st)
  }

  /** validate (steel/base.py:98-105) from entry k on: every ValueError,
      IntegrityError included, is collected and the loop goes on; any other
      error ends it.  A condition has no validate method. */
  function ValidateLoop(schema: Schema, st: State, k: nat, errors: seq<Failure>): (r: Step<seq<Failure>>)
    requires WellFormed(schema) && k <= |schema|
    decreases |schema| - k
  {
    if k == |schema| then Step(Ok(errors), st)
    else
      var v := ValidateEntry(schema, st, k);
      if v.result.Ok? then ValidateLoop(schema, v.st, k + 1, errors)
      else if v.result.error.IsValueError() then ValidateLoop(schema, v.st, k + 1, errors + [Failure(schema[k].name, v.result.error)])
      else Step(Err(v.result.error), v.st)
  }

  /** One pass of the loop of validate: get the entry, then validate its
      value; a condition has no validate method. */
  function ValidateEntry(schema: Schema, st: State, k: nat): (r: Step<()>)
    requires WellFormed(schema) && k < |schema|
  {
    var g := GetAttrF(schema, st, schema[k].name);
    if g.result.Err? then Step(Err(g.result.error), g.st)
    else if schema[k].ConditionEntry? then Step(Err(AttributeError), g.st)
    else ValidateFieldF(schema, g.st, k, g.result.value)
  }

  function ValidateF(schema: Schema, st: State): (r: Step<seq<Failure>>)
    requires WellFormed(schema)
  {
    ValidateLoop(schema, st, 0, [])
  }

  /** The keyword assignments of StructureBase.__init__, from the i-th on. */
  function AssignAll(schema: Schema, st: State, kwargs: seq<(string, Value)>, i: nat): (r: Step<()>)
    requires WellFormed(schema)
    decreases |kwargs| - i
  {
    if i >= |kwargs| then Step(Ok(()), st)
    else
      var s := SetAttrF(schema, st, kwargs[i].0, kwargs[i].1);
      if s.result.Err? then s else AssignAll(schema, s.st, kwargs, i + 1)
  }

  /** StructureBase.__init__ (steel/base.py:10-22): a source and keyword values
      together raise TypeError before anything is assigned. */
  function ConstructF(schema: Schema, source: Option<Source>, kwargs: seq<(string, Value)>): (r: Step<()>)
    requires WellFormed(schema)
    ensures source.Some? && |kwargs| > 0 ==> r == Step(Err(TypeError), Fresh(source))
  {
    if source.Some? && |kwargs| > 0 then Step(Err(TypeError), Fresh(source))
    else AssignAll(schema, Fresh(source), kwargs, 0)
  }

  /** Forcing every entry of an instance, as StructureStreamer.parse does. */
  function ForceLoop(schema: Schema, st: State, k: nat): (r: Step<()>)
    requires WellFormed(schema) && k <= |schema|
    decreases |schema| - k
  {
    if k == |schema| then Step(Ok(()), st)
    else
      var g := GetAttrF(schema, st, schema[k].name);
      if g.result.Err? then Step(Err(g.result.error), g.st) else ForceLoop(schema, g.st, k + 1)
  }

  /** How a parse ended: after the requested number of structures, at the end
      of the source (an error that consumed nothing), or with an error raised
      after consuming bytes. */
  datatype ParseEnd = Requested | AtEnd | Raised(error: Error)

  datatype Parsed = Parsed(items: seq<State>, end: ParseEnd, file: Source)

  /** StructureStreamer.parse (steel/base.py:134-147), up to n structures over
      one source, each instance reading where the previous one stopped. */
  function ParseF(schema: Schema, src: Source, n: nat): (r: Parsed)
    requires WellFormed(schema)
    ensures |r.items| <= n
    ensures r.end == Requested ==> |r.items| == n
    decreases n, 1
  {
    if n == 0 then Parsed([], Requested, src) else ParseOn(schema, src, n)
  }

  /** The parse of n > 0 structures: the first one, forced, then the rest
      from where it stopped. */
  function ParseOn(schema: Schema, src: Source, n: nat): (r: Parsed)
    requires WellFormed(schema) && n > 0
    ensures |r.items| <= n
    ensures r.end == Requested ==> |r.items| == n
    decreases n, 0
  {
    var f := ForceLoop(schema, Fresh(Some(src)), 0);
    if f.result.Err? then
      Parsed([], if f.st.file.pos == src.pos then AtEnd else Raised(f.result.error), f.st.file)
    else
      var rest := ParseF(schema, f.st.file, n - 1);
      Parsed([f.st] + rest.items, rest.end, rest.file)
  }
}
