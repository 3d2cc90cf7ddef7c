/** The byte structure instance as an object (steel/base.py:9-111 with the
    descriptors of steel/common/fields.py): its fields hold the source, the
    position, the carry buffer, the raw bytes and the decoded values, and
    each method updates them in place the way the source does.  Every method
    is proved to end in the state, and with the result, that the functions
    of engine.dfy give. */
module Structures {
  import opened Results
  import opened Streams
  import opened Values
  import opened Kinds
  import opened Schema
  import opened Engine
  import N = Numbers
  import Seqs

  class Structure {
    const schema: Schema
    var file: Source
    var position: int
    var buffer: Bytes
    var raw: map<string, Bytes>
    var values: map<string, Value>

    function State(): State
      reads this
    {
      Engine.State(file, position, buffer, raw, values)
    }

    ghost predicate Valid() {
      WellFormed(schema)
    }

    /** The attribute setup of StructureBase.__init__ (steel/base.py:11-16). */
    constructor (schema: Schema, source: Option<Source>)
      requires WellFormed(schema)
      ensures Valid() && this.schema == schema
      ensures State() == Fresh(source)
    {
      this.schema := schema;
      file := if source.Some? then source.value else Source([], 0, Unreadable);
      position := 0;
      buffer := [];
      raw := map[];
      values := map[];
    }

    /** Structure.read (steel/base.py:24-31). */
    method Read(size: Option<int>) returns (r: Result<Bytes>)
      modifies this
      ensures Step(r, State()) == ReadF(old(State()), size)
    {
      var o := Streams.Read(file, if size.Some? then size.value else -1);
      if o.Err? {
        return Err(o.error);
      }
      file := o.value.1;
      if size.Some? {
        position := position + |o.value.0|;
      }
      return Ok(o.value.0);
    }

    /** Structure.tell (steel/base.py:57-58). */
    method Tell() returns (p: int)
      ensures p == position
    {
      return position;
    }

    /** Move the source to `after` through the structure's read, counting the
        bytes consumed. */
    method AdvanceTo(after: Source)
      modifies this
      ensures State() == Advance(old(State()), after)
    {
      position := position + Consumed(file, after);
      file := after;
    }

    // -------------------------------------------------------------------------
    // Getting

    method CachedGet(i: nat) returns (r: Result<Value>)
      requires Valid() && IsField(schema, i) && schema[i].name in raw
      modifies this
      ensures Step(r, State()) == Engine.CachedGet(schema, old(State()), i)
    {
      var name := schema[i].name;
      if name in values {
        return Ok(values[name]);
      }
      var d := DecodeK(schema[i].spec.kind, raw[name]);
      if d.Err? {
        return Err(d.error);
      }
      values := values[name := d.value];
      return Ok(d.value);
    }

    method ScanSize(k: nat, arg: SizeArg) returns (r: Result<Resolved>)
      requires Valid() && HasRawBefore(schema, State(), k) && SizeRefOk(schema, k, arg)
      modifies this
      ensures Step(r, State()) == Engine.ScanSize(schema, old(State()), k, arg)
    {
      match arg {
        case NoSize => return Ok(RNone);
        case Fixed(n) => return Ok(RInt(n));
        case ToEnd => return Ok(RInt(-1));
        case SizeOf(name) =>
          var i := EntryIndex(schema, name);
          if i.Some? {
            var g := CachedGet(i.value);
            if g.Err? {
              return Err(g.error);
            }
            return Ok(SizeFromValue(g.value));
          }
          if name in values {
            return Ok(SizeFromValue(values[name]));
          }
          return Err(AttributeError);
      }
    }

    /** CheckSum.read inside the structure: read the stored value and compare
        it with the value calculated from the span's raw bytes, joined in
        order as get_calculated_value does. */
    method ReadCheckSum(k: nat) returns (r: Result<Bytes>)
      requires Valid() && IsCheckSum(schema, k) && HasRawBefore(schema, State(), k)
      modifies this
      ensures Step(r, State()) == Engine.ReadCheckSum(schema, old(State()), k)
    {
      var kind := schema[k].spec.kind;
      var o := FieldRead(RInt(kind.field.size), file);
      var span := Span(schema, k);
      var data := JoinRaw(span);
      AdvanceTo(o.after);
      if o.result.Err? {
        return Err(o.result.error);
      }
      if N.IntegerDecode(kind.field, o.result.value) != Calculated(kind, data) {
        return Err(IntegrityError);
      }
      return Ok(o.result.value);
    }

    /** The raw bytes of the entries of a span, joined in order
        (steel/byte/fields/integrity.py:61-63). */
    method JoinRaw(span: seq<nat>) returns (data: Bytes)
      requires forall i :: 0 <= i < |span| ==> span[i] < |schema| && schema[span[i]].name in raw
      ensures data == RawConcat(schema, State(), span)
    {
      ghost var s0 := State();
      data := [];
      var x := 0;
      while x < |span|
        invariant 0 <= x <= |span|
        invariant data == RawConcat(schema, s0, span[..x])
      {
        data := data + raw[schema[span[x]].name];
        ghost var was := x;
        x := x + 1;
        RawConcatStep(schema, s0, span, was, x);
      }
      assert span[..|span|] == span;
    }

    /** One pass of the loop of _extract: read the field at k and keep what
        the read produced.  For a checksum, the span's raw bytes are joined
        in order, as get_calculated_value does. */
    method ReadField(k: nat) returns (r: Result<Bytes>)
      requires Valid() && IsField(schema, k) && HasRawBefore(schema, State(), k)
      modifies this
      ensures Step(r, State()) == ReadFieldF(schema, old(State()), k)
    {
      var name := schema[k].name;
      var kind := schema[k].spec.kind;
      if kind.KCheckSum? {
        var c := ReadCheckSum(k);
        if c.Err? {
          return c;
        }
        var v := VInt(N.IntegerDecode(kind.field, c.value));
        raw := raw[name := c.value];
        values := values[name := v];
        return c;
      }
      var sz := ScanSize(k, SizeArgOf(kind));
      if sz.Err? {
        return Err(sz.error);
      }
      var o := KRead(kind, sz.value, file);
      AdvanceTo(o.after);
      if o.result.Err? {
        return Err(o.result.error);
      }
      match o.result.value {
        case Raw(b) =>
          raw := raw[name := b];
          return Ok(b);
        case Full(b, v) =>
          raw := raw[name := b];
          values := values[name := v];
          return Ok(b);
      }
    }

    /** _extract (steel/base.py:60-73). */
    method Extract(j: nat) returns (r: Result<Bytes>)
      requires Valid() && IsField(schema, j)
      modifies this
      ensures Step(r, State()) == ExtractF(schema, old(State()), j)
    {
      var name := schema[j].name;
      if name in raw {
        return Ok(raw[name]);
      }
      var k := 0;
      while true
        invariant k <= j
        invariant HasRawBefore(schema, State(), k)
        invariant ScanF(schema, State(), k, j) == ExtractF(schema, old(State()), j)
        decreases j - k
      {
        var n := schema[k].name;
        if n !in raw {
          if schema[k].ConditionEntry? {
            return Err(AttributeError);
          }
          var b := ReadField(k);
          if b.Err? {
            return Err(b.error);
          }
        }
        if k == j {
          return Ok(raw[n]);
        }
        k := k + 1;
      }
    }

    /** Field.__get__ (steel/common/fields.py:153-175). */
    method Get(j: nat) returns (r: Result<Value>)
      requires Valid() && IsField(schema, j)
      modifies this
      ensures Step(r, State()) == GetF(schema, old(State()), j)
    {
      var e := Extract(j);
      if e.Err? {
        if e.error != IOError {
          return Err(e.error);
        }
        if schema[j].spec.default.Some? {
          return Ok(schema[j].spec.default.value);
        }
        return Err(AttributeError);
      }
      r := CachedGet(j);
    }

    method ResolveBound(arg: SizeArg) returns (r: Result<Resolved>)
      requires Valid() && (arg.SizeOf? ==> FieldNameOk(schema, arg.name))
      modifies this
      ensures Step(r, State()) == Engine.ResolveBound(schema, old(State()), arg)
    {
      match arg {
        case NoSize => return Ok(RNone);
        case Fixed(n) => return Ok(RInt(n));
        case ToEnd => return Ok(RInt(-1));
        case SizeOf(name) =>
          var i := EntryIndex(schema, name);
          if i.Some? {
            var g := Get(i.value);
            if g.Err? {
              return Err(g.error);
            }
            return Ok(SizeFromValue(g.value));
          }
          if name in values {
            return Ok(SizeFromValue(values[name]));
          }
          return Err(AttributeError);
      }
    }

    // -------------------------------------------------------------------------
    // Setting

    method Encode(j: nat, v: Value) returns (r: Result<Bytes>)
      requires Valid() && IsField(schema, j)
      modifies this
      ensures Step(r, State()) == EncodeBound(schema, old(State()), j, v)
    {
      var kind := schema[j].spec.kind;
      if kind.KString? && !v.VText? {
        return Err(AttributeError);
      }
      if kind.KString? && kind.codec.encode(v.t).Err? {
        return Err(kind.codec.encode(v.t).error);
      }
      if kind.KString? || kind.KReserved? {
        var sz := ResolveBound(SizeArgOf(kind));
        if sz.Err? {
          return Err(sz.error);
        }
        return EncodeK(kind, sz.value, v);
      }
      return EncodeK(kind, Unbound(SizeArgOf(kind)), v);
    }

    /** Field.__set__ (steel/common/fields.py:177-184). */
    method Set(j: nat, v: Value) returns (r: Result<()>)
      requires Valid() && IsField(schema, j)
      modifies this
      ensures Step(r, State()) == SetF(schema, old(State()), j, v)
      decreases Tier(schema, j), Place(schema, j), 2, 0
    {
      var name := schema[j].name;
      values := values[name := v];
      var e := Encode(j, v);
      if e.Err? {
        return Err(e.error);
      }
      raw := raw[name := e.value];
      r := AfterEncode(j, v);
    }

    /** The size hook, then the checksum recompute hooks, of field j. */
    method AfterEncode(j: nat, v: Value) returns (r: Result<()>)
      requires Valid() && IsField(schema, j)
      modifies this
      ensures Step(r, State()) == Engine.AfterEncode(schema, old(State()), j, v)
      decreases Tier(schema, j), Place(schema, j), 1, 0
    {
      var arg := SizeArgOf(schema[j].spec.kind);
      if arg.SizeOf? {
        var n := Len(v);
        if n.Err? {
          return Err(n.error);
        }
        var i := EntryIndex(schema, arg.name);
        if i.None? {
          values := values[arg.name := VInt(n.value)];
        } else {
          var s := Set(i.value, VInt(n.value));
          if s.Err? {
            return s;
          }
        }
      }
      r := RunHooks(j);
    }

    /** update_encoded_value of every checksum covering j, in order. */
    method RunHooks(j: nat) returns (r: Result<()>)
      requires Valid() && IsField(schema, j)
      modifies this
      ensures Step(r, State()) == Hooks(schema, old(State()), j, 0)
      decreases Tier(schema, j), Place(schema, j), 0, 0
    {
      var cs := Covering(schema, j);
      var i := 0;
      while i < |cs|
        invariant 0 <= i <= |cs|
        invariant Hooks(schema, State(), j, i) == Hooks(schema, old(State()), j, 0)
      {
        var k := i + 1;
        HooksStep(schema, State(), j, i, k);
        var u := UpdateEncodedValue(cs[i]);
        if u.Err? {
          return u;
        }
        i := k;
      }
      return Ok(());
    }

    /** CheckSum.update_encoded_value (steel/byte/fields/integrity.py:65-66). */
    method UpdateEncodedValue(c: nat) returns (r: Result<()>)
      requires Valid() && IsCheckSum(schema, c)
      modifies this
      ensures Step(r, State()) == UpdateEncodedValueF(schema, old(State()), c)
      decreases Tier(schema, c), Place(schema, c), 3, 0
    {
      var v := Calculate(c);
      if v.Err? {
        return Err(v.error);
      }
      r := Set(c, VInt(v.value));
    }

    /** get_calculated_value (steel/byte/fields/integrity.py:61-63). */
    method Calculate(c: nat) returns (r: Result<int>)
      requires Valid() && IsCheckSum(schema, c)
      modifies this
      ensures Step(r, State()) == CalculatedF(schema, old(State()), c)
    {
      var span := Span(schema, c);
      var data: Bytes := [];
      var i := 0;
      while i < |span|
        invariant 0 <= i <= |span|
        invariant SpanData(schema, State(), c, i, data) == SpanData(schema, old(State()), c, 0, [])
      {
        var e := Extract(span[i]);
        if e.Err? {
          return Err(e.error);
        }
        data := data + e.value;
        i := i + 1;
      }
      return Ok(Calculated(schema[c].spec.kind, data));
    }

    // -------------------------------------------------------------------------
    // Conditions and attributes

    method Lookup(name: string) returns (r: Result<Value>)
      requires Valid() && FieldNameOk(schema, name)
      modifies this
      ensures Step(r, State()) == LookupF(schema, old(State()), name)
    {
      var i := EntryIndex(schema, name);
      if i.Some? {
        r := Get(i.value);
      } else if name in values {
        r := Ok(values[name]);
      } else {
        r := Err(AttributeError);
      }
    }

    /** Condition.__get__ (steel/common/fields.py:257-289). */
    method ConditionGet(c: nat) returns (r: Result<Value>)
      requires Valid() && c < |schema| && schema[c].ConditionEntry?
      modifies this
      ensures Step(r, State()) == ConditionGetF(schema, old(State()), c)
    {
      var e := schema[c];
      if e.name in values {
        return Ok(VNone);
      }
      var a := Lookup(e.subject);
      if a.Err? {
        return Err(a.error);
      }
      var b: Result<Value>;
      if e.other.OField? {
        b := Lookup(e.other.field);
      } else {
        b := Ok(e.other.value);
      }
      if b.Err? {
        return Err(b.error);
      }
      var t := Compare(e.op, a.value, b.value);
      if t.Err? {
        return Err(t.error);
      }
      if !t.value {
        return Ok(VNone);
      }
      var g := ReadGuarded(c);
      if g.Err? {
        return Err(g.error);
      }
      raw := raw[e.name := g.value];
      return Ok(VNone);
    }

    /** The loop of Condition.__get__ over the guarded fields
        (steel/common/fields.py:277-289): each is read with the instance
        bound, its value kept, and its bytes added to those of the block. */
    method ReadGuarded(c: nat) returns (r: Result<Bytes>)
      requires Valid() && c < |schema| && schema[c].ConditionEntry?
      modifies this
      ensures Step(r, State()) == GuardedReads(schema, old(State()), c, 0, [])
    {
      var gs := schema[c].guarded;
      var rawBytes: Bytes := [];
      var g := 0;
      while g < |gs|
        invariant 0 <= g <= |gs|
        invariant GuardedReads(schema, State(), c, g, rawBytes) == GuardedReads(schema, old(State()), c, 0, [])
      {
        var kind := gs[g].spec.kind;
        assert GuardedOk(schema, gs[g]);
        var sz := ResolveBound(SizeArgOf(kind));
        if sz.Err? {
          return Err(sz.error);
        }
        var o := ReadValue(kind, sz.value, file);
        AdvanceTo(o.after);
        if o.result.Err? {
          return Err(o.result.error);
        }
        rawBytes := rawBytes + o.result.value.0;
        values := values[gs[g].name := o.result.value.1];
        ghost var was := g;
        g := g + 1;
        GuardedReadsAt(schema, State(), c, was + 1, g, rawBytes);
      }
      return Ok(rawBytes);
    }

    /** Condition.__set__ (steel/common/fields.py:292-294). */
    method ConditionSet(c: nat, v: Value)
      requires c < |schema|
      modifies this
      ensures State() == ConditionSetF(schema, old(State()), c, v)
    {
      values := values[schema[c].name := v];
      raw := raw[schema[c].name := []];
    }

    method GetAttr(name: string) returns (r: Result<Value>)
      requires Valid()
      modifies this
      ensures Step(r, State()) == GetAttrF(schema, old(State()), name)
    {
      var i := EntryIndex(schema, name);
      if i.None? {
        if name in values {
          return Ok(values[name]);
        }
        return Err(AttributeError);
      }
      if schema[i.value].FieldEntry? {
        r := Get(i.value);
      } else {
        r := ConditionGet(i.value);
      }
    }

    method SetAttr(name: string, v: Value) returns (r: Result<()>)
      requires Valid()
      modifies this
      ensures Step(r, State()) == SetAttrF(schema, old(State()), name, v)
    {
      var i := EntryIndex(schema, name);
      if i.None? {
        values := values[name := v];
        return Ok(());
      }
      if schema[i.value].FieldEntry? {
        r := Set(i.value, v);
      } else {
        ConditionSet(i.value, v);
        r := Ok(());
      }
    }

    // -------------------------------------------------------------------------
    // Whole-structure operations

    /** write (steel/base.py:33-55) as written: a field that runs out of data
        puts what follows the last decoded field back into the carry buffer,
        and the loop goes on to the later fields with the source at its end. */
    method Write(data: Bytes) returns (r: Result<()>)
      requires Valid()
      modifies this
      ensures Step(r, State()) == WriteF(schema, old(State()), data)
    {
      if file.mode != Unreadable {
        return Err(IOError);
      }
      var src := Source(buffer + data, 0, Strict);
      var last: nat := 0;
      var k := 0;
      while k < |schema|
        invariant 0 <= k <= |schema|
        invariant WriteLoop(schema, State(), k, src, last) == WriteF(schema, old(State()), data)
        decreases |schema| - k
      {
        var name := schema[k].name;
        if name !in values {
          if schema[k].ConditionEntry? {
            return Err(AttributeError);
          }
          var o := WriteRead(schema, k, src);
          if o.result.Err? {
            if o.result.error != EOFError {
              return Err(o.result.error);
            }
            buffer := Source(src.data, last, Strict).Rest();
            src := Source(src.data, |src.data|, Strict);
          } else {
            raw := raw[name := o.result.value.0];
            values := values[name := o.result.value.1];
            buffer := [];
            src := o.after;
            last := o.after.pos;
          }
        }
        k := k + 1;
      }
      position := position + last;
      return Ok(());
    }

    /** write with the loop ending at the first field that runs out of data
        (see WriteFixed): feeding the bytes in pieces then decodes the same
        fields as feeding them at once (WriteSplit.WriteInPieces). */
    method WriteCorrected(data: Bytes) returns (r: Result<()>)
      requires Valid()
      modifies this
      ensures Step(r, State()) == WriteFixed(schema, old(State()), data)
    {
      if file.mode != Unreadable {
        return Err(IOError);
      }
      var src := Source(buffer + data, 0, Strict);
      var last: nat := 0;
      var k := 0;
      while k < |schema|
        invariant 0 <= k <= |schema|
        invariant WriteFixedLoop(schema, State(), k, src, last) == WriteFixed(schema, old(State()), data)
        decreases |schema| - k
      {
        var name := schema[k].name;
        if name !in values {
          if schema[k].ConditionEntry? {
            return Err(AttributeError);
          }
          var o := WriteRead(schema, k, src);
          if o.result.Err? {
            if o.result.error == EOFError {
              buffer := Source(src.data, last, Strict).Rest();
              position := position + last;
              return Ok(());
            }
            return Err(o.result.error);
          }
          raw := raw[name := o.result.value.0];
          values := values[name := o.result.value.1];
          buffer := [];
          src := o.after;
          last := o.after.pos;
        }
        k := k + 1;
      }
      position := position + last;
      return Ok(());
    }

    /** get_raw_bytes (steel/base.py:75-82). */
    method GetRawBytes() returns (r: Result<Bytes>)
      requires Valid()
      modifies this
      ensures Step(r, State()) == GetRawBytesF(schema, old(State()))
    {
      var output: Bytes := [];
      var k := 0;
      while k < |schema|
        invariant 0 <= k <= |schema|
        invariant RawBytesLoop(schema, State(), k, output) == GetRawBytesF(schema, old(State()))
        decreases |schema| - k
      {
        var name := schema[k].name;
        var g := GetAttr(name);
        if g.Err? {
          return Err(g.error);
        }
        if name !in raw {
          var g2 := GetAttr(name);
          if g2.Err? {
            return Err(g2.error);
          }
          var s := SetAttr(name, g2.value);
          if s.Err? {
            return Err(s.error);
          }
          if name !in raw {
            return Err(KeyError);
          }
        }
        output := output + raw[name];
        ghost var was := k;
        k := k + 1;
        RawBytesAt(schema, State(), was + 1, k, output);
      }
      return Ok(output);
    }

    method ValidateField(k: nat, v: Value) returns (r: Result<()>)
      requires Valid() && IsField(schema, k)
      modifies this
      ensures Step(r, State()) == ValidateFieldF(schema, old(State()), k, v)
    {
      var spec := schema[k].spec;
      var kind := spec.kind;
      var arg := SizeArgOf(kind);
      if kind.KString? || kind.KLengthIndexed? || kind.KFixedString? {
        var sib := arg.SizeOf? && NamedKindIsInteger(schema, arg.name);
        return ValidateK(kind, Unbound(arg), v, spec.choices, sib);
      }
      if kind.KReserved? {
        var sz := ResolveBound(arg);
        if sz.Err? {
          return Err(sz.error);
        }
        return ValidateK(kind, sz.value, v, spec.choices, false);
      }
      return ValidateK(kind, Unbound(arg), v, spec.choices, false);
    }

    /** validate (steel/base.py:98-105). */
    method Validate() returns (r: Result<seq<Failure>>)
      requires Valid()
      modifies this
      ensures Step(r, State()) == ValidateF(schema, old(State()))
    {
      var errors: seq<Failure> := [];
      var k := 0;
      while k < |schema|
        invariant 0 <= k <= |schema|
        invariant ValidateLoop(schema, State(), k, errors) == ValidateF(schema, old(State()))
        decreases |schema| - k
      {
        var name := schema[k].name;
        var g := GetAttr(name);
        var outcome: Result<()>;
        if g.Err? {
          outcome := Err(g.error);
        } else if schema[k].ConditionEntry? {
          outcome := Err(AttributeError);
        } else {
          outcome := ValidateField(k, g.value);
        }
        if outcome.Err? {
          if !outcome.error.IsValueError() {
            return Err(outcome.error);
          }
          errors := errors + [Failure(name, outcome.error)];
        }
        k := k + 1;
      }
      return Ok(errors);
    }

    /** Get every entry in declaration order, as the parse loop does. */
    method Force() returns (r: Result<()>)
      requires Valid()
      modifies this
      ensures Step(r, State()) == ForceLoop(schema, old(State()), 0)
    {
      var k := 0;
      while k < |schema|
        invariant 0 <= k <= |schema|
        invariant ForceLoop(schema, State(), k) == ForceLoop(schema, old(State()), 0)
        decreases |schema| - k
      {
        var g := GetAttr(schema[k].name);
        if g.Err? {
          return Err(g.error);
        }
        k := k + 1;
      }
      return Ok(());
    }
  }

  /** StructureBase(*args, **kwargs) (steel/base.py:10-22). */
  method Create(schema: Schema, source: Option<Source>, kwargs: seq<(string, Value)>) returns (r: Result<Structure>)
    requires WellFormed(schema)
    ensures r.Ok? <==> ConstructF(schema, source, kwargs).result.Ok?
    ensures r.Err? ==> r.error == ConstructF(schema, source, kwargs).result.error
    ensures r.Ok? ==> fresh(r.value) && r.value.Valid() && r.value.schema == schema
                      && r.value.State() == ConstructF(schema, source, kwargs).st
  {
    var s := new Structure(schema, source);
    if source.Some? && |kwargs| > 0 {
      return Err(TypeError);
    }
    var i := 0;
    while i < |kwargs|
      invariant 0 <= i <= |kwargs|
      invariant s.Valid() && s.schema == schema && fresh(s)
      invariant AssignAll(schema, s.State(), kwargs, i) == ConstructF(schema, source, kwargs)
      decreases |kwargs| - i
    {
      var a := s.SetAttr(kwargs[i].0, kwargs[i].1);
      if a.Err? {
        return Err(a.error);
      }
      i := i + 1;
    }
    return Ok(s);
  }

  /** One structure of the parse loop: built over the shared source, then
      forced.  Its outcome decides how the parse of the remaining n
      structures goes on. */
  method ParseOne(schema: Schema, src: Source, ghost n: nat) returns (s: Structure, f: Result<()>)
    requires WellFormed(schema) && n > 0
    ensures fresh(s) && s.Valid() && s.schema == schema
    ensures f.Err? ==> ParseF(schema, src, n) == Parsed([], if s.file.pos == src.pos then AtEnd else Raised(f.error), s.file)
    ensures f.Ok? ==> ParseF(schema, src, n) == Behind([s.State()], ParseF(schema, s.file, n - 1))
  {
    s := new Structure(schema, Some(src));
    f := s.Force();
    ParseUnfold(schema, src, n);
  }

  /** StructureStreamer.parse (steel/base.py:134-147), for at most n
      structures: each is built over the shared source and forced; an error
      that left the source where the structure started ends the stream. */
  method Parse(schema: Schema, src: Source, n: nat) returns (items: seq<Structure>, end: ParseEnd, file: Source)
    requires WellFormed(schema)
    ensures |items| == |ParseF(schema, src, n).items|
    ensures forall i :: 0 <= i < |items| ==> items[i].State() == ParseF(schema, src, n).items[i]
    ensures end == ParseF(schema, src, n).end && file == ParseF(schema, src, n).file
  {
    items := [];
    ghost var states: seq<State> := [];
    file := src;
    var left: nat := n;
    while true
      invariant |items| == |states|
      invariant forall i :: 0 <= i < |items| ==> items[i].State() == states[i]
      invariant ParseF(schema, src, n) == Behind(states, ParseF(schema, file, left))
      decreases left
    {
      if left == 0 {
        end := Requested;
        assert states + [] == states;
        return;
      }
      var s, f := ParseOne(schema, file, left);
      if f.Err? {
        end := if s.file.pos == file.pos then AtEnd else Raised(f.error);
        file := s.file;
        assert states + [] == states;
        return;
      }
      ghost var before := file;
      ghost var was := states;
      ghost var count := left;
      items := items + [s];
      states := states + [s.State()];
      file := s.file;
      left := left - 1;
      ParseAdvance(schema, src, n, before, count, was, s.State(), file, left, states);
    }
  }

  /** A parse with the given structures before it. */
  function Behind(states: seq<State>, p: Parsed): Parsed {
    Parsed(states + p.items, p.end, p.file)
  }

  /** The parse goes on after one more structure: its state joins those
      already produced. */
  lemma ParseAdvance(schema: Schema, src: Source, n: nat, file: Source, left: nat, states: seq<State>, x: State,
                      next: Source, rest: nat, states': seq<State>)
    requires WellFormed(schema) && left > 0 && rest == left - 1 && states' == states + [x]
    requires ParseF(schema, src, n) == Behind(states, ParseF(schema, file, left))
    requires ParseF(schema, file, left) == Behind([x], ParseF(schema, next, left - 1))
    ensures ParseF(schema, src, n) == Behind(states', ParseF(schema, next, rest))
  {
    Seqs.Assoc(states, [x], ParseF(schema, next, left - 1).items);
  }

  /** Joining the raw bytes of one more entry of idx. */
  lemma RawConcatStep(schema: Schema, st: State, idx: seq<nat>, x: nat, y: nat)
    requires forall i :: 0 <= i < |idx| ==> idx[i] < |schema| && schema[idx[i]].name in st.raw
    requires x < |idx| && y == x + 1
    ensures RawConcat(schema, st, idx[..y]) == RawConcat(schema, st, idx[..x]) + st.raw[schema[idx[x]].name]
  {
    assert idx[..y][..x] == idx[..x];
  }

  /** The same index gives the same reads of guarded fields. */
  lemma GuardedReadsAt(schema: Schema, st: State, c: nat, a: nat, b: nat, acc: Bytes)
    requires WellFormed(schema) && c < |schema| && schema[c].ConditionEntry? && a == b
    ensures GuardedReads(schema, st, c, a, acc) == GuardedReads(schema, st, c, b, acc)
  {
  }

  /** The same index gives the same rest of get_raw_bytes. */
  lemma RawBytesAt(schema: Schema, st: State, a: nat, b: nat, out: Bytes)
    requires WellFormed(schema) && a == b && a <= |schema|
    ensures RawBytesLoop(schema, st, a, out) == RawBytesLoop(schema, st, b, out)
  {
  }

  /** One hook of the run: the i-th covering checksum is updated, then the
      run goes on from the next. */
  lemma HooksStep(schema: Schema, st: State, j: nat, i: nat, k: nat)
    requires WellFormed(schema) && IsField(schema, j) && i < |Covering(schema, j)| && k == i + 1
    ensures var u := UpdateEncodedValueF(schema, st, Covering(schema, j)[i]);
      Hooks(schema, st, j, i) == if u.result.Err? then u else Hooks(schema, u.st, j, k)
  {
  }

  lemma ParseUnfold(schema: Schema, src: Source, n: nat)
    requires WellFormed(schema) && n > 0
    ensures var f := ForceLoop(schema, Fresh(Some(src)), 0);
            ParseF(schema, src, n) ==
              if f.result.Err? then Parsed([], if f.st.file.pos == src.pos then AtEnd else Raised(f.result.error), f.st.file)
              else Parsed([f.st] + ParseF(schema, f.st.file, n - 1).items, ParseF(schema, f.st.file, n - 1).end, ParseF(schema, f.st.file, n - 1).file)
  {
    assert ParseF(schema, src, n) == ParseOn(schema, src, n);
  }
}
