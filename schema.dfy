/** The declaration of a byte structure: its fields in order, the condition
    blocks among them, and what the schema fixes before any instance exists:
    the span each CheckSum covers (steel/byte/fields/integrity.py:19-41) and the
    after_encode subscribers each field then has (steel/common/fields.py:11-43).

    A class body declares fields in order; a `with a == b:` block declares a
    Condition whose inner fields are not class attributes but are read while
    the condition holds (steel/common/meta.py:13-20, steel/common/fields.py:205-294). */
module Schema {
  import opened Results
  import opened Values
  import opened Kinds
  import Seqs

  /** What a field declaration fixes: its class and arguments, the `default`
      argument (None when not provided) and the values of `choices`. */
  datatype FieldSpec = FieldSpec(kind: Kind, default: Option<Value>, choices: seq<Value>)

  /** The right-hand side of a condition: another field, or a constant. */
  datatype Operand = OField(field: string) | OConst(value: Value)

  /** Field.__eq__/__ne__ (steel/common/fields.py:192-196) and the Integer
      comparisons (steel/fields/numbers.py:188-198); `__lte__` and `__gte__` are
      not operator methods, so only these four can build a Condition. */
  datatype CompareOp = Eq | Ne | Lt | Gt

  /** A field declared inside a condition block. */
  datatype Guarded = Guarded(name: string, spec: FieldSpec)

  /** One entry of the structure's field table, in declaration order. */
  datatype Entry =
    | FieldEntry(name: string, spec: FieldSpec)
    | ConditionEntry(name: string, subject: string, op: CompareOp, other: Operand, guarded: seq<Guarded>)

  type Schema = seq<Entry>

  // ---------------------------------------------------------------------------
  // Names

  /** The first entry with the given name, searching from i. */
  function EntryIndexFrom(schema: Schema, name: string, i: nat): (r: Option<nat>)
    ensures r.Some? ==> i <= r.value < |schema| && schema[r.value].name == name
    ensures r.Some? ==> forall x :: i <= x < r.value ==> schema[x].name != name
    ensures r.None? ==> forall x :: i <= x < |schema| ==> schema[x].name != name
    decreases |schema| - i
  {
    if i >= |schema| then None
    else if schema[i].name == name then Some(i)
    else EntryIndexFrom(schema, name, i + 1)
  }

  /** The entry a name denotes as a class attribute: getattr(instance, name)
      goes through that entry's descriptor when there is one. */
  function EntryIndex(schema: Schema, name: string): (r: Option<nat>)
    ensures r.Some? ==> r.value < |schema| && schema[r.value].name == name
    ensures r.None? <==> forall x :: 0 <= x < |schema| ==> schema[x].name != name
  {
    EntryIndexFrom(schema, name, 0)
  }

  /** A name declared inside some condition block. */
  ghost predicate IsGuardedName(schema: Schema, name: string) {
    exists c, g :: 0 <= c < |schema| && schema[c].ConditionEntry? && 0 <= g < |schema[c].guarded|
                   && schema[c].guarded[g].name == name
  }

  /** The kind of the field a SizeOf argument names, if it is an Integer. */
  function NamedKindIsInteger(schema: Schema, name: string): bool {
    var i := EntryIndex(schema, name);
    if i.Some? then schema[i.value].FieldEntry? && schema[i.value].spec.kind.IsInteger()
    else exists c, g | 0 <= c < |schema| && schema[c].ConditionEntry? && 0 <= g < |schema[c].guarded| ::
      schema[c].guarded[g].name == name && schema[c].guarded[g].spec.kind.IsInteger()
  }

  predicate IsField(schema: Schema, i: nat) {
    i < |schema| && schema[i].FieldEntry?
  }

  predicate IsCheckSum(schema: Schema, i: nat) {
    IsField(schema, i) && schema[i].spec.kind.KCheckSum?
  }

  // ---------------------------------------------------------------------------
  // The span of a CheckSum

  /** CheckSum.attach_to_class as a function: the indices it collects while
      walking the field table from i, given the `first` seen so far and
      whether the walk is already in range.  The walk stops at the checksum
      itself (index c) and just after `last`. */
  function SpanFrom(schema: Schema, c: nat, first: Option<string>, last: Option<string>, i: nat, inRange: bool)
    : (r: seq<nat>)
    requires c < |schema|
    ensures forall x :: 0 <= x < |r| ==> i <= r[x] < c
    ensures forall x, y :: 0 <= x < y < |r| ==> r[x] < r[y]
    decreases c - i
  {
    if i >= c then []
    else
      var f := if first.None? then Some(schema[i].name) else first;
      var now := inRange || schema[i].name == f.value;
      var rest := if last == Some(schema[i].name) then [] else SpanFrom(schema, c, f, last, i + 1, now);
      if now then [i] + rest else rest
  }

  /** The fields the CheckSum at index c covers. */
  function Span(schema: Schema, c: nat): (r: seq<nat>)
    requires IsCheckSum(schema, c)
    ensures forall x :: 0 <= x < |r| ==> r[x] < c
  {
    SpanFrom(schema, c, schema[c].spec.kind.first, schema[c].spec.kind.last, 0, false)
  }

  /** The loop of CheckSum.attach_to_class as the source writes it. */
  method AttachToClass(schema: Schema, c: nat) returns (fields: seq<nat>)
    requires IsCheckSum(schema, c)
    ensures fields == Span(schema, c)
  {
    var first := schema[c].spec.kind.first;
    var last := schema[c].spec.kind.last;
    fields := [];
    var inRange := false;
    var i := 0;
    while i < c
      invariant 0 <= i <= c
      invariant fields + SpanFrom(schema, c, first, last, i, inRange) == Span(schema, c)
      decreases c - i
    {
      SpanFromUnfold(schema, c, first, last, i, inRange);
      ghost var f0 := fields;
      if first.None? {
        first := Some(schema[i].name);
      }
      if schema[i].name == first.value {
        inRange := true;
      }
      ghost var rest := if last == Some(schema[i].name) then [] else SpanFrom(schema, c, first, last, i + 1, inRange);
      if inRange {
        fields := fields + [i];
        Seqs.Assoc(f0, [i], rest);
      }
      if last == Some(schema[i].name) {
        assert fields + [] == fields;
        return;
      }
      i := i + 1;
    }
    assert fields + [] == fields;
  }

  /** One step of the walk of attach_to_class. */
  lemma SpanFromUnfold(schema: Schema, c: nat, first: Option<string>, last: Option<string>, i: nat, inRange: bool)
    requires c < |schema| && i < c
    ensures var f := if first.None? then Some(schema[i].name) else first;
      var now := inRange || schema[i].name == f.value;
      SpanFrom(schema, c, first, last, i, inRange)
        == (if now then [i] else []) + (if last == Some(schema[i].name) then [] else SpanFrom(schema, c, f, last, i + 1, now))
  {
    var f := if first.None? then Some(schema[i].name) else first;
    var now := inRange || schema[i].name == f.value;
    var rest := if last == Some(schema[i].name) then [] else SpanFrom(schema, c, f, last, i + 1, now);
    if !now {
      assert [] + rest == rest;
    }
  }

  /** The indices a <= x < b. */
  function Range(a: nat, b: nat): (r: seq<nat>)
    ensures |r| == if a <= b then b - a else 0
    ensures forall x :: 0 <= x < |r| ==> r[x] == a + x
    decreases b - a
  {
    if a >= b then [] else [a] + Range(a + 1, b)
  }

  /** Where the walk of attach_to_class stops on its own, searching from i:
      just after `last`, or at the checksum. */
  function SpanEnd(schema: Schema, c: nat, last: Option<string>, i: nat): (r: nat)
    requires c < |schema|
    ensures i <= c ==> i <= r <= c
    decreases c - i
  {
    if i >= c then c
    else if last == Some(schema[i].name) then i + 1
    else SpanEnd(schema, c, last, i + 1)
  }

  /** The span is a contiguous run: from `first` (the first declared field
      when none is given) to `last` inclusive, or up to the checksum; it is
      empty when `first` is not declared before the checksum, or when `last`
      comes before it. */
  lemma SpanContiguous(schema: Schema, c: nat, f: nat)
    requires IsCheckSum(schema, c)
    requires f < c
    requires schema[c].spec.kind.first == Some(schema[f].name) || (schema[c].spec.kind.first.None? && f == 0)
    requires forall x :: 0 <= x < f ==> schema[x].name != schema[f].name
    ensures var last := schema[c].spec.kind.last;
      Span(schema, c) == if SpanEnd(schema, c, last, 0) <= f then [] else Range(f, SpanEnd(schema, c, last, 0))
  {
    var k := schema[c].spec.kind;
    var fname := schema[f].name;
    if k.first.None? {
      SpanFromInRange(schema, c, Some(fname), k.last, 0, fname);
    } else {
      SpanFromBefore(schema, c, k.first, k.last, 0, f);
    }
  }

  /** Once in range, the walk collects every index up to where it stops. */
  lemma {:induction false} SpanFromRest(schema: Schema, c: nat, first: Option<string>, last: Option<string>, i: nat)
    requires c < |schema| && first.Some? && i <= c
    ensures SpanFrom(schema, c, first, last, i, true) == Range(i, SpanEnd(schema, c, last, i))
    decreases c - i
  {
    if i < c && last != Some(schema[i].name) {
      SpanFromRest(schema, c, first, last, i + 1);
    }
  }

  /** The first index is where the walk enters the range. */
  lemma SpanFromInRange(schema: Schema, c: nat, first: Option<string>, last: Option<string>, i: nat, fname: string)
    requires c < |schema| && i == 0 && 0 < c && first == Some(schema[0].name) && fname == schema[0].name
    ensures SpanFrom(schema, c, None, last, 0, false) == Range(0, SpanEnd(schema, c, last, 0))
  {
    if last != Some(schema[0].name) {
      SpanFromRest(schema, c, first, last, 1);
    }
  }

  /** Before `first`, the walk collects nothing, and stops for good at `last`. */
  lemma {:induction false} SpanFromBefore(schema: Schema, c: nat, first: Option<string>, last: Option<string>, i: nat, f: nat)
    requires c < |schema| && f < c && i <= f && first == Some(schema[f].name)
    requires forall x :: 0 <= x < f ==> schema[x].name != schema[f].name
    ensures SpanFrom(schema, c, first, last, i, false)
         == if SpanEnd(schema, c, last, i) <= f then [] else Range(f, SpanEnd(schema, c, last, i))
    decreases f - i
  {
    if i < f {
      assert schema[i].name != first.value;
      SpanFromUnfold(schema, c, first, last, i, false);
      assert [] + SpanFrom(schema, c, first, last, i + 1, false) == SpanFrom(schema, c, first, last, i + 1, false);
      if last != Some(schema[i].name) {
        SpanFromBefore(schema, c, first, last, i + 1, f);
        assert SpanEnd(schema, c, last, i) == SpanEnd(schema, c, last, i + 1);
      } else {
        assert SpanEnd(schema, c, last, i) == i + 1;
      }
    } else {
      SpanFromAt(schema, c, first, last, i);
    }
  }

  /** At `first`, the walk enters the range and collects up to where it stops. */
  lemma SpanFromAt(schema: Schema, c: nat, first: Option<string>, last: Option<string>, f: nat)
    requires c < |schema| && f < c && first == Some(schema[f].name)
    ensures SpanFrom(schema, c, first, last, f, false) == Range(f, SpanEnd(schema, c, last, f))
  {
    SpanFromUnfold(schema, c, first, last, f, false);
    if last != Some(schema[f].name) {
      SpanFromRest(schema, c, first, last, f + 1);
      assert SpanEnd(schema, c, last, f) == SpanEnd(schema, c, last, f + 1);
    }
  }

  /** The CheckSums whose span holds field j, in declaration order, from
      index c on: the recompute routines subscribed to j's after_encode. */
  function CoveringFrom(schema: Schema, j: nat, c: nat): (r: seq<nat>)
    ensures forall x :: 0 <= x < |r| ==> c <= r[x] < |schema| && IsCheckSum(schema, r[x]) && j < r[x]
    ensures forall x :: 0 <= x < |r| ==> j in Span(schema, r[x])
    decreases |schema| - c
  {
    if c >= |schema| then []
    else
      var rest := CoveringFrom(schema, j, c + 1);
      if IsCheckSum(schema, c) && j in Span(schema, c) then [c] + rest else rest
  }

  function Covering(schema: Schema, j: nat): (r: seq<nat>)
    ensures forall x :: 0 <= x < |r| ==> IsCheckSum(schema, r[x]) && j < r[x]
  {
    CoveringFrom(schema, j, 0)
  }

  /** Every CheckSum covering j is in Covering(j): the subscription of
      attach_to_class, seen from the covered field. */
  lemma {:induction false} CoveringComplete(schema: Schema, j: nat, c: nat, from: nat)
    requires from <= c && IsCheckSum(schema, c) && j in Span(schema, c)
    ensures c in CoveringFrom(schema, j, from)
    decreases c - from
  {
    if from < c {
      CoveringComplete(schema, j, c, from + 1);
    }
  }

  // ---------------------------------------------------------------------------
  // Well-formed schemas

  /** A size argument of the top-level field k names an earlier top-level
      field (extraction reads in order, so reading through a later one
      raises RecursionError) or a field of a condition block. */
  ghost predicate SizeRefOk(schema: Schema, k: nat, arg: SizeArg) {
    arg.SizeOf? ==>
      var i := EntryIndex(schema, arg.name);
      (i.Some? && i.value < k && schema[i.value].FieldEntry?) || (i.None? && IsGuardedName(schema, arg.name))
  }

  /** A name read by a condition or a guarded size: a field, top-level or
      guarded, never a condition. */
  ghost predicate FieldNameOk(schema: Schema, name: string) {
    var i := EntryIndex(schema, name);
    (i.Some? && schema[i.value].FieldEntry?) || (i.None? && IsGuardedName(schema, name))
  }

  ghost predicate GuardedOk(schema: Schema, g: Guarded) {
    && g.spec.kind.Valid()
    && EntryIndex(schema, g.name).None?
    && (SizeArgOf(g.spec.kind).SizeOf? ==> FieldNameOk(schema, SizeArgOf(g.spec.kind).name))
  }

  ghost predicate ConditionOk(schema: Schema, e: Entry)
    requires e.ConditionEntry?
  {
    && FieldNameOk(schema, e.subject)
    && (e.other.OField? ==> FieldNameOk(schema, e.other.field))
    && forall g :: 0 <= g < |e.guarded| ==> GuardedOk(schema, e.guarded[g])
  }

  /** The schemas a class declaration can produce and that the engine can run:
      distinct names (a guarded name is not also a class attribute), valid
      kinds, sizes that point backwards, checksum spans of fields only (a
      condition has no after_encode to subscribe to). */
  ghost predicate WellFormed(schema: Schema) {
    && (forall i, j :: 0 <= i < j < |schema| ==> schema[i].name != schema[j].name)
    && (forall k: nat :: IsField(schema, k) ==> schema[k].spec.kind.Valid())
    && (forall k: nat :: IsField(schema, k) ==> SizeRefOk(schema, k, SizeArgOf(schema[k].spec.kind)))
    && (forall k: nat :: IsCheckSum(schema, k) ==> forall x :: x in Span(schema, k) ==> schema[x].FieldEntry?)
    && (forall c :: 0 <= c < |schema| && schema[c].ConditionEntry? ==> ConditionOk(schema, schema[c]))
  }

  /** With distinct names, a declared name finds its own entry. */
  lemma IndexOfName(schema: Schema, i: nat)
    requires WellFormed(schema) && i < |schema|
    ensures EntryIndex(schema, schema[i].name) == Some(i)
  {
  }
}
