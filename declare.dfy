/** What happens while a structure's class body runs
    (steel/common/meta.py:6-28, 48-49): names bound in the body go to an
    ordered namespace only at the top level, every nameable object is named
    and appended to the innermost pending field list, a Reserved field and a
    condition block name themselves with the first free `_reserved_i` or
    `_condition_i`, and the options and the field stack are reset around
    the declaration.  Also the per-field stacks of bound instances that
    AttributeInstance pushes and pops (steel/common/meta.py:82-93). */
module Declarations {
  import opened Results
  import opened Args
  import opened ODicts

  // ---------------------------------------------------------------------------
  // Decimal numerals and free names

  function Digit(d: nat): char
    requires d < 10
  {
    "0123456789"[d]
  }

  /** '%s' % n for a natural number. */
  function Decimal(n: nat): (r: string)
    ensures |r| >= 1
    ensures n >= 10 ==> |r| >= 2
    decreases n
  {
    if n < 10 then [Digit(n)] else Decimal(n / 10) + [Digit(n % 10)]
  }

  /** Different numbers have different numerals. */
  lemma {:induction false} DecimalInjective(a: nat, b: nat)
    requires Decimal(a) == Decimal(b)
    ensures a == b
    decreases a
  {
    var da, db := Decimal(a), Decimal(b);
    assert da[|da| - 1] == db[|db| - 1];
    assert Digit(a % 10) == Digit(b % 10);
    if a >= 10 && b >= 10 {
      assert da[..|da| - 1] == Decimal(a / 10);
      assert db[..|db| - 1] == Decimal(b / 10);
      DecimalInjective(a / 10, b / 10);
    }
  }

  /** prefix + Decimal(i) determines i. */
  lemma NumberedInjective(prefix: string, i: nat, j: nat)
    requires prefix + Decimal(i) == prefix + Decimal(j)
    ensures i == j
  {
    assert (prefix + Decimal(i))[|prefix|..] == Decimal(i);
    assert (prefix + Decimal(j))[|prefix|..] == Decimal(j);
    DecimalInjective(i, j);
  }

  /** A sequence of distinct members of a set is no longer than the set. */
  lemma {:induction false} DistinctWithin(s: seq<string>, taken: set<string>)
    requires forall x, y :: 0 <= x < y < |s| ==> s[x] != s[y]
    requires forall x :: 0 <= x < |s| ==> s[x] in taken
    ensures |s| <= |taken|
    decreases |s|
  {
    if |s| > 0 {
      DistinctWithin(s[1..], taken - {s[0]});
    }
  }

  function Numbered(prefix: string, n: nat): (r: seq<string>)
    ensures |r| == n && forall j :: 0 <= j < n ==> r[j] == prefix + Decimal(j)
  {
    seq(n, j requires 0 <= j => prefix + Decimal(j))
  }

  /** Only as many numbered names as there are taken names can all be taken. */
  lemma NumberedWithin(prefix: string, taken: set<string>, n: nat)
    requires forall j :: 0 <= j < n ==> prefix + Decimal(j) in taken
    ensures n <= |taken|
  {
    var s := Numbered(prefix, n);
    forall x, y | 0 <= x < y < |s|
      ensures s[x] != s[y]
    {
      if s[x] == s[y] {
        NumberedInjective(prefix, x, y);
      }
    }
    DistinctWithin(s, taken);
  }

  /** get_available_name of Reserved (steel/fields/base.py:44-50) and of
      Condition (steel/common/fields.py:231-237): the first
      prefix + str(i), counting i from 0, that is not taken. */
  method AvailableName(prefix: string, taken: set<string>) returns (name: string, n: nat)
    ensures name == prefix + Decimal(n) && name !in taken
    ensures forall j :: 0 <= j < n ==> prefix + Decimal(j) in taken
  {
    n := 0;
    while prefix + Decimal(n) in taken
      invariant forall j :: 0 <= j < n ==> prefix + Decimal(j) in taken
      invariant n <= |taken|
      decreases |taken| - n
    {
      NumberedWithin(prefix, taken, n + 1);
      n := n + 1;
    }
    name := prefix + Decimal(n);
  }

  // ---------------------------------------------------------------------------
  // The declaration of a structure class

  /** An object bound in a class body: the nameable ones (fields, Reserved
      fields, conditions and arguments, each known by identity), None, and
      anything else. */
  datatype Obj = OField(id: nat) | OReserved(id: nat) | OCondition(id: nat) | OArgument(id: nat) | ONull | OPlain
  {
    /** hasattr(obj, 'set_name'). */
    predicate Nameable() {
      OField? || OReserved? || OCondition? || OArgument?
    }

    /** set_name refuses a second name (steel/fields/base.py:52-55,
        steel/common/fields.py:239-241). */
    predicate NamedOnce() {
      OReserved? || OCondition?
    }
  }

  /** The thread-local declaration state and the namespace of the class body
      being run. */
  class Declaration {
    var options: map<string, ArgValue>   // data.field_options
    var fieldStack: seq<seq<nat>>        // data.field_stack
    var namespace: ODict<string, Obj>    // the NameAwareOrderedDict
    var names: map<nat, string>          // the name set_name gave each object
    var grouped: map<nat, seq<nat>>      // the fields each finished condition guards

    /** DeclarativeMetaclass.__prepare__ (steel/common/meta.py:24-28): the
        class options are recorded, the field stack starts with one empty
        list and the namespace is empty. */
    constructor Prepare(classOptions: map<string, ArgValue>)
      ensures options == classOptions && fieldStack == [[]] && namespace == []
      ensures names == map[] && grouped == map[]
    {
      options := classOptions;
      fieldStack := [[]];
      namespace := [];
      names := map[];
      grouped := map[];
    }

    /** NameAwareOrderedDict.__setitem__ (steel/common/meta.py:13-20).
        The namespace takes the binding only when no `with` block is open.
        A nameable object then gets the name; a Reserved field or a
        condition that already has one raises TypeError (the namespace has
        taken the binding by then); otherwise the object is appended to the
        innermost field list.  An empty field stack is an IndexError. */
    method SetItem(name: string, obj: Obj) returns (r: Result<()>)
      modifies this
      ensures namespace == if |old(fieldStack)| == 1 then Set(old(namespace), name, obj) else old(namespace)
      ensures options == old(options) && grouped == old(grouped)
      ensures !obj.Nameable() ==> r == Ok(()) && names == old(names) && fieldStack == old(fieldStack)
      ensures obj.Nameable() && obj.NamedOnce() && obj.id in old(names) ==>
        r == Err(TypeError) && names == old(names) && fieldStack == old(fieldStack)
      ensures obj.Nameable() && !(obj.NamedOnce() && obj.id in old(names)) ==>
        && names == old(names)[obj.id := name]
        && (|old(fieldStack)| == 0 ==> r == Err(IndexError) && fieldStack == old(fieldStack))
        && (|old(fieldStack)| > 0 ==> r == Ok(()) && fieldStack == Innermost(old(fieldStack), obj.id))
    {
      if |fieldStack| == 1 {
        namespace := Set(namespace, name, obj);
      }
      if obj.Nameable() {
        if obj.NamedOnce() && obj.id in names {
          return Err(TypeError);
        }
        names := names[obj.id := name];
        if |fieldStack| == 0 {
          return Err(IndexError);
        }
        fieldStack := Innermost(fieldStack, obj.id);
      }
      r := Ok(());
    }

    /** Reserved.__init__'s frame hack (steel/fields/base.py:38-42): the new
        field binds itself, in the class body being run, under the first
        `_reserved_i` the namespace does not hold. */
    method DeclareReserved(id: nat) returns (r: Result<string>)
      modifies this
      ensures r.Ok? ==> r.value !in Keys(old(namespace)) && id in names && names[id] == r.value
      ensures r.Ok? && |old(fieldStack)| == 1 ==> namespace == old(namespace) + [(r.value, OReserved(id))]
      ensures r.Err? ==> r.error == TypeError || r.error == IndexError
    {
      var name, _ := AvailableName("_reserved_", Keys(namespace));
      KeysFind(namespace, name);
      var s := SetItem(name, OReserved(id));
      if s.Err? {
        return Err(s.error);
      }
      r := Ok(name);
    }

    /** Condition.__enter__ (steel/common/meta.py via
        steel/common/fields.py:211-223): the condition binds itself under
        the first free `_condition_i` and then opens a new field list, so
        that it lands in the enclosing list and the fields of the block in
        the new one. */
    method EnterCondition(id: nat) returns (r: Result<string>)
      modifies this
      ensures r.Ok? ==> r.value !in Keys(old(namespace)) && id in names && names[id] == r.value
      ensures r.Ok? ==> |fieldStack| == |old(fieldStack)| + 1 && fieldStack[|fieldStack| - 1] == []
      ensures r.Ok? ==> |old(fieldStack)| > 0 && fieldStack[..|fieldStack| - 1] == Innermost(old(fieldStack), id)
      ensures r.Err? ==> r.error == TypeError || r.error == IndexError
    {
      var name, _ := AvailableName("_condition_", Keys(namespace));
      var s := SetItem(name, OCondition(id));
      if s.Err? {
        return Err(s.error);
      }
      fieldStack := fieldStack + [[]];
      r := Ok(name);
    }

    /** Condition.__exit__ (steel/common/fields.py:225-229): the innermost
        field list is popped and becomes the condition's guarded fields. */
    method ExitCondition(id: nat) returns (r: Result<()>)
      modifies this
      ensures |old(fieldStack)| == 0 ==> r == Err(IndexError) && fieldStack == old(fieldStack) && grouped == old(grouped)
      ensures |old(fieldStack)| > 0 ==> r == Ok(()) && fieldStack == old(fieldStack)[..|old(fieldStack)| - 1]
      ensures |old(fieldStack)| > 0 ==> grouped == old(grouped)[id := old(fieldStack)[|old(fieldStack)| - 1]]
      ensures namespace == old(namespace) && names == old(names) && options == old(options)
    {
      if |fieldStack| == 0 {
        return Err(IndexError);
      }
      grouped := grouped[id := fieldStack[|fieldStack| - 1]];
      fieldStack := fieldStack[..|fieldStack| - 1];
      r := Ok(());
    }

    /** The end of DeclarativeMetaclass.__init__ (steel/common/meta.py:48-49). */
    method Finish()
      modifies this
      ensures options == map[] && fieldStack == [[]]
      ensures namespace == old(namespace) && names == old(names) && grouped == old(grouped)
    {
      options := map[];
      fieldStack := [[]];
    }
  }

  /** data.field_stack[-1].append(id). */
  function Innermost(stack: seq<seq<nat>>, id: nat): (r: seq<seq<nat>>)
    requires |stack| > 0
    ensures |r| == |stack| && r[..|r| - 1] == stack[..|stack| - 1]
    ensures r[|r| - 1] == stack[|stack| - 1] + [id]
  {
    stack[|stack| - 1 := stack[|stack| - 1] + [id]]
  }

  function Keys<V>(od: ODict<string, V>): (r: set<string>)
    ensures forall k :: k in r <==> exists i :: 0 <= i < |od| && od[i].0 == k
  {
    set i | 0 <= i < |od| :: od[i].0
  }

  lemma KeysFind<V>(od: ODict<string, V>, k: string)
    ensures k !in Keys(od) <==> Find(od, k).None?
  {
    if Find(od, k).Some? {
      assert od[Find(od, k).value].0 == k;
    }
  }

  /** A field bound at the top level of the body is in the namespace and in
      the outermost field list; one bound inside a `with` block is only in
      the innermost list, so that only its condition reaches the class
      table. */
  lemma BindingPlaces(stack: seq<seq<nat>>, namespace: ODict<string, Obj>, name: string, id: nat)
    requires |stack| > 0 && Distinct(namespace)
    ensures |stack| == 1 ==> Get(Set(namespace, name, OField(id)), name) == Some(OField(id))
    ensures |stack| > 1 ==> Innermost(stack, id)[0] == stack[0]
    ensures Innermost(stack, id)[|stack| - 1] == stack[|stack| - 1] + [id]
  {
    SetEffect(namespace, name, OField(id));
  }

  /** The free name depends on the taken names alone: two Reserved fields
      inside the same `with` block are both named against the top-level
      namespace, which neither of them enters, so they get the same name. */
  lemma FreeNameUnique(prefix: string, taken: set<string>, n: nat, m: nat)
    requires prefix + Decimal(n) !in taken && forall j :: 0 <= j < n ==> prefix + Decimal(j) in taken
    requires prefix + Decimal(m) !in taken && forall j :: 0 <= j < m ==> prefix + Decimal(j) in taken
    ensures n == m
  {
  }

  // ---------------------------------------------------------------------------
  // Bound-instance stacks (steel/common/meta.py:82-93)

  /** data.instance_stack: a defaultdict(list) from a field's hash to the
      instances it is bound to, innermost last. */
  type Stacks = map<nat, seq<nat>>

  /** The stack of a field, as the defaultdict creates it on first access. */
  function StackOf(s: Stacks, field: nat): seq<nat> {
    if field in s then s[field] else []
  }

  /** AttributeInstance.__enter__: push the instance, unless it is None. */
  function EnterF(s: Stacks, field: nat, instance: Option<nat>): (r: Stacks)
    ensures instance.None? ==> r == s
    ensures instance.Some? ==> r == s[field := StackOf(s, field) + [instance.value]]
  {
    if instance.None? then s else s[field := StackOf(s, field) + [instance.value]]
  }

  /** AttributeInstance.__exit__: pop, unless the instance is None; popping
      an empty stack is an IndexError. */
  function ExitF(s: Stacks, field: nat, instance: Option<nat>): (r: Result<Stacks>)
    ensures instance.None? ==> r == Ok(s)
    ensures instance.Some? ==> (r.Err? <==> StackOf(s, field) == [])
    ensures r.Err? ==> r.error == IndexError
    ensures instance.Some? && r.Ok? ==> r.value == s[field := StackOf(s, field)[..|StackOf(s, field)| - 1]]
  {
    if instance.None? then Ok(s)
    else if StackOf(s, field) == [] then Err(IndexError)
    else Ok(s[field := StackOf(s, field)[..|StackOf(s, field)| - 1]])
  }

  /** Entering and then leaving a binding gives back every stack as it was
      (the field's own may have been created empty), and while it is open
      the field's innermost instance is the one bound. */
  lemma EnterExitBalanced(s: Stacks, field: nat, instance: Option<nat>)
    ensures var e := EnterF(s, field, instance);
      && (instance.Some? ==> StackOf(e, field)[|StackOf(e, field)| - 1] == instance.value)
      && ExitF(e, field, instance).Ok?
      && forall f :: StackOf(ExitF(e, field, instance).value, f) == StackOf(s, f)
  {
    if instance.Some? {
      var e := EnterF(s, field, instance);
      assert StackOf(e, field) == StackOf(s, field) + [instance.value];
      assert StackOf(e, field)[..|StackOf(e, field)| - 1] == StackOf(s, field);
    }
  }

  /** A binding of one field leaves the stacks of the others alone. */
  lemma EnterExitOthers(s: Stacks, field: nat, instance: Option<nat>, other: nat)
    requires other != field
    ensures StackOf(EnterF(s, field, instance), other) == StackOf(s, other)
    ensures ExitF(s, field, instance).Ok? ==> StackOf(ExitF(s, field, instance).value, other) == StackOf(s, other)
  {
  }

  /** The instance stacks on an object, as `with field.for_instance(x)`
      changes them. */
  class InstanceStacks {
    var stacks: Stacks

    constructor ()
      ensures stacks == map[]
    {
      stacks := map[];
    }

    method Enter(field: nat, instance: Option<nat>)
      modifies this
      ensures stacks == EnterF(old(stacks), field, instance)
    {
      if instance.Some? {
        stacks := stacks[field := StackOf(stacks, field) + [instance.value]];
      }
    }

    method Exit(field: nat, instance: Option<nat>) returns (r: Result<()>)
      modifies this
      ensures r.Err? <==> ExitF(old(stacks), field, instance).Err?
      ensures r.Err? ==> r.error == IndexError && stacks == old(stacks)
      ensures r.Ok? ==> stacks == ExitF(old(stacks), field, instance).value
    {
      if instance.Some? {
        var st := StackOf(stacks, field);
        if st == [] {
          return Err(IndexError);
        }
        stacks := stacks[field := st[..|st| - 1]];
      }
      r := Ok(());
    }
  }
}
