/** The two metaclasses of steel/common/meta.py after a class body has run:
    DeclarativeMetaclass builds a structure's ordered field table from its
    bases and its own namespace, DeclarativeFieldMetaclass builds a field
    class's argument table and merges structure-level options into the
    keyword arguments of each field it constructs. */
module Meta {
  import opened Results
  import opened Args
  import opened ODicts
  import Seqs

  // ---------------------------------------------------------------------------
  // Structure field tables (steel/common/meta.py:35-46)

  /** A field table: attribute name to field (or condition), in order.
      Fields are known by identity. */
  type FieldTable = ODict<string, nat>

  /** What the metaclass sees of a namespace entry: None, an object with
      attach_to_class (a field or a condition, both of which store
      themselves under their name, steel/common/fields.py:121-122, 244-245),
      or anything else. */
  datatype Member = MNone | MField(id: nat) | MOther

  /** A base class: None for one without `_fields` (object, mixins). */
  type Base = Option<FieldTable>

  function BaseTable(b: Base): FieldTable {
    if b.Some? then b.value else []
  }

  predicate BasesDistinct(bases: seq<Base>) {
    forall i :: 0 <= i < |bases| ==> Distinct(BaseTable(bases[i]))
  }

  /** The inherited table as the loop at steel/common/meta.py:38-40 builds
      it: the bases updated in left-to-right order. */
  function InheritedAsWritten(bases: seq<Base>): FieldTable
    decreases |bases|
  {
    if |bases| == 0 then []
    else Update(InheritedAsWritten(bases[..|bases| - 1]), BaseTable(bases[|bases| - 1]))
  }

  /** The inherited table as the comment at steel/common/meta.py:37 and the
      field metaclass (steel/common/meta.py:60) intend: the bases updated
      right to left, so the left-most base is applied last. */
  function Inherited(bases: seq<Base>): FieldTable
    decreases |bases|
  {
    if |bases| == 0 then []
    else Update(Inherited(bases[1..]), BaseTable(bases[0]))
  }

  /** The first base, left to right, that has a field under k. */
  function FirstHaving(bases: seq<Base>, k: string): Option<nat>
    decreases |bases|
  {
    if |bases| == 0 then None
    else if Get(BaseTable(bases[0]), k).Some? then Get(BaseTable(bases[0]), k)
    else FirstHaving(bases[1..], k)
  }

  /** The last base, left to right, that has a field under k. */
  function LastHaving(bases: seq<Base>, k: string): Option<nat>
    decreases |bases|
  {
    if |bases| == 0 then None
    else if Get(BaseTable(bases[|bases| - 1]), k).Some? then Get(BaseTable(bases[|bases| - 1]), k)
    else LastHaving(bases[..|bases| - 1], k)
  }

  /** Corrected order: a name inherited from several bases takes the field of
      the left-most one. */
  lemma {:induction false} InheritedLeftmostWins(bases: seq<Base>)
    requires BasesDistinct(bases)
    ensures Distinct(Inherited(bases))
    ensures forall k :: Get(Inherited(bases), k) == FirstHaving(bases, k)
    decreases |bases|
  {
    if |bases| > 0 {
      InheritedLeftmostWins(bases[1..]);
      UpdateEffect(Inherited(bases[1..]), BaseTable(bases[0]));
    }
  }

  /** As written: the right-most base wins. */
  lemma {:induction false} InheritedAsWrittenRightmost(bases: seq<Base>)
    requires BasesDistinct(bases)
    ensures Distinct(InheritedAsWritten(bases))
    ensures forall k :: Get(InheritedAsWritten(bases), k) == LastHaving(bases, k)
    decreases |bases|
  {
    if |bases| > 0 {
      InheritedAsWrittenRightmost(bases[..|bases| - 1]);
      UpdateEffect(InheritedAsWritten(bases[..|bases| - 1]), BaseTable(bases[|bases| - 1]));
    }
  }

  /** Two bases that both declare `x`: written as is, the table takes the
      right-most base's field, against the left-most priority its comment
      promises. */
  lemma BaseOrderCounterexample()
    ensures var bases := [Some([("x", 1)]), Some([("x", 2)])];
      && Get(InheritedAsWritten(bases), "x") == Some(2)
      && Get(Inherited(bases), "x") == Some(1)
      && FirstHaving(bases, "x") == Some(1)
  {
    var bases: seq<Base> := [Some([("x", 1)]), Some([("x", 2)])];
    assert bases[..1][..0] == [];
    assert bases[1..][1..] == [];
    assert bases[..1] == [Some([("x", 1)])];
    assert InheritedAsWritten(bases[..1]) == [("x", 1)];
    assert Inherited(bases[1..]) == [("x", 2)];
  }

  /** One entry of the namespace loop (steel/common/meta.py:42-46): None
      removes an inherited field of that name, a field stores itself. */
  function OwnStep(table: FieldTable, name: string, m: Member): (r: FieldTable)
  {
    var t := if m.MNone? && Get(table, name).Some? then Delete(table, name) else table;
    if m.MField? then Set(t, name, m.id) else t
  }

  function Own(table: FieldTable, attrs: ODict<string, Member>): FieldTable
    decreases |attrs|
  {
    if |attrs| == 0 then table
    else Own(OwnStep(table, attrs[0].0, attrs[0].1), attrs[1..])
  }

  /** The `_fields` table of a structure class with the given bases and
      namespace, as steel/common/meta.py:35-46 builds it: the bases merged
      left to right, then the namespace. */
  function StructureFields(bases: seq<Base>, attrs: ODict<string, Member>): FieldTable {
    Own(InheritedAsWritten(bases), attrs)
  }

  /** The same table with the bases merged so that the left-most one wins. */
  function StructureFieldsFixed(bases: seq<Base>, attrs: ODict<string, Member>): FieldTable {
    Own(Inherited(bases), attrs)
  }

  /** The bases' fields one after another, in base order. */
  function Joined(bases: seq<Base>): FieldTable
    decreases |bases|
  {
    if |bases| == 0 then []
    else Joined(bases[..|bases| - 1]) + BaseTable(bases[|bases| - 1])
  }

  /** No two bases have a field under the same name. */
  predicate BasesDisjoint(bases: seq<Base>) {
    forall i, j, x, y :: 0 <= i < j < |bases| && 0 <= x < |BaseTable(bases[i])| && 0 <= y < |BaseTable(bases[j])|
      ==> BaseTable(bases[i])[x].0 != BaseTable(bases[j])[y].0
  }

  /** As written, bases that share no name are inherited in base order: the
      left base's fields come first. */
  lemma {:induction false} InheritedAsWrittenDisjoint(bases: seq<Base>)
    requires BasesDistinct(bases) && BasesDisjoint(bases)
    ensures InheritedAsWritten(bases) == Joined(bases)
    decreases |bases|
  {
    if |bases| > 0 {
      var front := bases[..|bases| - 1];
      var last := BaseTable(bases[|bases| - 1]);
      assert forall i :: 0 <= i < |front| ==> front[i] == bases[i];
      InheritedAsWrittenDisjoint(front);
      forall y | 0 <= y < |last|
        ensures Get(Joined(front), last[y].0).None?
      {
        JoinedAvoids(front, last[y].0);
        assert Find(Joined(front), last[y].0).None?;
      }
      UpdateFresh(Joined(front), last);
    }
  }

  /** A name no base has is nowhere in their joined fields. */
  lemma {:induction false} JoinedAvoids(bases: seq<Base>, k: string)
    requires forall i, x :: 0 <= i < |bases| && 0 <= x < |BaseTable(bases[i])| ==> BaseTable(bases[i])[x].0 != k
    ensures forall z :: 0 <= z < |Joined(bases)| ==> Joined(bases)[z].0 != k
    decreases |bases|
  {
    if |bases| > 0 {
      var front := bases[..|bases| - 1];
      assert forall i :: 0 <= i < |front| ==> front[i] == bases[i];
      JoinedAvoids(front, k);
    }
  }

  /** The corrected merge also reorders bases that share no name: a base
      with `a` followed by one with `b` gives [a, b] as written and
      [b, a] corrected. */
  lemma DisjointBasesReordered()
    ensures var bases := [Some([("a", 1)]), Some([("b", 2)])];
      && StructureFields(bases, []) == [("a", 1), ("b", 2)]
      && StructureFieldsFixed(bases, []) == [("b", 2), ("a", 1)]
  {
    var bases: seq<Base> := [Some([("a", 1)]), Some([("b", 2)])];
    assert bases[..1][..0] == [];
    assert bases[1..][1..] == [];
    assert bases[..1] == [Some([("a", 1)])];
    assert InheritedAsWritten(bases[..1]) == [("a", 1)];
    assert Inherited(bases[1..]) == [("b", 2)];
    assert Find([("b", 2)], "a").None?;
    assert Find([("a", 1)], "b").None?;
  }

  /** The fields a namespace declares, in declaration order. */
  function Declared(attrs: ODict<string, Member>): FieldTable
    decreases |attrs|
  {
    if |attrs| == 0 then []
    else if attrs[0].1.MField? then [(attrs[0].0, attrs[0].1.id)] + Declared(attrs[1..])
    else Declared(attrs[1..])
  }

  /** One namespace entry: a field is stored under its own name (in place
      when the name was inherited), None removes the name, and no other name
      changes. */
  lemma OwnStepEffect(table: FieldTable, name: string, m: Member)
    requires Distinct(table)
    ensures Distinct(OwnStep(table, name, m))
    ensures m.MField? ==> Get(OwnStep(table, name, m), name) == Some(m.id)
    ensures m.MField? && Get(table, name).Some? ==> Find(OwnStep(table, name, m), name) == Find(table, name)
    ensures m.MNone? ==> Get(OwnStep(table, name, m), name) == None
    ensures m.MOther? ==> OwnStep(table, name, m) == table
    ensures forall k :: k != name ==> Get(OwnStep(table, name, m), k) == Get(table, k)
  {
    if m.MNone? && Get(table, name).Some? {
      DeleteEffect(table, name);
    }
    if m.MField? {
      SetEffect(table, name, m.id);
    }
  }

  /** The field under k once the namespace has run, by its last entry for k. */
  function Expected(table: FieldTable, attrs: ODict<string, Member>, k: string): Option<nat> {
    var m := Get(attrs, k);
    if m == Some(MNone) then None
    else if m.Some? && m.value.MField? then Some(m.value.id)
    else Get(table, k)
  }

  /** The table after the namespace: a name the class declares as a field
      maps to that field, a name set to None is gone, and every other name
      keeps its inherited field. */
  lemma {:induction false} OwnValues(table: FieldTable, attrs: ODict<string, Member>)
    requires Distinct(table) && Distinct(attrs)
    ensures Distinct(Own(table, attrs))
    ensures forall k :: Get(Own(table, attrs), k) == Expected(table, attrs, k)
    decreases |attrs|
  {
    if |attrs| > 0 {
      var (n, m) := attrs[0];
      OwnStepEffect(table, n, m);
      var tail := attrs[1..];
      OwnValues(OwnStep(table, n, m), tail);
      forall k
        ensures Get(Own(table, attrs), k) == Expected(table, attrs, k)
      {
        if k == n {
          assert Find(tail, k).None?;
        } else {
          var a := Find(attrs, k);
          if a.Some? {
            assert Find(tail, k) == Some(a.value - 1);
          } else {
            assert Find(tail, k).None?;
          }
        }
      }
    }
  }

  /** Without removals and without redeclaring an inherited name, the table
      is the inherited fields followed by the class's own fields in
      declaration order. */
  lemma {:induction false} OwnAppends(table: FieldTable, attrs: ODict<string, Member>)
    requires Distinct(table) && Distinct(attrs)
    requires forall i :: 0 <= i < |attrs| ==> !attrs[i].1.MNone?
    requires forall i :: 0 <= i < |attrs| && attrs[i].1.MField? ==> Get(table, attrs[i].0).None?
    ensures Own(table, attrs) == table + Declared(attrs)
    decreases |attrs|
  {
    if |attrs| > 0 {
      var tail := attrs[1..];
      var t := OwnStep(table, attrs[0].0, attrs[0].1);
      var d := DeclaredHead(attrs);
      OwnAppendsStep(table, attrs, t, d);
      OwnAppends(t, tail);
      Seqs.Assoc(table, d, Declared(tail));
    }
  }

  /** The fields the first namespace entry declares. */
  function DeclaredHead(attrs: ODict<string, Member>): (r: FieldTable)
    requires |attrs| > 0
    ensures Declared(attrs) == r + Declared(attrs[1..])
  {
    if attrs[0].1.MField? then [(attrs[0].0, attrs[0].1.id)] else []
  }

  /** One step of OwnAppends: the first entry appends what it declares, and
      the rest of the namespace still meets the hypotheses. */
  lemma OwnAppendsStep(table: FieldTable, attrs: ODict<string, Member>, t: FieldTable, d: FieldTable)
    requires Distinct(table) && Distinct(attrs) && |attrs| > 0
    requires forall i :: 0 <= i < |attrs| ==> !attrs[i].1.MNone?
    requires forall i :: 0 <= i < |attrs| && attrs[i].1.MField? ==> Get(table, attrs[i].0).None?
    requires t == OwnStep(table, attrs[0].0, attrs[0].1) && d == DeclaredHead(attrs)
    ensures t == table + d
    ensures Distinct(t) && Distinct(attrs[1..])
    ensures forall i :: 0 <= i < |attrs[1..]| ==> !attrs[1..][i].1.MNone?
    ensures forall i :: 0 <= i < |attrs[1..]| && attrs[1..][i].1.MField? ==> Get(t, attrs[1..][i].0).None?
  {
    var (n, m) := attrs[0];
    var tail := attrs[1..];
    OwnStepEffect(table, n, m);
    forall i | 0 <= i < |tail| && tail[i].1.MField?
      ensures Get(t, tail[i].0) == None
    {
      assert tail[i] == attrs[i + 1];
      assert attrs[0].0 != attrs[i + 1].0;
    }
    forall i | 0 <= i < |tail|
      ensures !tail[i].1.MNone?
    {
      assert tail[i] == attrs[i + 1];
    }
    forall i, j | 0 <= i < j < |tail|
      ensures tail[i].0 != tail[j].0
    {
      assert tail[i] == attrs[i + 1] && tail[j] == attrs[j + 1];
    }
    if m.MField? {
      SetNew(table, n, m.id);
    }
  }

  /** DeclarativeMetaclass.__init__'s table, built in place. */
  class StructureClass {
    var fields: FieldTable

    constructor (bases: seq<Base>, attrs: ODict<string, Member>)
      ensures fields == StructureFields(bases, attrs)
    {
      var t: FieldTable := [];
      var i := 0;
      while i < |bases|
        invariant 0 <= i <= |bases|
        invariant t == InheritedAsWritten(bases[..i])
      {
        assert bases[..i + 1][..i] == bases[..i];
        t := Update(t, BaseTable(bases[i]));
        i := i + 1;
      }
      assert bases[..|bases|] == bases;
      var j := 0;
      while j < |attrs|
        invariant 0 <= j <= |attrs|
        invariant Own(t, attrs[j..]) == StructureFields(bases, attrs)
      {
        var (name, m) := attrs[j];
        assert attrs[j..][1..] == attrs[j + 1..];
        if m.MNone? && Get(t, name).Some? {
          t := Delete(t, name);
        }
        if m.MField? {
          t := Set(t, name, m.id);
        }
        j := j + 1;
      }
      fields := t;
    }
  }

  // ---------------------------------------------------------------------------
  // Field-class argument tables (steel/common/meta.py:57-68)

  type ArgTable = map<string, Argument>

  /** What the field metaclass sees of a namespace entry: None, an Argument
      (already named by the namespace), an Override with its keyword
      arguments, a Removed, or anything else. */
  datatype FieldAttr =
    | FNone
    | FArgument(arg: Argument)
    | FOverride(overrides: seq<(string, ArgValue)>)
    | FRemoved
    | FOther

  /** The bases' tables merged as steel/common/meta.py:60-62 does:
      right-most first, so the left-most base wins. A base without
      `arguments` is None. */
  function InheritedArguments(bases: seq<Option<ArgTable>>): ArgTable
    decreases |bases|
  {
    if |bases| == 0 then map[]
    else InheritedArguments(bases[1..]) + (if bases[0].Some? then bases[0].value else map[])
  }

  function FirstArgument(bases: seq<Option<ArgTable>>, k: string): Option<Argument>
    decreases |bases|
  {
    if |bases| == 0 then None
    else if bases[0].Some? && k in bases[0].value then Some(bases[0].value[k])
    else FirstArgument(bases[1..], k)
  }

  /** A field class inherits every argument of every base, each from the
      left-most base that declares it. */
  lemma {:induction false} ArgumentsLeftmostWins(bases: seq<Option<ArgTable>>, k: string)
    ensures k in InheritedArguments(bases) <==> FirstArgument(bases, k).Some?
    ensures k in InheritedArguments(bases) ==> InheritedArguments(bases)[k] == FirstArgument(bases, k).value
    decreases |bases|
  {
    if |bases| > 0 {
      ArgumentsLeftmostWins(bases[1..], k);
    }
  }

  /** One namespace entry of steel/common/meta.py:64-68: None deletes an
      argument of that name, and then attach_to_class runs: an Argument
      stores itself under its name (steel/common/args.py:42-43), an Override
      installs its modified copy, a Removed deletes. */
  function DeclareStep(table: ArgTable, name: string, attr: FieldAttr): (r: Result<ArgTable>)
  {
    var t := if attr.FNone? && name in table then table - {name} else table;
    match attr
    case FArgument(a) => Ok(t[name := a.(name := name)])
    case FOverride(ov) => OverrideF(t, name, ov)
    case FRemoved => RemoveF(t, name)
    case _ => Ok(t)
  }

  function DeclareArguments(table: ArgTable, attrs: ODict<string, FieldAttr>): (r: Result<ArgTable>)
    decreases |attrs|
  {
    if |attrs| == 0 then Ok(table)
    else
      var t :- DeclareStep(table, attrs[0].0, attrs[0].1);
      DeclareArguments(t, attrs[1..])
  }

  /** The argument table of a field class. */
  function FieldArguments(bases: seq<Option<ArgTable>>, attrs: ODict<string, FieldAttr>): Result<ArgTable> {
    DeclareArguments(InheritedArguments(bases), attrs)
  }

  predicate DeclareFails(table: ArgTable, name: string, attr: FieldAttr) {
    || (attr.FRemoved? && name !in table)
    || (attr.FOverride? && name !in table)
    || (attr.FOverride? && name in table && exists x :: 0 <= x < |attr.overrides| && !HasAttr(table[name], attr.overrides[x].0))
  }

  /** The class body fails, with TypeError, exactly at an Override or Removed
      of a name with no argument at that point, or an Override of an
      attribute the argument lacks; otherwise the names are what the class
      inherited and declared, less what it removed or set to None. */
  lemma DeclareStepEffect(table: ArgTable, name: string, attr: FieldAttr)
    ensures var r := DeclareStep(table, name, attr);
      && (r.Err? <==> DeclareFails(table, name, attr))
      && (r.Err? ==> r.error == TypeError)
      && (r.Ok? ==> && (forall k :: k != name ==> (k in r.value <==> k in table))
                    && (forall k :: k != name && k in table ==> r.value[k] == table[k])
                    && (name in r.value <==> attr.FArgument? || ((attr.FOverride? || attr.FOther?) && name in table)))
  {
    if attr.FOverride? {
      OverrideEffect(table, name, attr.overrides);
    }
  }

  /** The Argument class-body declarations of steel/common/fields.py:47-50 and
      the Override of steel/fields/base.py:33 for a Reserved field. */
  const NotProvided := AOther(0)
  const EmptyTuple := AOther(1)

  function Arg(resolveField: bool, default: Option<ArgValue>): Argument {
    Argument("", resolveField, if default.Some? then default.value else ANone, default.Some?, map[])
  }

  function FieldBody(): ODict<string, FieldAttr> {
    [("size", FArgument(Arg(true, None))),
     ("offset", FArgument(Arg(true, Some(ANone)))),
     ("choices", FArgument(Arg(false, Some(EmptyTuple)))),
     ("default", FArgument(Arg(false, Some(NotProvided)))),
     ("after_encode", FOther),
     ("after_decode", FOther)]
  }

  /** Field requires a size and defaults everything else; Reserved keeps the
      size requirement and defaults `default` to None. */
  lemma ReservedArguments()
    ensures var field := FieldArguments([None], FieldBody());
      && field.Ok?
      && field.value.Keys == {"size", "offset", "choices", "default"}
      && !field.value["size"].hasDefault && field.value["size"].resolveField
      && field.value["default"].default == NotProvided
      && var reserved := FieldArguments([Some(field.value)], [("default", FOverride([("default", ANone)]))]);
         && reserved.Ok?
         && reserved.value.Keys == field.value.Keys
         && reserved.value["default"].hasDefault && reserved.value["default"].default == ANone
         && reserved.value["size"] == field.value["size"]
  {
    var field := FieldArguments([None], FieldBody());
    assert field.Ok?;
    var t := field.value;
    OverrideDefault(t["default"], ANone);
    assert [Some(t)][1..] == [];
    assert InheritedArguments([Some(t)]) == t;
  }

  /** DeclarativeFieldMetaclass.__init__, on a class object. */
  class FieldClass {
    var arguments: ArgTable

    /** `arguments` starts as the bases' tables merged, left-most winning. */
    constructor (bases: seq<Option<ArgTable>>)
      ensures arguments == InheritedArguments(bases)
    {
      var t: ArgTable := map[];
      var i := |bases|;
      while i > 0
        invariant 0 <= i <= |bases|
        invariant t == InheritedArguments(bases[i..])
      {
        i := i - 1;
        assert bases[i..][1..] == bases[i + 1..];
        if bases[i].Some? {
          t := t + bases[i].value;
        }
      }
      arguments := t;
    }

    /** The namespace loop; on an error the class is not created. */
    method Declare(attrs: ODict<string, FieldAttr>) returns (r: Result<()>)
      modifies this
      ensures r.Err? <==> DeclareArguments(old(arguments), attrs).Err?
      ensures r.Err? ==> r.error == DeclareArguments(old(arguments), attrs).error
      ensures r.Ok? ==> arguments == DeclareArguments(old(arguments), attrs).value
    {
      var j := 0;
      while j < |attrs|
        invariant 0 <= j <= |attrs|
        invariant DeclareArguments(arguments, attrs[j..]) == DeclareArguments(old(arguments), attrs)
      {
        var (name, attr) := attrs[j];
        assert attrs[j..][1..] == attrs[j + 1..];
        if attr.FNone? && name in arguments {
          arguments := arguments - {name};
        }
        match attr {
          case FArgument(a) =>
            arguments := arguments[name := a.(name := name)];
          case FOverride(ov) =>
            var o := Override(name, ov);
            if o.Err? {
              return o;
            }
          case FRemoved =>
            if name !in arguments {
              return Err(TypeError);
            }
            arguments := arguments - {name};
          case _ =>
        }
        j := j + 1;
      }
      r := Ok(());
    }

    /** Override.attach_to_class (steel/common/args.py:86-98): copies the
      argument, sets each override on the copy in order, and installs the
      copy. */
    method Override(name: string, overrides: seq<(string, ArgValue)>) returns (r: Result<()>)
      modifies this
      ensures r.Err? <==> OverrideF(old(arguments), name, overrides).Err?
      ensures r.Err? ==> r.error == OverrideF(old(arguments), name, overrides).error
      ensures r.Ok? ==> arguments == OverrideF(old(arguments), name, overrides).value
    {
      if name !in arguments {
        return Err(TypeError);
      }
      var copy := arguments[name];
      var i := 0;
      while i < |overrides|
        invariant 0 <= i <= |overrides|
        invariant ApplyOverrides(arguments[name], overrides[..i]) == Ok(copy)
      {
        var (n, v) := overrides[i];
        assert overrides[..i + 1][..i] == overrides[..i];
        if !HasAttr(copy, n) {
          OverridePrefixFails(arguments[name], overrides, i + 1);
          return Err(TypeError);
        }
        copy := SetAttr(copy, n, v);
        i := i + 1;
      }
      assert overrides[..i] == overrides;
      arguments := arguments[name := copy];
      r := Ok(());
    }
  }

  /** Once a prefix of the overrides fails, all of them do. */
  lemma {:induction false} OverridePrefixFails(a: Argument, overrides: seq<(string, ArgValue)>, n: nat)
    requires n <= |overrides| && ApplyOverrides(a, overrides[..n]).Err?
    ensures ApplyOverrides(a, overrides) == Err(ApplyOverrides(a, overrides[..n]).error)
    decreases |overrides| - n
  {
    if n < |overrides| {
      assert overrides[..n + 1][..n] == overrides[..n];
      OverridePrefixFails(a, overrides, n + 1);
    } else {
      assert overrides[..n] == overrides;
    }
  }

  // ---------------------------------------------------------------------------
  // Structure options reaching fields (steel/common/meta.py:70-79)

  /** The keyword arguments a field is constructed with: the declaring
      structure's options, restricted to the arguments the field class
      declares, overridden by the explicit keyword arguments. */
  function MergeOptionsF(options: map<string, ArgValue>, arguments: ArgTable, kwargs: map<string, ArgValue>)
    : (r: map<string, ArgValue>)
    ensures forall k :: k in r <==> k in kwargs || (k in options && k in arguments)
    ensures forall k :: k in r ==> r[k] == if k in kwargs then kwargs[k] else options[k]
  {
    if options == map[] then kwargs
    else (map k | k in options && k in arguments :: options[k]) + kwargs
  }

  /** DeclarativeFieldMetaclass.__call__'s loop over the options. */
  method MergeOptions(options: map<string, ArgValue>, arguments: ArgTable, kwargs: map<string, ArgValue>)
    returns (r: map<string, ArgValue>)
    ensures r == MergeOptionsF(options, arguments, kwargs)
  {
    if options == map[] {
      return kwargs;
    }
    var picked: map<string, ArgValue> := map[];
    var rest := options.Keys;
    while rest != {}
      invariant rest <= options.Keys
      invariant forall k :: k in picked <==> k in options && k !in rest && k in arguments
      invariant forall k :: k in picked ==> picked[k] == options[k]
      decreases |rest|
    {
      var k :| k in rest;
      if k in arguments {
        picked := picked[k := options[k]];
      }
      rest := rest - {k};
    }
    r := picked + kwargs;
  }
}
