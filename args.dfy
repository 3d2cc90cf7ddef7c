/** The arguments of a field class (steel/common/args.py): an Argument holds
    a default and whether one was given; Override and Removed edit the
    argument table a field class inherits; reading an argument on a field
    resolves sibling fields and callables against the instance bound to it. */
module Args {
  import opened Results

  /** What an argument can hold, as far as the core tells values apart: a
      field (which can be resolved against an instance), a callable, and
      plain data. */
  datatype ArgValue =
    | ANone
    | ABool(b: bool)
    | AInt(i: int)
    | AText(t: string)
    | AField(field: string)     // a field object, known by its attribute name
    | ACallable(id: nat)        // any other callable, known by identity
    | AOther(id: nat)           // any other object
  {
    /** Python truth value. */
    predicate Truthy() {
      match this
      case ANone => false
      case ABool(b) => b
      case AInt(i) => i != 0
      case AText(t) => t != ""
      case _ => true
    }
  }

  /** An Argument object.  `shadowed` records values set with Override on an
      attribute that is neither a default nor the resolve_field flag (a method
      name or `name`), which the core never does on purpose. */
  datatype Argument = Argument(name: string, resolveField: bool, default: ArgValue, hasDefault: bool,
                               shadowed: map<string, ArgValue>)

  /** Argument(positional=False, resolve_field=False, **kwargs)
      (steel/common/args.py:8-23): `positional` is accepted and dropped, a
      `default` keyword is kept (even None), any other keyword is a
      TypeError.  The name comes later, from set_name.  has_default is true
      exactly when a default was given, None included, and the default is
      then the value given; without one it is None (steel/common/args.py:13-17,
      25-32). */
  function MakeArgument(resolveField: bool, kwargs: map<string, ArgValue>): (r: Result<Argument>)
    ensures r.Err? ==> r.error == TypeError
    ensures r.Ok? ==> && (r.value.hasDefault <==> "default" in kwargs)
                      && r.value.default == (if "default" in kwargs then kwargs["default"] else ANone)
                      && r.value.resolveField == resolveField
  {
    if kwargs.Keys - {"default"} != {} then Err(TypeError)
    else if "default" in kwargs then Ok(SetDefault(Argument("", resolveField, ANone, false, map[]), kwargs["default"]))
    else Ok(Argument("", resolveField, ANone, false, map[]))
  }

  /** The `default` property setter (steel/common/args.py:29-32). */
  function SetDefault(a: Argument, v: ArgValue): (r: Argument)
    ensures r.default == v && r.hasDefault
    ensures r.(default := a.default, hasDefault := a.hasDefault) == a
  {
    a.(default := v, hasDefault := true)
  }

  /** The `default` property deleter (steel/common/args.py:34-37). */
  function DeleteDefault(a: Argument): (r: Argument)
    ensures r.default == ANone && !r.hasDefault
    ensures r.(default := a.default, hasDefault := a.hasDefault) == a
  {
    a.(default := ANone, hasDefault := false)
  }

  /** The constructor fails exactly on a keyword it does not know, and then
      with TypeError. */
  lemma ArgumentOptions(resolveField: bool, kwargs: map<string, ArgValue>)
    ensures MakeArgument(resolveField, kwargs).Err? <==> exists k :: k in kwargs && k != "default"
  {
    if exists k :: k in kwargs && k != "default" {
      var k :| k in kwargs && k != "default";
      assert k in kwargs.Keys - {"default"};
    } else {
      assert kwargs.Keys - {"default"} == {};
    }
  }

  // ---------------------------------------------------------------------------
  // Override

  /** What hasattr says of a named Argument: its data attributes, its
      methods, and whatever an earlier override shadowed. */
  predicate HasAttr(a: Argument, n: string) {
    n in {"resolve_field", "default", "has_default", "name", "set_name", "attach_to_class", "init", "initialize"}
    || n in a.shadowed
  }

  /** setattr(argument, n, v) for an attribute it has. */
  function SetAttr(a: Argument, n: string, v: ArgValue): (r: Argument)
    ensures HasAttr(a, n) ==> (forall m :: HasAttr(r, m) <==> HasAttr(a, m))
  {
    if n == "default" then SetDefault(a, v)
    else if n == "has_default" then a.(hasDefault := v.Truthy())
    else if n == "resolve_field" then a.(resolveField := v.Truthy())
    else a.(shadowed := a.shadowed[n := v])
  }

  /** The loop of Override.attach_to_class (steel/common/args.py:92-96)
      over the given overrides, applied to the copy in order: TypeError at
      the first one the argument has no attribute for. */
  function ApplyOverrides(a: Argument, overrides: seq<(string, ArgValue)>): (r: Result<Argument>)
    decreases |overrides|
  {
    if |overrides| == 0 then Ok(a)
    else
      var prior :- ApplyOverrides(a, overrides[..|overrides| - 1]);
      var (n, v) := overrides[|overrides| - 1];
      if HasAttr(prior, n) then Ok(SetAttr(prior, n, v)) else Err(TypeError)
  }

  /** Overriding fails exactly when some override names an attribute the
      inherited argument lacks: setting an attribute it has adds none. */
  lemma {:induction false} OverridesFailExactly(a: Argument, overrides: seq<(string, ArgValue)>)
    ensures ApplyOverrides(a, overrides).Err? <==> exists x :: 0 <= x < |overrides| && !HasAttr(a, overrides[x].0)
    ensures ApplyOverrides(a, overrides).Err? ==> ApplyOverrides(a, overrides).error == TypeError
    ensures ApplyOverrides(a, overrides).Ok? ==> forall m :: HasAttr(ApplyOverrides(a, overrides).value, m) <==> HasAttr(a, m)
    decreases |overrides|
  {
    if |overrides| > 0 {
      var init := overrides[..|overrides| - 1];
      OverridesFailExactly(a, init);
      if exists x :: 0 <= x < |init| && !HasAttr(a, init[x].0) {
        var x :| 0 <= x < |init| && !HasAttr(a, init[x].0);
        assert overrides[x] == init[x];
      }
      if exists x :: 0 <= x < |overrides| && !HasAttr(a, overrides[x].0) {
        var x :| 0 <= x < |overrides| && !HasAttr(a, overrides[x].0);
        if x < |init| {
          assert init[x] == overrides[x];
        }
      }
    }
  }

  /** Override(default=v) on an argument installs a copy whose default is v,
      along with has_default, the rest of the argument kept; the argument
      it was copied from is not touched (steel/common/args.py:80-98;
      steel/fields/base.py:33). */
  lemma OverrideDefault(a: Argument, v: ArgValue)
    ensures ApplyOverrides(a, [("default", v)]) == Ok(a.(default := v, hasDefault := true))
  {
    assert [("default", v)][..0] == [];
  }

  /** Override.attach_to_class on a table (steel/common/args.py:86-98). */
  function OverrideF(table: map<string, Argument>, name: string, overrides: seq<(string, ArgValue)>)
    : (r: Result<map<string, Argument>>)
  {
    if name !in table then Err(TypeError)
    else
      var a :- ApplyOverrides(table[name], overrides);
      Ok(table[name := a])
  }

  /** Removed.attach_to_class (steel/common/args.py:106-111): deletes
      exactly the name it was given, and fails with TypeError when there is
      no such argument. */
  function RemoveF(table: map<string, Argument>, name: string): (r: Result<map<string, Argument>>)
    ensures r.Err? <==> name !in table
    ensures r.Err? ==> r.error == TypeError
    ensures r.Ok? ==> r.value.Keys == table.Keys - {name} && forall n :: n in r.value ==> r.value[n] == table[n]
  {
    if name in table then Ok(table - {name}) else Err(TypeError)
  }

  /** Override of a name the table lacks, or of an attribute the argument
      lacks, is a TypeError; otherwise exactly that entry is replaced, by a
      copy with the same attributes. */
  lemma OverrideEffect(table: map<string, Argument>, name: string, overrides: seq<(string, ArgValue)>)
    ensures var r := OverrideF(table, name, overrides);
      && (r.Err? <==> name !in table || exists x :: 0 <= x < |overrides| && !HasAttr(table[name], overrides[x].0))
      && (r.Err? ==> r.error == TypeError)
      && (r.Ok? ==> r.value.Keys == table.Keys && forall n :: n in table && n != name ==> r.value[n] == table[n])
  {
    if name in table {
      OverridesFailExactly(table[name], overrides);
    }
  }

  // ---------------------------------------------------------------------------
  // Reading an argument

  /** What the instance bound to a field provides while the argument is read:
      the attribute of each sibling field (an AttributeError when it has
      none), and the result of calling each callable with the instance. */
  datatype Bound = Bound(attrs: map<string, Result<ArgValue>>, call: nat -> Result<ArgValue>)

  /** Argument.__get__ (steel/common/args.py:54-67): the argument must still
      be in the field class's table (KeyError otherwise) and stored on the
      field (AttributeError otherwise).  With an instance bound, a field
      held by a resolve_field argument is resolved to the instance's value
      of that field, and else a callable is called with the instance; with
      none the stored value is returned as it is.  Plain data comes back
      unchanged in any case, and so does a field held by an argument that
      does not resolve fields: a field is not callable. */
  function ArgGet(table: map<string, Argument>, stored: map<string, ArgValue>, name: string,
                  bound: Option<Bound>): (r: Result<ArgValue>)
    ensures name !in table ==> r == Err(KeyError)
    ensures name in table && table[name].name !in stored ==> r == Err(AttributeError)
    ensures name in table && table[name].name in stored ==>
      var value := stored[table[name].name];
      && (bound.None? ==> r == Ok(value))
      && (!value.AField? && !value.ACallable? ==> r == Ok(value))
      && (value.AField? && !table[name].resolveField ==> r == Ok(value))
      && (bound.Some? && table[name].resolveField && value.AField? && value.field in bound.value.attrs ==>
            r == bound.value.attrs[value.field])
      && (bound.Some? && value.ACallable? ==> r == bound.value.call(value.id))
  {
    if name !in table then Err(KeyError)
    else
      var arg := table[name];
      if arg.name !in stored then Err(AttributeError)
      else
        var value := stored[arg.name];
        if bound.None? then Ok(value)
        else if arg.resolveField && value.AField? then
          (if value.field in bound.value.attrs then bound.value.attrs[value.field] else Err(AttributeError))
        else if value.ACallable? then
          bound.value.call(value.id)
        else Ok(value)
  }
}
