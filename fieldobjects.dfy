/** The field object of steel/common/fields.py outside the structure engine:
    the constructor that fills each argument from the keyword arguments or
    its default, the label set_name derives from the attribute name, and
    the triggers fields register their hooks with. */
module FieldObjects {
  import opened Results
  import opened Args

  // ---------------------------------------------------------------------------
  // Field.__init__ (steel/common/fields.py:70-94; steel/bits/fields.py:13-29;
  // biwako/bit/fields.py:14-30)

  /** The arguments a field is constructed with: each argument of its class
      takes the keyword argument of that name, or else its default; an
      argument with neither, or a keyword no argument takes, is a TypeError.
      The values are what the argument descriptors store on the field. */
  function FieldInitF(arguments: map<string, Argument>, kwargs: map<string, ArgValue>)
    : (r: Result<map<string, ArgValue>>)
    ensures r.Err? <==> (exists n :: n in arguments && n !in kwargs && !arguments[n].hasDefault)
                        || (exists k :: k in kwargs && k !in arguments)
    ensures r.Err? ==> r.error == TypeError
    ensures r.Ok? ==> r.value.Keys == arguments.Keys
    ensures r.Ok? ==> forall n :: n in arguments ==> r.value[n] == if n in kwargs then kwargs[n] else arguments[n].default
  {
    if exists n :: n in arguments && n !in kwargs && !arguments[n].hasDefault then Err(TypeError)
    else if exists k :: k in kwargs && k !in arguments then Err(TypeError)
    else Ok(map n | n in arguments :: if n in kwargs then kwargs[n] else arguments[n].default)
  }

  /** The constructor's loops: every argument in turn pops its keyword or
      falls back to its default, and what is left of the keywords is an
      error.  The initialize pass that follows (which, for an Integer, turns
      the size, signed and endianness arguments into its format) is folded
      into how each field kind is built. */
  method FieldInit(arguments: map<string, Argument>, kwargs: map<string, ArgValue>)
    returns (r: Result<map<string, ArgValue>>)
    ensures r == FieldInitF(arguments, kwargs)
  {
    var stored, pending, missing := StoreArguments(arguments, kwargs);
    if missing {
      return Err(TypeError);
    }
    if pending != map[] {
      var k :| k in pending;
      FieldInitUnexpected(arguments, kwargs, k);
      return Err(TypeError);
    }
    FieldInitFilled(arguments, kwargs, stored);
    r := Ok(stored);
  }

  /** The first loop of the constructor: each argument pops its keyword or
      takes its default; one with neither stops it. */
  method StoreArguments(arguments: map<string, Argument>, kwargs: map<string, ArgValue>)
    returns (stored: map<string, ArgValue>, pending: map<string, ArgValue>, missing: bool)
    ensures missing ==> FieldInitF(arguments, kwargs) == Err(TypeError)
    ensures !missing ==> stored.Keys == arguments.Keys
    ensures !missing ==> forall n :: n in stored ==> stored[n] == if n in kwargs then kwargs[n] else arguments[n].default
    ensures !missing ==> forall n :: n in stored ==> n in kwargs || arguments[n].hasDefault
    ensures !missing ==> pending.Keys == kwargs.Keys - stored.Keys
    ensures !missing ==> forall k :: k in pending ==> pending[k] == kwargs[k]
  {
    stored := map[];
    pending := kwargs;
    var todo := arguments.Keys;
    while todo != {}
      invariant todo <= arguments.Keys
      invariant stored.Keys == arguments.Keys - todo
      invariant forall n :: n in stored ==> stored[n] == if n in kwargs then kwargs[n] else arguments[n].default
      invariant forall n :: n in stored ==> n in kwargs || arguments[n].hasDefault
      invariant pending.Keys == kwargs.Keys - stored.Keys
      invariant forall k :: k in pending ==> pending[k] == kwargs[k]
      decreases |todo|
    {
      var n :| n in todo;
      if n in pending {
        stored := stored[n := pending[n]];
        pending := pending - {n};
      } else if arguments[n].hasDefault {
        stored := stored[n := arguments[n].default];
      } else {
        FieldInitMissing(arguments, kwargs, n);
        return stored, pending, true;
      }
      todo := todo - {n};
    }
    missing := false;
  }

  /** An argument without keyword or default is a TypeError. */
  lemma FieldInitMissing(arguments: map<string, Argument>, kwargs: map<string, ArgValue>, n: string)
    requires n in arguments && n !in kwargs && !arguments[n].hasDefault
    ensures FieldInitF(arguments, kwargs) == Err(TypeError)
  {
  }

  /** A keyword no argument takes is a TypeError. */
  lemma FieldInitUnexpected(arguments: map<string, Argument>, kwargs: map<string, ArgValue>, k: string)
    requires k in kwargs && k !in arguments
    ensures FieldInitF(arguments, kwargs) == Err(TypeError)
  {
  }

  /** Every argument stored, and no keyword left over: the constructor
      succeeds with what was stored. */
  lemma FieldInitFilled(arguments: map<string, Argument>, kwargs: map<string, ArgValue>, stored: map<string, ArgValue>)
    requires stored.Keys == arguments.Keys && kwargs.Keys <= arguments.Keys
    requires forall n :: n in stored ==> stored[n] == if n in kwargs then kwargs[n] else arguments[n].default
    requires forall n :: n in stored ==> n in kwargs || arguments[n].hasDefault
    ensures FieldInitF(arguments, kwargs) == Ok(stored)
  {
    var filled := map n | n in arguments :: if n in kwargs then kwargs[n] else arguments[n].default;
    assert filled == stored;
  }

  /** Fields with all-default arguments take no keyword at all, and any
      keyword the class declares overrides its default. */
  lemma DefaultsFill(arguments: map<string, Argument>, kwargs: map<string, ArgValue>)
    requires forall n :: n in arguments ==> arguments[n].hasDefault
    requires kwargs.Keys <= arguments.Keys
    ensures FieldInitF(arguments, kwargs).Ok?
    ensures FieldInitF(arguments, map[]).Ok?
    ensures forall n :: n in arguments ==> FieldInitF(arguments, map[]).value[n] == arguments[n].default
  {
  }

  // ---------------------------------------------------------------------------
  // Field.set_name (steel/common/fields.py:116-119)

  predicate IsUpper(c: char) { 'A' <= c <= 'Z' }
  predicate IsLower(c: char) { 'a' <= c <= 'z' }
  predicate Cased(c: char) { IsUpper(c) || IsLower(c) }

  function Upper(c: char): (r: char)
    ensures Cased(r) <==> Cased(c)
    ensures !Cased(c) ==> r == c
    ensures IsUpper(r) || !Cased(c)
  {
    if IsLower(c) then (c as int - 32) as char else c
  }

  function Lower(c: char): (r: char)
    ensures Cased(r) <==> Cased(c)
    ensures !Cased(c) ==> r == c
    ensures IsLower(r) || !Cased(c)
  {
    if IsUpper(c) then (c as int + 32) as char else c
  }

  /** str.title over ASCII: a cased character is upper case after an
      uncased one (or at the start) and lower case after a cased one. */
  function TitleFrom(s: string, afterCased: bool): (r: string)
    ensures |r| == |s|
    ensures forall i :: 0 <= i < |s| ==> (Cased(r[i]) <==> Cased(s[i]))
    decreases |s|
  {
    if |s| == 0 then ""
    else [if afterCased then Lower(s[0]) else Upper(s[0])] + TitleFrom(s[1..], Cased(s[0]))
  }

  function Title(s: string): string {
    TitleFrom(s, false)
  }

  /** name.replace('_', ' '). */
  function Spaced(name: string): (r: string)
    ensures |r| == |name|
    ensures forall i :: 0 <= i < |name| ==> r[i] == if name[i] == '_' then ' ' else name[i]
  {
    seq(|name|, i requires 0 <= i < |name| => if name[i] == '_' then ' ' else name[i])
  }

  /** The label set_name gives a field: its own label if it has one, else
      its attribute name with underscores as spaces, title-cased. */
  function Label(given: string, name: string): string {
    Title(if given != "" then given else Spaced(name))
  }

  /** Title-casing is idempotent, so naming a field again keeps its label. */
  lemma {:induction false} TitleIdempotent(s: string, afterCased: bool)
    ensures TitleFrom(TitleFrom(s, afterCased), afterCased) == TitleFrom(s, afterCased)
    decreases |s|
  {
    if |s| > 0 {
      var t := TitleFrom(s, afterCased);
      assert t[1..] == TitleFrom(s[1..], Cased(s[0]));
      TitleIdempotent(s[1..], Cased(s[0]));
      assert Cased(t[0]) == Cased(s[0]);
    }
  }

  /** Every word starts upper case and continues lower case: each letter
      is upper case exactly when no letter comes just before it. */
  lemma {:induction false} TitleShape(s: string, afterCased: bool)
    ensures var r := TitleFrom(s, afterCased);
      forall i :: 0 <= i < |s| && Cased(s[i]) ==>
        (IsUpper(r[i]) <==> !(if i == 0 then afterCased else Cased(s[i - 1])))
    decreases |s|
  {
    if |s| > 0 {
      TitleShape(s[1..], Cased(s[0]));
      var r := TitleFrom(s, afterCased);
      assert r[1..] == TitleFrom(s[1..], Cased(s[0]));
      forall i | 1 <= i < |s| && Cased(s[i])
        ensures IsUpper(r[i]) <==> !Cased(s[i - 1])
      {
        assert r[i] == r[1..][i - 1] && s[i] == s[1..][i - 1];
      }
    }
  }

  /** The label of a field `number` declared without one. */
  lemma LabelExample()
    ensures Label("", "number") == "Number"
  {
    assert Spaced("number") == "number";
    assert TitleFrom("", true) == "";
    assert TitleFrom("r", true) == "r";
    assert TitleFrom("er", true) == "er";
    assert TitleFrom("ber", true) == "ber";
    assert TitleFrom("mber", true) == "mber";
    assert TitleFrom("umber", true) == "umber";
    assert TitleFrom("number", false) == "Number";
  }

  // ---------------------------------------------------------------------------
  // Trigger and BoundTrigger (steel/common/fields.py:11-43)

  /** A registered hook: a function bound to a field with functools.partial,
      or a function registered straight on a bound trigger. */
  datatype Callable = Partial(func: nat, field: Option<nat>) | Plain(func: nat)

  /** A trigger bound to one field. */
  class BoundTrigger {
    const field: Option<nat>
    var functions: set<Callable>

    /** BoundTrigger.__init__: every function registered on the trigger so
        far, bound to the field. */
    constructor (field: Option<nat>, registered: set<nat>)
      ensures this.field == field
      ensures functions == set f | f in registered :: Partial(f, field)
    {
      this.field := field;
      functions := set f | f in registered :: Partial(f, field);
    }

    /** BoundTrigger.__call__, used as a decorator. */
    method Register(func: nat)
      modifies this
      ensures functions == old(functions) + {Plain(func)}
    {
      functions := functions + {Plain(func)};
    }
  }

  /** A trigger declared on a field class (after_encode, after_decode). */
  class Trigger {
    var functions: set<nat>
    var cache: map<Option<nat>, BoundTrigger>

    /** Each cached bound trigger belongs to the key it is cached under. */
    ghost predicate Valid()
      reads this, cache.Values
    {
      forall k :: k in cache ==> cache[k].field == k
    }

    constructor ()
      ensures functions == {} && cache == map[] && Valid()
    {
      functions := {};
      cache := map[];
    }

    /** Trigger.__call__, the decorator in a field class body. */
    method Register(func: nat)
      modifies this
      ensures functions == old(functions) + {func} && cache == old(cache)
    {
      functions := functions + {func};
    }

    /** Trigger.__get__: the bound trigger of a field, made on first access
        from the functions registered by then and cached, so that later
        accesses get the same object.  Reading through the class binds to
        None. */
    method Get(instance: Option<nat>) returns (b: BoundTrigger)
      requires Valid()
      modifies this
      ensures Valid() && functions == old(functions)
      ensures instance in old(cache) ==> b == old(cache)[instance] && cache == old(cache)
      ensures instance !in old(cache) ==> fresh(b) && cache == old(cache)[instance := b]
      ensures instance !in old(cache) ==> b.functions == set f | f in functions :: Partial(f, instance)
      ensures b.field == instance
    {
      if instance !in cache {
        var made := new BoundTrigger(instance, functions);
        cache := cache[instance := made];
      }
      b := cache[instance];
    }
  }

  /** steel/fields/base.py:11 decorates update_size through the class, which
      binds the trigger to None: the function goes to the None-bound
      trigger only, and the trigger of a real field made afterwards holds
      only the functions registered on the trigger itself. */
  method ClassDecoration(t: Trigger, func: nat, field: nat) returns (onNone: BoundTrigger, onField: BoundTrigger)
    requires t.Valid() && Some(field) !in t.cache && None !in t.cache && func !in t.functions
    modifies t
    ensures Plain(func) in onNone.functions
    ensures onField.field == Some(field)
    ensures forall c :: c in onField.functions ==> c.Partial? && c.func != func
  {
    onNone := t.Get(None);
    onNone.Register(func);
    onField := t.Get(Some(field));
  }
}
