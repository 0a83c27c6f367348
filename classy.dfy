/** The Classy runtime of libs/classy.js: the per-instance event registry,
    type tests built from signatures, overloaded methods whose definitions are
    tried newest first, classes holding such methods, type-checked properties
    and composable validators.

    JavaScript values are modelled by `Value`; the library's built-in type
    tests (_.isNumber, _.isArray, ...), user functions and `instanceof` are
    parameters gathered in `Env`. */
module Classy {
  import opened Wrappers
  import opened Seqs

  datatype Value =
    | Undefined
    | Null
    | Bool(b: bool)
    | Num(x: real)
    | Str(s: string)
    | Fn(fid: nat)
    | Arr(items: seq<Value>)
    | Obj(oid: nat)

  /** What the model does not look inside: the built-in type tests by name,
      calls of user functions by identity, and `v instanceof C`. */
  datatype Env = Env(
    builtin: (string, Value) -> bool,
    call: (nat, Value) -> bool,
    instanceOf: (Value, nat) -> bool)

  // ---------------------------------------------------------------------------
  // Validators (Classy.validator and its and / or / not)
  // ---------------------------------------------------------------------------

  /** The function a validator wraps: a user function, or one built by and,
      or, not. */
  datatype Pred = Base(fid: nat) | AndP(l: Pred, r: Pred) | OrP(l: Pred, r: Pred) | NotP(p: Pred)

  function Holds(p: Pred, env: Env, x: Value): bool
  {
    match p
    case Base(f) => env.call(f, x)
    case AndP(l, r) => Holds(l, env, x) && Holds(r, env, x)
    case OrP(l, r) => Holds(l, env, x) || Holds(r, env, x)
    case NotP(q) => !Holds(q, env, x)
  }

  /** validator.and(that): passes where both pass. */
  function And(p: Pred, that: Pred): (r: Pred)
    ensures forall env, x :: Holds(r, env, x) <==> Holds(p, env, x) && Holds(that, env, x)
  {
    AndP(p, that)
  }

  /** validator.or(that): passes where either passes. */
  function Or(p: Pred, that: Pred): (r: Pred)
    ensures forall env, x :: Holds(r, env, x) <==> Holds(p, env, x) || Holds(that, env, x)
  {
    OrP(p, that)
  }

  /** validator.not(): passes exactly where p fails. */
  function Not(p: Pred): (r: Pred)
    ensures forall env, x :: Holds(r, env, x) <==> !Holds(p, env, x)
  {
    NotP(p)
  }

  /** De Morgan and double negation hold of composed validators. */
  lemma ValidatorAlgebra(p: Pred, q: Pred, env: Env, x: Value)
    ensures Holds(Not(And(p, q)), env, x) == Holds(Or(Not(p), Not(q)), env, x)
    ensures Holds(Not(Or(p, q)), env, x) == Holds(And(Not(p), Not(q)), env, x)
    ensures Holds(Not(Not(p)), env, x) == Holds(p, env, x)
  {
  }

  // ---------------------------------------------------------------------------
  // Type specifications and the tests built from them
  // ---------------------------------------------------------------------------

  /** What may stand in a signature: a built-in constructor (Number, String,
      Array, ...), undefined, null, Object, a validator, or any other
      constructor. */
  datatype TypeSpec =
    | Builtin(name: string)
    | UndefinedType
    | NullType
    | ObjectType
    | ValidatorOf(fn: Pred)
    | Ctor(cid: nat)

  /** An array signature tests every argument and the argument count; any
      other signature tests the first argument only. */
  datatype Signature = Args(types: seq<TypeSpec>) | First(t: TypeSpec)

  /** arguments[i]: undefined past the end. */
  function Arg(args: seq<Value>, i: nat): Value
  {
    if i < |args| then args[i] else Undefined
  }

  /** What the test generated for a type means. */
  predicate TypeHolds(t: TypeSpec, v: Value, env: Env)
  {
    match t
    case Builtin(n) => env.builtin(n, v)
    case UndefinedType => v == Undefined
    case NullType => v == Null
    case ObjectType => v != Undefined
    case ValidatorOf(p) => Holds(p, env, v)
    case Ctor(c) => env.instanceOf(v, c)
  }

  /** When a call's arguments satisfy a signature. */
  predicate Matches(sig: Signature, args: seq<Value>, env: Env)
  {
    match sig
    case Args(ts) => |args| == |ts| && forall i :: 0 <= i < |ts| ==> TypeHolds(ts[i], args[i], env)
    case First(t) => TypeHolds(t, Arg(args, 0), env)
  }

  /** The objects a generated test refers to as __objs__[i]. */
  datatype Ref = FnRef(p: Pred) | CtorRef(cid: nat)

  /** The generated test expressions. */
  datatype Cond =
    | Always                               // 'true'
    | ArgCount(n: nat)                     // arguments.length == n
    | IsA(name: string, arg: nat)          // _.isNumber(arguments[i]), ...
    | IsUndefined(arg: nat)                // typeof arguments[i] == "undefined"
    | IsNull(arg: nat)                     // arguments[i] === null
    | IsDefined(arg: nat)                  // typeof arguments[i] != "undefined"
    | CallsObj(index: nat, arg: nat)       // __objs__[k](arguments[i])
    | InstanceOfObj(index: nat, arg: nat)  // arguments[i] instanceof __objs__[k]
    | Both(left: Cond, right: Cond)        // left && right

  function Eval(c: Cond, args: seq<Value>, objs: seq<Ref>, env: Env): bool
  {
    match c
    case Always => true
    case ArgCount(n) => |args| == n
    case IsA(name, i) => env.builtin(name, Arg(args, i))
    case IsUndefined(i) => Arg(args, i) == Undefined
    case IsNull(i) => Arg(args, i) == Null
    case IsDefined(i) => Arg(args, i) != Undefined
    case CallsObj(k, i) => k < |objs| && objs[k].FnRef? && Holds(objs[k].p, env, Arg(args, i))
    case InstanceOfObj(k, i) => k < |objs| && objs[k].CtorRef? && env.instanceOf(Arg(args, i), objs[k].cid)
    case Both(l, r) => Eval(l, args, objs, env) && Eval(r, args, objs, env)
  }

  /** Every __objs__ index a test uses is below n. */
  predicate WellFormed(c: Cond, n: nat)
  {
    match c
    case CallsObj(k, _) => k < n
    case InstanceOfObj(k, _) => k < n
    case Both(l, r) => WellFormed(l, n) && WellFormed(r, n)
    case _ => true
  }

  /** __objs__ only ever grows at the end, so a test keeps its meaning. */
  lemma {:induction false} EvalExtend(c: Cond, args: seq<Value>, objs: seq<Ref>, more: seq<Ref>, env: Env)
    requires WellFormed(c, |objs|)
    ensures Eval(c, args, objs + more, env) == Eval(c, args, objs, env)
  {
    match c
    case Both(l, r) =>
      EvalExtend(l, args, objs, more, env);
      EvalExtend(r, args, objs, more, env);
    case CallsObj(k, _) =>
      assert (objs + more)[k] == objs[k];
    case InstanceOfObj(k, _) =>
      assert (objs + more)[k] == objs[k];
    case _ =>
  }

  lemma {:induction false} WellFormedMonotone(c: Cond, n: nat, m: nat)
    requires WellFormed(c, n) && n <= m
    ensures WellFormed(c, m)
  {
    match c
    case Both(l, r) =>
      WellFormedMonotone(l, n, m);
      WellFormedMonotone(r, n, m);
    case _ =>
  }

  /** The index of r in objs, appending it when absent. */
  function Intern(objs: seq<Ref>, r: Ref): (res: (nat, seq<Ref>))
    ensures res.0 < |res.1| && res.1[res.0] == r
    ensures objs <= res.1
    ensures r in objs ==> res.1 == objs
    ensures r !in objs ==> res.1 == objs + [r] && res.0 == |objs|
  {
    var k := IndexOf(objs, r);
    if k == -1 then (|objs|, objs + [r]) else (k, objs)
  }

  /** buildCondition(type, 'arguments[i]', objs). */
  function BuildCondition(t: TypeSpec, i: nat, objs: seq<Ref>): (res: (Cond, seq<Ref>))
    ensures objs <= res.1 && |res.1| <= |objs| + 1
    ensures WellFormed(res.0, |res.1|)
    ensures forall args, env :: Eval(res.0, args, res.1, env) == TypeHolds(t, Arg(args, i), env)
  {
    match t
    case Builtin(n) => (IsA(n, i), objs)
    case UndefinedType => (IsUndefined(i), objs)
    case NullType => (IsNull(i), objs)
    case ObjectType => (IsDefined(i), objs)
    case ValidatorOf(p) => var (k, o) := Intern(objs, FnRef(p)); (CallsObj(k, i), o)
    case Ctor(c) => var (k, o) := Intern(objs, CtorRef(c)); (InstanceOfObj(k, i), o)
  }

  lemma PrefixAppend(a: seq<Ref>, b: seq<Ref>)
    requires a <= b
    ensures b == a + b[|a|..]
  {
  }

  /** buildTest(sig, objs): for an array signature, the argument count and one
      condition per position joined with &&; otherwise the condition on the
      first argument. The test means exactly "the arguments match". */
  method BuildTest(sig: Signature, objs: seq<Ref>) returns (c: Cond, objs2: seq<Ref>)
    ensures objs <= objs2
    ensures WellFormed(c, |objs2|)
    ensures forall args, env :: Eval(c, args, objs2, env) == Matches(sig, args, env)
  {
    match sig {
      case First(t) =>
        var res := BuildCondition(t, 0, objs);
        c, objs2 := res.0, res.1;
      case Args(ts) =>
        c, objs2 := ArgCount(|ts|), objs;
        for i := 0 to |ts|
          invariant objs <= objs2
          invariant WellFormed(c, |objs2|)
          invariant forall args, env :: Eval(c, args, objs2, env)
                      == (|args| == |ts| && forall k :: 0 <= k < i ==> TypeHolds(ts[k], Arg(args, k), env))
        {
          var res := BuildCondition(ts[i], i, objs2);
          PrefixAppend(objs2, res.1);
          forall args, env ensures Eval(c, args, res.1, env) == Eval(c, args, objs2, env) {
            EvalExtend(c, args, objs2, res.1[|objs2|..], env);
          }
          WellFormedMonotone(c, |objs2|, |res.1|);
          c, objs2 := Both(c, res.0), res.1;
        }
        forall args, env ensures Eval(c, args, objs2, env) == Matches(sig, args, env) {
          if |args| == |ts| {
            assert forall k :: 0 <= k < |ts| ==> Arg(args, k) == args[k];
          }
        }
    }
  }

  // ---------------------------------------------------------------------------
  // Overloaded methods (Classy.method)
  // ---------------------------------------------------------------------------

  /** One overload: its test and the implementation it selects. */
  datatype Def = Def(test: Cond, func: nat)

  /** The first definition whose test passes. */
  function FirstMatch(defs: seq<Def>, args: seq<Value>, objs: seq<Ref>, env: Env): (r: Option<nat>)
    ensures r.None? <==> forall i :: 0 <= i < |defs| ==> !Eval(defs[i].test, args, objs, env)
    ensures r.Some? ==> exists i :: 0 <= i < |defs| && defs[i].func == r.value
                          && Eval(defs[i].test, args, objs, env)
                          && forall j :: 0 <= j < i ==> !Eval(defs[j].test, args, objs, env)
  {
    if defs == [] then None
    else if Eval(defs[0].test, args, objs, env) then Some(defs[0].func)
    else
      var r := FirstMatch(defs[1..], args, objs, env);
      assert forall i :: 1 <= i < |defs| ==> defs[i] == defs[1..][i - 1];
      if r.Some? then
        ghost var i :| 0 <= i < |defs[1..]| && defs[1..][i].func == r.value
                          && Eval(defs[1..][i].test, args, objs, env)
                          && forall j :: 0 <= j < i ==> !Eval(defs[1..][j].test, args, objs, env);
        assert defs[i + 1].func == r.value;
        r
      else r
  }

  /** The first definition wins: a definition whose test always passes, once
      in front, shadows every definition behind it. */
  lemma CatchAllShadows(f: nat, defs: seq<Def>, objs: seq<Ref>)
    ensures forall args, env :: FirstMatch([Def(Always, f)] + defs, args, objs, env) == Some(f)
  {
  }

  /** A method object: the interned objects its tests share and the list of
      definitions, newest first. */
  class Method {
    var objs: seq<Ref>
    var definitions: seq<Def>

    ghost predicate Valid()
      reads this
    {
      forall i :: 0 <= i < |definitions| ==> WellFormed(definitions[i].test, |objs|)
    }

    constructor ()
      ensures objs == [] && definitions == [] && Valid()
    {
      objs := [];
      definitions := [];
    }

    /** method.lookup(args): the implementation of the first definition whose
        test passes, or none. */
    function Lookup(args: seq<Value>, env: Env): Option<nat>
      reads this
    {
      FirstMatch(definitions, args, objs, env)
    }

    /** method.when(sig, func), or method.when(func) when no signature is
        given: the new definition goes in FRONT, so it wins over every older
        one it overlaps; without a signature its test is 'true'. */
    method When(sig: Option<Signature>, func: nat)
      requires Valid()
      modifies this
      ensures Valid()
      ensures old(objs) <= objs
      ensures |definitions| == |old(definitions)| + 1
      ensures definitions[1..] == old(definitions) && definitions[0].func == func
      ensures sig.None? ==> definitions[0].test == Always
      ensures forall args, env :: Lookup(args, env)
                == if sig.None? || Matches(sig.value, args, env) then Some(func) else old(Lookup(args, env))
    {
      var test: Cond;
      var objs2: seq<Ref>;
      if sig.None? {
        test, objs2 := Always, objs;
      } else {
        test, objs2 := BuildTest(sig.value, objs);
      }
      PrefixAppend(objs, objs2);
      ghost var more := objs2[|objs|..];
      forall i | 0 <= i < |definitions|
        ensures WellFormed(definitions[i].test, |objs2|)
      {
        WellFormedMonotone(definitions[i].test, |objs|, |objs2|);
      }
      ghost var oldDefs := definitions;
      ghost var oldObjs := objs;
      definitions := [Def(test, func)] + definitions;
      objs := objs2;
      assert forall i :: 1 <= i < |definitions| ==> definitions[i] == oldDefs[i - 1];
      forall args, env
        ensures Lookup(args, env)
                == if sig.None? || Matches(sig.value, args, env) then Some(func) else FirstMatch(oldDefs, args, oldObjs, env)
      {
        assert definitions[1..] == oldDefs;
        FirstMatchExtend(oldDefs, args, oldObjs, more, env);
      }
    }

    /** Calling the method: the chosen implementation, or a TypeError when no
        definition matches. */
    method Invoke(args: seq<Value>, env: Env) returns (r: Result<nat, string>)
      ensures r.Ok? <==> exists i :: 0 <= i < |definitions| && Eval(definitions[i].test, args, objs, env)
      ensures r.Ok? ==> r == Ok(Lookup(args, env).value)
    {
      var f := Lookup(args, env);
      if f.Some? {
        r := Ok(f.value);
      } else {
        r := Err("TypeError: no implementation for arguments");
      }
    }

    /** method.copy(): a new method object with copies of both lists. */
    method Copy() returns (m: Method)
      requires Valid()
      ensures fresh(m) && m.Valid()
      ensures m.objs == objs && m.definitions == definitions
    {
      m := new Method();
      m.objs := objs;
      m.definitions := definitions;
    }
  }

  /** Definitions keep their verdicts when __objs__ grows. */
  lemma {:induction false} FirstMatchExtend(defs: seq<Def>, args: seq<Value>, objs: seq<Ref>, more: seq<Ref>, env: Env)
    requires forall i :: 0 <= i < |defs| ==> WellFormed(defs[i].test, |objs|)
    ensures FirstMatch(defs, args, objs + more, env) == FirstMatch(defs, args, objs, env)
    decreases |defs|
  {
    if defs != [] {
      EvalExtend(defs[0].test, args, objs, more, env);
      FirstMatchExtend(defs[1..], args, objs, more, env);
    }
  }

  // ---------------------------------------------------------------------------
  // Classes (Classy(define), Class.method, Class.subclass)
  // ---------------------------------------------------------------------------

  /** A prototype attribute: a Classy method, or some other function. */
  datatype Member = MethodMember(m: Method) | Plain(fid: nat)

  class ClassyClass {
    var prototype: map<string, Member>

    ghost function Methods(): set<Method>
      reads this
    {
      set k | k in prototype && prototype[k].MethodMember? :: prototype[k].m
    }

    ghost predicate Valid()
      reads this, Methods()
    {
      forall k :: k in prototype && prototype[k].MethodMember? ==> prototype[k].m.Valid()
    }

    constructor ()
      ensures prototype == map[] && Valid()
    {
      prototype := map[];
    }

    /** Class.method(name, sig, func), or Class.method(name, func): the method
        object is created on first use, then the definition is added with
        `when`. A name already bound to a non-Classy function is an error. */
    method Define(name: string, sig: Option<Signature>, func: nat) returns (r: Result<Method, string>)
      requires Valid()
      modifies this, if name in prototype && prototype[name].MethodMember? then {prototype[name].m} else {}
      ensures Valid()
      ensures r.Err? <==> old(name in prototype && prototype[name].Plain?)
      ensures forall m :: m in old(Methods()) && (r.Err? || m != r.value) ==>
                m.definitions == old(m.definitions) && m.objs == old(m.objs)
      ensures r.Err? ==> prototype == old(prototype)
      ensures r.Ok? ==> name in prototype && prototype[name] == MethodMember(r.value)
      ensures r.Ok? ==> forall k :: k in old(prototype) && k != name ==> k in prototype && prototype[k] == old(prototype[k])
      ensures r.Ok? && old(name in prototype) ==> prototype[name] == old(prototype[name])
      ensures r.Ok? && old(name !in prototype) ==> fresh(r.value)
      ensures r.Ok? ==> |r.value.definitions| >= 1 && r.value.definitions[0].func == func
      ensures r.Ok? ==>
                r.value.definitions[1..]
                == old(if name in prototype && prototype[name].MethodMember? then prototype[name].m.definitions else [])
      ensures r.Ok? ==> forall args, env ::
                (r.value.Lookup(args, env)
                 == if sig.None? || Matches(sig.value, args, env) then Some(func)
                    else if old(name in prototype) then old(prototype[name].m.Lookup(args, env)) else None)
    {
      if name in prototype && prototype[name].Plain? {
        return Err(name + " is already defined and is not a Classy method");
      }
      var m: Method;
      if name in prototype {
        m := prototype[name].m;
        assert m in Methods();
      } else {
        m := new Method();
        prototype := prototype[name := MethodMember(m)];
      }
      m.When(sig, func);
      r := Ok(m);
    }

    /** Class.subclass(): the subclass prototype holds a COPY of every Classy
        method, so overloads added to the subclass stay out of this class. */
    method Subclass() returns (sub: ClassyClass)
      requires Valid()
      ensures fresh(sub) && sub.Valid()
      ensures sub.prototype.Keys == prototype.Keys
      ensures forall k :: k in sub.prototype && sub.prototype[k].MethodMember? ==> fresh(sub.prototype[k].m)
      ensures forall k :: k in prototype && prototype[k].Plain? ==> sub.prototype[k] == prototype[k]
      ensures forall k :: k in prototype && prototype[k].MethodMember? ==>
                sub.prototype[k].MethodMember?
                && sub.prototype[k].m.definitions == prototype[k].m.definitions
                && sub.prototype[k].m.objs == prototype[k].m.objs
    {
      sub := new ClassyClass();
      var keys := prototype.Keys;
      while keys != {}
        invariant keys <= prototype.Keys
        invariant fresh(sub)
        invariant sub.prototype.Keys == prototype.Keys - keys
        invariant sub.Valid()
        invariant forall k :: k in sub.prototype && sub.prototype[k].MethodMember? ==> fresh(sub.prototype[k].m)
        invariant forall k :: k in sub.prototype && prototype[k].Plain? ==> sub.prototype[k] == prototype[k]
        invariant forall k :: k in sub.prototype && prototype[k].MethodMember? ==>
                    sub.prototype[k].MethodMember?
                    && sub.prototype[k].m.definitions == prototype[k].m.definitions
                    && sub.prototype[k].m.objs == prototype[k].m.objs
        decreases keys
      {
        var k :| k in keys;
        var attr := prototype[k];
        if attr.MethodMember? {
          assert attr.m in Methods();
          var copy := attr.m.Copy();
          sub.prototype := sub.prototype[k := MethodMember(copy)];
        } else {
          sub.prototype := sub.prototype[k := attr];
        }
        keys := keys - {k};
      }
    }
  }

  /** An overload a subclass adds to its copy of a method leaves the parent's
      method exactly as it was. */
  method SubclassOverloadStaysLocal(parent: ClassyClass, name: string, sig: Option<Signature>, func: nat)
    returns (sub: ClassyClass)
    requires parent.Valid()
    requires name in parent.prototype && parent.prototype[name].MethodMember?
    ensures fresh(sub)
    ensures parent.prototype == old(parent.prototype)
    ensures parent.prototype[name].m.definitions == old(parent.prototype[name].m.definitions)
  {
    sub := parent.Subclass();
    var r := sub.Define(name, sig, func);
  }

  // ---------------------------------------------------------------------------
  // Events
  // ---------------------------------------------------------------------------

  /** splice(start, 1) with JavaScript's reading of a negative start: -1 means
      the last element. */
  function SpliceOne<T>(s: seq<T>, start: int): (r: seq<T>)
    requires -1 <= start < |s| || (start == -1 && s == [])
  {
    if start >= 0 then s[..start] + s[start + 1..]
    else if s == [] then s
    else s[..|s| - 1]
  }

  /** The callbacks of each event type, in registration order. */
  class Events {
    var events: map<string, seq<nat>>

    constructor ()
      ensures events == map[]
    {
      events := map[];
    }

    /** on(type, cb): the list is created on first use, and cb goes last. */
    method On(kind: string, callback: nat)
      modifies this
      ensures events == old(events)[kind := (if kind in old(events) then old(events)[kind] else []) + [callback]]
    {
      if kind !in events {
        events := events[kind := []];
      }
      events := events[kind := events[kind] + [callback]];
    }

    /** off(type) empties the list; off(type, cb) splices at indexOf(cb),
        which is -1 when cb is absent, so the LAST callback goes instead. An
        unknown type is left alone. */
    method Off(kind: string, callback: Option<nat>)
      modifies this
      ensures kind !in old(events) ==> events == old(events)
      ensures kind in old(events) && callback.None? ==> events == old(events)[kind := []]
      ensures kind in old(events) && callback.Some? ==>
                events == old(events)[kind := SpliceOne(old(events)[kind], IndexOf(old(events)[kind], callback.value))]
    {
      if kind in events {
        var event := events[kind];
        if callback.None? {
          events := events[kind := []];
        } else {
          events := events[kind := SpliceOne(event, IndexOf(event, callback.value))];
        }
      }
    }

    /** trigger(type, data): the callbacks called, in order. */
    method Trigger(kind: string) returns (called: seq<nat>)
      ensures called == if kind in events then events[kind] else []
    {
      called := [];
      if kind in events {
        var event := events[kind];
        var i := 0;
        while i < |event|
          invariant 0 <= i <= |event|
          invariant called == event[..i]
        {
          called := called + [event[i]];
          i := i + 1;
        }
      }
    }
  }

  /** off with a callback that is registered removes its first occurrence and
      nothing else; off with one that is not removes the last callback. */
  lemma OffRemoves(event: seq<nat>, cb: nat)
    ensures cb in event ==> var k := IndexOf(event, cb);
              SpliceOne(event, k) == event[..k] + event[k + 1..] && multiset(SpliceOne(event, k)) == multiset(event) - multiset{cb}
    ensures cb !in event && event != [] ==> SpliceOne(event, IndexOf(event, cb)) == event[..|event| - 1]
    ensures |SpliceOne(event, IndexOf(event, cb))| == if event == [] then 0 else |event| - 1
  {
    if cb in event {
      var k := IndexOf(event, cb);
      assert event == event[..k] + [cb] + event[k + 1..];
    }
  }

  // ---------------------------------------------------------------------------
  // Properties (property(obj, name, type))
  // ---------------------------------------------------------------------------

  /** What a successful assignment did: the callbacks fired for
      'change:name', and the value they saw through the getter. */
  datatype Notice = Notice(fired: seq<nat>, seen: Value)

  /** A type-checked property of an instance. */
  class Property {
    const name: string
    const kind: TypeSpec
    const test: Cond
    const objs: seq<Ref>
    const owner: Events
    var value: Value

    ghost predicate Valid()
      reads this
    {
      forall args, env :: Eval(test, args, objs, env) == TypeHolds(kind, Arg(args, 0), env)
    }

    /** property(obj, name, type): the test is buildCondition on arguments[0]
        with a fresh list of objects; the value starts undefined. */
    constructor (owner: Events, name: string, kind: TypeSpec)
      ensures Valid() && value == Undefined
      ensures this.owner == owner && this.name == name && this.kind == kind
    {
      var res := BuildCondition(kind, 0, []);
      this.name := name;
      this.kind := kind;
      this.test := res.0;
      this.objs := res.1;
      this.owner := owner;
      this.value := Undefined;
    }

    /** The setter: a value of the right type fires 'change:name' while the
        old value is still in place, then is stored; any other value raises a
        TypeError and the property keeps its value. */
    method Set(newValue: Value, env: Env) returns (r: Result<Notice, string>)
      requires Valid()
      modifies this
      ensures r.Ok? <==> TypeHolds(kind, newValue, env)
      ensures r.Ok? ==> value == newValue && r.value.seen == old(value)
                        && r.value.fired == (if "change:" + name in owner.events then owner.events["change:" + name] else [])
      ensures r.Err? ==> value == old(value)
    {
      if Eval(test, [newValue], objs, env) {
        var fired := owner.Trigger("change:" + name);
        r := Ok(Notice(fired, value));
        value := newValue;
      } else {
        r := Err("TypeError: Property " + name + " has the wrong type");
      }
    }
  }
}
