/** nerdy.Dataset (src/nerdy.js): a root dataset owns a header and rows; a
    subset shares its root and lists the row keys it covers. Construction goes
    through the Classy overloaded `init`, which is where the library's
    dispatch order decides what `where` returns. */
module DatasetModel {
  import opened Wrappers
  import opened Classy

  /** _.object(head, row): the row as an object keyed by the header. */
  datatype Record = Record(names: seq<Value>, values: seq<Value>)

  /** The two implementations registered for 'init'. */
  const SubsetInitId: nat := 0
  const RootInitId: nat := 1

  /** The class identity `cls` that the subset signature refers to. */
  const DatasetCid: nat := 0

  /** The signature [cls, Array] of the subset constructor. */
  const SubsetSignature: Signature := Args([Ctor(DatasetCid), Builtin("Array")])

  /** The arguments `new Dataset(...)` is called with. */
  datatype InitArgs = NoArgs | SubsetArgs(root: Dataset, keys: seq<nat>)

  /** The JavaScript argument list those arguments make. */
  function Encode(a: InitArgs): (vs: seq<Value>)
    ensures a.NoArgs? ==> vs == []
    ensures a.SubsetArgs? ==> |vs| == 2 && vs[0].Obj? && vs[1].Arr? && |vs[1].items| == |a.keys|
  {
    match a
    case NoArgs => []
    case SubsetArgs(_, keys) => [Obj(0), Arr(seq(|keys|, i requires 0 <= i < |keys| => Num(keys[i] as real)))]
  }

  /** An environment whose type tests answer as JavaScript does for the
      values `Encode` builds: a dataset is an instance of the class and an
      array is an array. */
  ghost predicate Truthful(env: Env)
  {
    (forall v :: env.builtin("Array", v) <==> v.Arr?)
    && (forall v :: env.instanceOf(v, DatasetCid) <==> v.Obj?)
  }

  lemma SubsetArgsMatch(root: Dataset, keys: seq<nat>, env: Env)
    requires Truthful(env)
    ensures Matches(SubsetSignature, Encode(SubsetArgs(root, keys)), env)
  {
    var vs := Encode(SubsetArgs(root, keys));
    assert TypeHolds(Ctor(DatasetCid), vs[0], env);
    assert TypeHolds(Builtin("Array"), vs[1], env);
  }

  /** The keys of a subset whose rows pass fn, in key order. */
  function Passing(keys: seq<nat>, head: seq<Value>, data: seq<seq<Value>>, fn: Record -> bool): (r: seq<nat>)
    requires forall i :: 0 <= i < |keys| ==> keys[i] < |data|
    ensures |r| <= |keys|
    ensures forall k :: k in r <==> k in keys && k < |data| && fn(Record(head, data[k]))
  {
    if keys == [] then []
    else
      var rest := Passing(keys[..|keys| - 1], head, data, fn);
      var k := keys[|keys| - 1];
      assert keys == keys[..|keys| - 1] + [k];
      if fn(Record(head, data[k])) then rest + [k] else rest
  }

  /** Strictly increasing keys. */
  predicate Increasing(keys: seq<nat>)
  {
    forall i, j :: 0 <= i < j < |keys| ==> keys[i] < keys[j]
  }

  /** Filtering keeps key order: the keys of a where are increasing when the
      keys it filters are. */
  lemma {:induction false} PassingIncreasing(keys: seq<nat>, head: seq<Value>, data: seq<seq<Value>>, fn: Record -> bool)
    requires forall i :: 0 <= i < |keys| ==> keys[i] < |data|
    requires Increasing(keys)
    ensures Increasing(Passing(keys, head, data, fn))
  {
    if keys != [] {
      var init := keys[..|keys| - 1];
      PassingIncreasing(init, head, data, fn);
      var rest := Passing(init, head, data, fn);
      var k := keys[|keys| - 1];
      forall x | x in rest ensures x < k {
        var i :| 0 <= i < |init| && init[i] == x;
        assert keys[i] == x;
      }
      if fn(Record(head, data[k])) {
        var r := rest + [k];
        assert Passing(keys, head, data, fn) == r;
        forall i, j | 0 <= i < j < |r| ensures r[i] < r[j] {
          if j == |rest| {
            assert r[i] in rest;
          }
        }
      }
    }
  }

  /** The keys of a freshly loaded root: 0, 1, ..., n - 1. */
  function Range(n: nat): (r: seq<nat>)
    ensures |r| == n && forall i :: 0 <= i < n ==> r[i] == i
  {
    seq(n, i requires 0 <= i => i)
  }

  class Dataset {
    var root: Dataset?
    var keys: seq<nat>
    var head: seq<Value>
    var data: seq<seq<Value>>

    /** The object `new` hands to 'init', before any field is set. */
    constructor ()
      ensures root == null && keys == [] && head == [] && data == []
    {
      root := null;
      keys := [];
      head := [];
      data := [];
    }

    /** Every key indexes a row of the root. */
    predicate KeysInRange()
      reads this, root
    {
      root != null && forall i :: 0 <= i < |keys| ==> keys[i] < |root.data|
    }

    /** load(rows): only a root may load; the header is the first row, the
        data the rest, and the keys every row index. An empty array has no
        header to copy and fails. */
    method Load(rows: seq<seq<Value>>) returns (r: Result<(), string>)
      modifies this
      ensures r.Err? <==> old(root) != this || rows == []
      ensures r.Err? ==> head == old(head) && data == old(data) && keys == old(keys) && root == old(root)
      ensures r.Ok? ==> root == this && head == rows[0] && data == rows[1..] && keys == Range(|rows| - 1)
      ensures r.Ok? ==> KeysInRange()
    {
      if root != this {
        return Err("Dataset.load cannot be called on subsets of the data");
      }
      if rows == [] {
        return Err("TypeError: the header row is undefined");
      }
      head := rows[0];
      data := rows[1..];
      keys := Range(|data|);
      r := Ok(());
    }

    /** eachKey(fn): fn is called on every key, in order. */
    method EachKey() returns (visited: seq<nat>)
      ensures visited == keys
    {
      visited := [];
      var i := 0;
      while i < |keys|
        invariant 0 <= i <= |keys|
        invariant visited == keys[..i]
      {
        visited := visited + [keys[i]];
        i := i + 1;
      }
    }

    /** select(fn): fn on the record of every row the dataset covers, in key
        order. */
    method Select(fn: Record -> Value) returns (out: seq<Value>)
      requires KeysInRange()
      ensures |out| == |keys|
      ensures forall i :: 0 <= i < |keys| ==> out[i] == fn(Record(root.head, root.data[keys[i]]))
    {
      out := [];
      var i := 0;
      while i < |keys|
        invariant 0 <= i <= |keys|
        invariant |out| == i
        invariant forall j :: 0 <= j < i ==> out[j] == fn(Record(root.head, root.data[keys[j]]))
      {
        out := out + [fn(Record(root.head, root.data[keys[i]]))];
        i := i + 1;
      }
    }

    /** count(): the number of keys. */
    function Count(): (n: nat)
      reads this
      ensures n == |keys|
    {
      |keys|
    }

    /** The first half of where(fn): the keys whose record passes fn. */
    method CollectKeys(fn: Record -> bool) returns (newkeys: seq<nat>)
      requires KeysInRange()
      ensures newkeys == Passing(keys, root.head, root.data, fn)
    {
      newkeys := [];
      var i := 0;
      while i < |keys|
        invariant 0 <= i <= |keys|
        invariant newkeys == Passing(keys[..i], root.head, root.data, fn)
      {
        assert keys[..i + 1][..i] == keys[..i];
        if fn(Record(root.head, root.data[keys[i]])) {
          newkeys := newkeys + [keys[i]];
        }
        i := i + 1;
      }
      assert keys[..|keys|] == keys;
    }

    /** where(fn): collect the passing keys, then `new Dataset(root, newkeys)`,
        which dispatches through 'init'. What comes back depends on which
        'init' definition wins. */
    method Where(init: Method, fn: Record -> bool, env: Env) returns (r: Result<Dataset, string>)
      requires KeysInRange()
      ensures r.Ok? ==> fresh(r.value)
      ensures (init.Lookup(Encode(SubsetArgs(root, Passing(keys, root.head, root.data, fn))), env) == Some(RootInitId))
                ==> r.Ok? && r.value.root == r.value && r.value.keys == [] && r.value.head == [] && r.value.data == []
      ensures (init.Lookup(Encode(SubsetArgs(root, Passing(keys, root.head, root.data, fn))), env) == Some(SubsetInitId))
                ==> r.Ok? && r.value.root == root && r.value.keys == Passing(keys, root.head, root.data, fn)
    {
      var newkeys := CollectKeys(fn);
      r := New(init, SubsetArgs(root, newkeys), env);
    }
  }

  /** `new Dataset(args...)`: a blank object, then the 'init' definition that
      dispatch picks. The root constructor makes the object its own root with
      nothing loaded; the subset constructor stores the given root and keys.
      No matching definition is a TypeError. */
  method New(init: Method, a: InitArgs, env: Env) returns (r: Result<Dataset, string>)
    ensures r.Ok? ==> fresh(r.value)
    ensures r.Err? <==> init.Lookup(Encode(a), env) == None
    ensures init.Lookup(Encode(a), env) == Some(RootInitId) ==>
              r.Ok? && r.value.root == r.value && r.value.keys == [] && r.value.head == [] && r.value.data == []
    ensures init.Lookup(Encode(a), env) == Some(SubsetInitId) && a.SubsetArgs? ==>
              r.Ok? && r.value.root == a.root && r.value.keys == a.keys
  {
    var func := init.Lookup(Encode(a), env);
    if func.None? {
      return Err("TypeError: init has no implementation for arguments");
    }
    var d := new Dataset();
    if func.value == RootInitId {
      d.root := d;
      d.keys := [];
      d.head := [];
      d.data := [];
    } else if func.value == SubsetInitId && a.SubsetArgs? {
      d.root := a.root;
      d.keys := a.keys;
    }
    r := Ok(d);
  }

  /** The 'init' method as the class body registers it: the subset
      constructor [cls, Array] first, then the argument-free root
      constructor, which `when` installs in front with an always-true test.
      Every call therefore runs the root constructor. */
  method SourceInit() returns (init: Method)
    ensures fresh(init) && init.Valid()
    ensures forall args, env :: init.Lookup(args, env) == Some(RootInitId)
  {
    init := new Method();
    init.When(Some(SubsetSignature), SubsetInitId);
    init.When(None, RootInitId);
  }

  /** where(fn) as written: whatever fn selects, the result is a fresh,
      empty root, not a subset of this dataset. */
  method WhereAsWritten(ds: Dataset, fn: Record -> bool, env: Env) returns (r: Result<Dataset, string>)
    requires ds.KeysInRange()
    ensures r.Ok? && fresh(r.value)
    ensures r.value.root == r.value && r.value.keys == [] && r.value.data == []
    ensures r.value.Count() == 0
  {
    var init := SourceInit();
    r := ds.Where(init, fn, env);
  }

  /** The evidently intended registration order: the root constructor first,
      the subset constructor after it, so a call with a dataset and an rows
      reaches the subset constructor and every other call the root one. */
  method CorrectedInit() returns (init: Method)
    ensures fresh(init) && init.Valid()
    ensures forall args, env :: init.Lookup(args, env)
              == if Matches(SubsetSignature, args, env) then Some(SubsetInitId) else Some(RootInitId)
  {
    init := new Method();
    init.When(None, RootInitId);
    init.When(Some(SubsetSignature), SubsetInitId);
  }

  /** where(fn) with the corrected 'init': a subset sharing the root whose
      keys are exactly the passing keys, in key order, so its count is the
      number of passing rows. `new Dataset()` still makes an empty root. */
  method WhereCorrected(ds: Dataset, fn: Record -> bool, env: Env) returns (r: Result<Dataset, string>)
    requires ds.KeysInRange() && Truthful(env)
    ensures r.Ok? && fresh(r.value)
    ensures r.value.root == ds.root
    ensures r.value.keys == Passing(ds.keys, ds.root.head, ds.root.data, fn)
    ensures forall k :: k in r.value.keys <==> k in ds.keys && fn(Record(ds.root.head, ds.root.data[k]))
    ensures Increasing(ds.keys) ==> Increasing(r.value.keys)
  {
    var init := CorrectedInit();
    SubsetArgsMatch(ds.root, Passing(ds.keys, ds.root.head, ds.root.data, fn), env);
    r := ds.Where(init, fn, env);
    if Increasing(ds.keys) {
      PassingIncreasing(ds.keys, ds.root.head, ds.root.data, fn);
    }
  }

  /** With the corrected 'init', `new Dataset()` is still a root. */
  method NewRootCorrected(env: Env) returns (r: Result<Dataset, string>)
    ensures r.Ok? && fresh(r.value) && r.value.root == r.value && r.value.keys == []
  {
    var init := CorrectedInit();
    assert !Matches(SubsetSignature, Encode(NoArgs), env);
    r := New(init, NoArgs, env);
  }
}
