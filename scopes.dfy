/** The scoping containers: a shader's globals are deduplicated by name, a
    function's locals are looked up by name before one is created. Also the
    record of a `Shader.Function`. */
module Scopes {
  import opened Wrappers
  import opened Variables

  /** A `Shader.Function` object: its name, its statements in insertion order,
      and the `existing` list of its `FunctionVariablesContainer`. Ids index the
      owning shader's arenas. */
  datatype Function = Function(name: string, statements: seq<nat>, locals: seq<nat>)

  /** The names of the variables with the given ids, in order. */
  function Names(vars: seq<Var>, ids: seq<nat>): (ns: seq<Option<string>>)
    requires forall k :: 0 <= k < |ids| ==> ids[k] < |vars|
    ensures |ns| == |ids| && forall k :: 0 <= k < |ids| ==> ns[k] == vars[ids[k]].name
  {
    seq(|ids|, k requires 0 <= k < |ids| => vars[ids[k]].name)
  }

  lemma NamesAppend(vars: seq<Var>, ids: seq<nat>, x: nat)
    requires forall k :: 0 <= k < |ids| ==> ids[k] < |vars|
    requires x < |vars|
    ensures Names(vars, ids + [x]) == Names(vars, ids) + [vars[x].name]
  {
  }

  /** Names survive any change to the arena that keeps the named objects' names. */
  lemma NamesStable(vars: seq<Var>, vars': seq<Var>, ids: seq<nat>)
    requires forall k :: 0 <= k < |ids| ==> ids[k] < |vars| && ids[k] < |vars'|
    requires forall k :: 0 <= k < |ids| ==> vars'[ids[k]].name == vars[ids[k]].name
    ensures Names(vars', ids) == Names(vars, ids)
  {
  }

  predicate Distinct<T(==)>(s: seq<T>)
  {
    forall i, j :: 0 <= i < j < |s| ==> s[i] != s[j]
  }

  /** The registrations with repeats removed, each kept where it first occurred. */
  function Dedup<T(==, !new)>(s: seq<T>): (d: seq<T>)
    ensures Distinct(d)
    ensures forall x :: x in d <==> x in s
    decreases |s|
  {
    if s == [] then []
    else
      var d := Dedup(s[..|s| - 1]);
      if s[|s| - 1] in d then d else d + [s[|s| - 1]]
  }

  lemma DedupSnoc<T(!new)>(s: seq<T>, x: T)
    ensures Dedup(s + [x]) == if x in Dedup(s) then Dedup(s) else Dedup(s) + [x]
  {
    assert (s + [x])[..|s|] == s;
  }

  /** Where x first occurs in s. */
  function FirstIndex<T(==)>(s: seq<T>, x: T): (k: nat)
    requires x in s
    ensures k < |s| && s[k] == x && x !in s[..k]
  {
    if s[0] == x then 0
    else
      assert s == [s[0]] + s[1..];
      1 + FirstIndex(s[1..], x)
  }

  lemma FirstIndexSnoc<T>(s: seq<T>, x: T, y: T)
    requires y in s
    ensures FirstIndex(s + [x], y) == FirstIndex(s, y)
  {
    var k := FirstIndex(s, y);
    assert (s + [x])[k] == y;
    assert (s + [x])[..k] == s[..k];
  }

  /** The elements of d, all taken from s, appear in d in the order of their
      first occurrence in s. */
  ghost predicate InFirstOrder<T>(s: seq<T>, d: seq<T>)
  {
    (forall y :: y in d ==> y in s) &&
    forall i, j :: 0 <= i < j < |d| ==> FirstIndex(s, d[i]) < FirstIndex(s, d[j])
  }

  /** Appending to s moves no first occurrence of an element already in s. */
  lemma InFirstOrderSnoc<T>(s: seq<T>, d: seq<T>, x: T)
    requires InFirstOrder(s, d)
    ensures InFirstOrder(s + [x], d)
  {
    forall y | y in d ensures y in s + [x] && FirstIndex(s + [x], y) == FirstIndex(s, y) {
      FirstIndexSnoc(s, x, y);
    }
  }

  /** An element occurring first after every element of d can follow d. */
  lemma InFirstOrderExtend<T>(s: seq<T>, d: seq<T>, x: T)
    requires InFirstOrder(s, d) && x in s
    requires forall y :: y in d ==> FirstIndex(s, y) < FirstIndex(s, x)
    ensures InFirstOrder(s, d + [x])
  {
    forall i, j | 0 <= i < j < |d + [x]|
      ensures FirstIndex(s, (d + [x])[i]) < FirstIndex(s, (d + [x])[j])
    {
      assert (d + [x])[i] == d[i];
      if j < |d| { assert (d + [x])[j] == d[j]; }
    }
  }

  /** The kept names are in first-registration order. */
  lemma {:induction false} DedupKeepsFirstRegistrationOrder<T(!new)>(s: seq<T>)
    ensures InFirstOrder(s, Dedup(s))
    decreases |s|
  {
    if s != [] {
      var p, x := s[..|s| - 1], s[|s| - 1];
      assert s == p + [x];
      DedupKeepsFirstRegistrationOrder(p);
      DedupSnoc(p, x);
      InFirstOrderSnoc(p, Dedup(p), x);
      if x !in Dedup(p) {
        assert x !in p;
        assert FirstIndex(s, x) == |p|;
        InFirstOrderExtend(s, Dedup(p), x);
      }
    }
  }

  /** `existing.filter { $0.name == name }.first`. The result is the first
      variable in the list with that name; there is none exactly when the name
      is absent. */
  function FirstNamed(vars: seq<Var>, ids: seq<nat>, name: string): (r: Option<nat>)
    requires forall k :: 0 <= k < |ids| ==> ids[k] < |vars|
    ensures r.None? <==> Some(name) !in Names(vars, ids)
    ensures r.Some? ==> r.value == ids[FirstIndex(Names(vars, ids), Some(name))]
  {
    if ids == [] then None
    else if vars[ids[0]].name == Some(name) then Some(ids[0])
    else
      var ns := Names(vars, ids);
      assert ns[1..] == Names(vars, ids[1..]);
      assert ns == [ns[0]] + ns[1..];
      FirstNamed(vars, ids[1..], name)
  }

  /** A lookup that finds something finds a variable with the name looked up. */
  lemma FirstNamedHasName(vars: seq<Var>, ids: seq<nat>, name: string)
    requires forall k :: 0 <= k < |ids| ==> ids[k] < |vars|
    requires FirstNamed(vars, ids, name).Some?
    ensures FirstNamed(vars, ids, name).value < |vars|
    ensures vars[FirstNamed(vars, ids, name).value].name == Some(name)
  {
    var k := FirstIndex(Names(vars, ids), Some(name));
    assert Names(vars, ids)[k] == vars[ids[k]].name;
  }

  /** With distinct names, looking up the name of a listed variable finds that very variable. */
  lemma FirstNamedFindsUnique(vars: seq<Var>, ids: seq<nat>, k: nat)
    requires forall j :: 0 <= j < |ids| ==> ids[j] < |vars|
    requires Distinct(Names(vars, ids)) && k < |ids| && vars[ids[k]].name.Some?
    ensures FirstNamed(vars, ids, vars[ids[k]].name.value) == Some(ids[k])
  {
    var ns := Names(vars, ids);
    assert ns[k] == vars[ids[k]].name;
    var j := FirstIndex(ns, ns[k]);
    assert !(j < k || k < j);
  }

  /** `Function.addStatement`: append one statement to one function. */
  function AppendStatement(fs: seq<Function>, f: nat, s: nat): (r: seq<Function>)
    requires f < |fs|
    ensures |r| == |fs| && r[f].statements == fs[f].statements + [s]
    ensures r[f].name == fs[f].name && r[f].locals == fs[f].locals
    ensures forall g :: 0 <= g < |fs| && g != f ==> r[g] == fs[g]
  {
    fs[f := fs[f].(statements := fs[f].statements + [s])]
  }
}
