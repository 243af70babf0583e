/** The `Shader` object and the builder operations that change it: creating
    functions, registering globals, looking up locals, building statements with
    the `==`, `+=`, `*`, `+`, `-` and `texture2D` operators, and the
    `ShaderArray` accessors. Every variable and statement object lives in the
    shader's arenas; a fault leaves the shader as it was. */
module Program {
  import opened Wrappers
  import opened Text
  import opened Variables
  import opened Statements
  import opened Scopes
  import opened Emitter

  /** The return types the global container's subscripts are overloaded on. */
  datatype GlobalKind = FloatGlobal | Vec4Global | Sampler2DGlobal | Vec2ArrayGlobal | FloatArrayGlobal

  /** The return types the function container's subscripts are overloaded on. */
  datatype LocalKind = FloatLocal | Vec2Local | Vec4Local | IntLocal

  /** The type tag and the blank class fields of a fresh global of each kind. */
  function GlobalShape(k: GlobalKind): (ValueType, VarKind)
  {
    match k
    case FloatGlobal => (FloatType, GFloat(None))
    case Vec4Global => (Vec4Type, Vec4(None))
    case Sampler2DGlobal => (Sampler2DType, Sampler2D)
    case Vec2ArrayGlobal => (Vec2Type, ShaderArray([], 0))
    case FloatArrayGlobal => (FloatType, ShaderArray([], 0))
  }

  /** The type tag and the blank class fields of a fresh local of each kind. */
  function LocalShape(k: LocalKind): (ValueType, VarKind)
  {
    match k
    case FloatLocal => (FloatType, GFloat(None))
    case Vec2Local => (Vec2Type, Vec2(None, None, None, None))
    case Vec4Local => (Vec4Type, Vec4(None))
    case IntLocal => (IntType, GInt(None))
  }

  /** Whether the `as!` cast of a found local to the requested class succeeds. */
  predicate IsOfKind(k: LocalKind, v: VarKind)
  {
    match k
    case FloatLocal => v.GFloat?
    case Vec2Local => v.Vec2?
    case Vec4Local => v.Vec4?
    case IntLocal => v.GInt?
  }

  lemma LocalShapeIsOfKind(k: LocalKind)
    ensures IsOfKind(k, LocalShape(k).1)
  {
  }

  /** A constant: what `gint(_:)`, `gfloat(_:)`, `vec2(...)`, `vec4(_:)` and the
      array initialisers build. */
  predicate IsConstant(v: Var)
  {
    v.name.None? && v.qualifier == NoQualifier && !v.inShader && v.func.None?
  }

  // ---------------------------------------------------------------------
  // The shader invariant, on values

  /** An object's back-reference and its element ids point into the arenas. */
  predicate ScopeFits(v: Var, varCount: nat, functionCount: nat)
  {
    (v.func.Some? ==> v.func.value < functionCount)
    && (v.kind.ShaderArray? ==> IdsIn(v.kind.elements, varCount))
  }

  /** A new object's vec2 references point at existing objects. */
  predicate ReferencesBelow(v: Var, varCount: nat)
  {
    v.kind.Vec2? ==>
      (v.kind.xReference.Some? ==> v.kind.xReference.value < varCount) &&
      (v.kind.yReference.Some? ==> v.kind.yReference.value < varCount)
  }

  ghost predicate LocalsIn(fs: seq<Function>, varCount: nat)
  {
    forall f :: 0 <= f < |fs| ==> IdsIn(fs[f].locals, varCount)
  }

  /** What holds of a shader between builder calls:
      - the arenas are well formed and every id points into them;
      - the globals are the registrations, deduplicated by name in first-seen order;
      - a function's locals have distinct names;
      - every first assignment has consumed its flag, once per variable. */
  ghost predicate Consistent(vars: seq<Var>, nodes: seq<Node>, globals: seq<nat>, functions: seq<Function>,
                             current: Option<nat>, registrations: seq<Option<string>>)
  {
    Arena(vars, nodes) && ScopesFit(vars, |functions|)
    && IdsIn(globals, |vars|) && FunctionsIn(functions, |nodes|) && LocalsIn(functions, |vars|)
    && (current.Some? ==> current.value < |functions|)
    && GlobalsDeduplicated(vars, globals, registrations)
    && LocalsDistinct(vars, functions)
    && FirstAssignmentsConsumed(vars, nodes) && AtMostOneFirstAssignment(nodes)
  }

  ghost predicate ScopesFit(vars: seq<Var>, functionCount: nat)
  {
    forall i :: 0 <= i < |vars| ==> ScopeFits(vars[i], |vars|, functionCount)
  }

  ghost predicate GlobalsDeduplicated(vars: seq<Var>, globals: seq<nat>, registrations: seq<Option<string>>)
    requires IdsIn(globals, |vars|)
  {
    Names(vars, globals) == Dedup(registrations)
  }

  ghost predicate LocalsDistinct(vars: seq<Var>, functions: seq<Function>)
    requires LocalsIn(functions, |vars|)
  {
    forall f :: 0 <= f < |functions| ==> Distinct(Names(vars, functions[f].locals))
  }

  lemma IdsGrow(ids: seq<nat>, vars: seq<Var>, vars': seq<Var>)
    requires IdsIn(ids, |vars|) && |vars| <= |vars'|
    requires forall i :: 0 <= i < |vars| ==> vars'[i].name == vars[i].name
    ensures IdsIn(ids, |vars'|) && Names(vars', ids) == Names(vars, ids)
  {
    NamesStable(vars, vars', ids);
  }

  /** Adding an object to the arena keeps the shader consistent. */
  lemma AllocateKeeps(vars: seq<Var>, nodes: seq<Node>, globals: seq<nat>, functions: seq<Function>,
                      current: Option<nat>, registrations: seq<Option<string>>, v: Var)
    requires Consistent(vars, nodes, globals, functions, current, registrations)
    requires ReferencesBelow(v, |vars|) && ScopeFits(v, |vars|, |functions|)
    ensures Consistent(vars + [v], nodes, globals, functions, current, registrations)
  {
    var vars' := vars + [v];
    forall i | 0 <= i < |vars| ensures vars'[i].name == vars[i].name { }
    IdsGrow(globals, vars, vars');
    forall f | 0 <= f < |functions|
      ensures IdsIn(functions[f].locals, |vars'|) && Distinct(Names(vars', functions[f].locals))
    {
      IdsGrow(functions[f].locals, vars, vars');
    }
    forall i | 0 <= i < |vars'| ensures ScopeFits(vars'[i], |vars'|, |functions|) {
      if i < |vars| { assert vars'[i] == vars[i]; }
    }
    forall i | 0 <= i < |nodes| && nodes[i].lhsFirstAssignment
      ensures !vars'[nodes[i].lhs.id].needsDeclarationForAssignment
    {
      assert vars'[nodes[i].lhs.id] == vars[nodes[i].lhs.id];
    }
  }

  /** Appending a constructed statement keeps the shader consistent. */
  lemma ConstructKeeps(vars: seq<Var>, nodes: seq<Node>, globals: seq<nat>, functions: seq<Function>,
                       current: Option<nat>, registrations: seq<Option<string>>,
                       k: StatementType, lhs: Operand, rhs: Operand)
    requires Consistent(vars, nodes, globals, functions, current, registrations)
    requires OperandFits(lhs, |vars|, |nodes|) && OperandFits(rhs, |vars|, |nodes|)
    requires Construct(vars, k, lhs, rhs).Success?
    ensures Consistent(Construct(vars, k, lhs, rhs).value.0, nodes + [Construct(vars, k, lhs, rhs).value.1],
                       globals, functions, current, registrations)
  {
    var (vars', n) := Construct(vars, k, lhs, rhs).value;
    ConstructExtends(vars, nodes, k, lhs, rhs);
    ConstructKeepsDeclarationsUnique(vars, nodes, k, lhs, rhs);
    forall i | 0 <= i < |vars| ensures vars'[i].name == vars[i].name && ScopeFits(vars'[i], |vars'|, |functions|) {
      assert SameButFirstAssignmentFlag(vars[i], vars'[i]);
    }
    IdsGrow(globals, vars, vars');
    forall f | 0 <= f < |functions|
      ensures IdsIn(functions[f].locals, |vars'|) && Distinct(Names(vars', functions[f].locals))
              && IdsIn(functions[f].statements, |nodes + [n]|)
    {
      IdsGrow(functions[f].locals, vars, vars');
    }
  }

  /** Offering a global keeps the shader consistent: the deduplicated list grows
      exactly when the name is new. */
  lemma AddGlobalKeeps(vars: seq<Var>, nodes: seq<Node>, globals: seq<nat>, functions: seq<Function>,
                       current: Option<nat>, registrations: seq<Option<string>>, v: nat)
    requires Consistent(vars, nodes, globals, functions, current, registrations) && v < |vars|
    ensures vars[v].name in Names(vars, globals) ==>
              Consistent(vars, nodes, globals, functions, current, registrations + [vars[v].name])
    ensures vars[v].name !in Names(vars, globals) ==>
              Consistent(vars, nodes, globals + [v], functions, current, registrations + [vars[v].name])
  {
    var rs := registrations + [vars[v].name];
    DeduplicatedSnoc(vars, globals, registrations, v);
    if vars[v].name in Names(vars, globals) {
      GlobalsReplaced(vars, nodes, globals, functions, current, registrations, globals, rs);
    } else {
      GlobalsReplaced(vars, nodes, globals, functions, current, registrations, globals + [v], rs);
    }
  }

  /** One more registration keeps the globals deduplicated, with the object
      appended exactly when its name is new. */
  lemma DeduplicatedSnoc(vars: seq<Var>, globals: seq<nat>, registrations: seq<Option<string>>, v: nat)
    requires IdsIn(globals, |vars|) && v < |vars| && GlobalsDeduplicated(vars, globals, registrations)
    ensures IdsIn(globals + [v], |vars|)
    ensures vars[v].name in Names(vars, globals) ==>
              GlobalsDeduplicated(vars, globals, registrations + [vars[v].name])
    ensures vars[v].name !in Names(vars, globals) ==>
              GlobalsDeduplicated(vars, globals + [v], registrations + [vars[v].name])
  {
    DedupSnoc(registrations, vars[v].name);
    NamesAppend(vars, globals, v);
  }

  /** Consistency does not look at the globals beyond their deduplication. */
  lemma GlobalsReplaced(vars: seq<Var>, nodes: seq<Node>, globals: seq<nat>, functions: seq<Function>,
                        current: Option<nat>, registrations: seq<Option<string>>,
                        globals': seq<nat>, registrations': seq<Option<string>>)
    requires Consistent(vars, nodes, globals, functions, current, registrations)
    requires IdsIn(globals', |vars|) && GlobalsDeduplicated(vars, globals', registrations')
    ensures Consistent(vars, nodes, globals', functions, current, registrations')
  {
  }

  /** Appending a newly named object to a function's locals keeps the shader
      consistent, and looking the name up then finds that object. */
  lemma AddLocalKeeps(vars: seq<Var>, nodes: seq<Node>, globals: seq<nat>, functions: seq<Function>,
                      current: Option<nat>, registrations: seq<Option<string>>, f: nat, id: nat)
    requires Consistent(vars, nodes, globals, functions, current, registrations)
    requires f < |functions| && id < |vars| && vars[id].name.Some?
    requires vars[id].name !in Names(vars, functions[f].locals)
    ensures Consistent(vars, nodes, globals, functions[f := functions[f].(locals := functions[f].locals + [id])],
                       current, registrations)
    ensures FirstNamed(vars, functions[f].locals + [id], vars[id].name.value) == Some(id)
  {
    var ls := functions[f].locals;
    var fs := functions[f := functions[f].(locals := ls + [id])];
    NamesAppend(vars, ls, id);
    assert IdsIn(ls + [id], |vars|);
    FirstNamedFindsUnique(vars, ls + [id], |ls|);
    forall g | 0 <= g < |fs| ensures IdsIn(fs[g].locals, |vars|) && Distinct(Names(vars, fs[g].locals))
                               && IdsIn(fs[g].statements, |nodes|) { }
  }

  /** Appending a statement id to a function keeps the shader consistent. */
  lemma AppendStatementKeeps(vars: seq<Var>, nodes: seq<Node>, globals: seq<nat>, functions: seq<Function>,
                             current: Option<nat>, registrations: seq<Option<string>>, f: nat, s: nat)
    requires Consistent(vars, nodes, globals, functions, current, registrations)
    requires f < |functions| && s < |nodes|
    ensures Consistent(vars, nodes, globals, AppendStatement(functions, f, s), current, registrations)
  {
    var fs := AppendStatement(functions, f, s);
    forall g | 0 <= g < |fs| ensures IdsIn(fs[g].statements, |nodes|) {
      if g == f {
        var ss := fs[g].statements;
        assert ss == functions[f].statements + [s];
        forall k | 0 <= k < |ss| ensures ss[k] < |nodes| {
          if k < |functions[f].statements| { assert ss[k] == functions[f].statements[k]; }
        }
      }
    }
  }

  // ---------------------------------------------------------------------

  /** A `Shader`. `gles` stands for the `GLES` compile-time flag. `registrations`
      records every name passed to `add(global:)`, so the deduplication can be stated. */
  class Shader {
    var precision: Precision
    const gles: bool
    var vars: seq<Var>
    var nodes: seq<Node>
    var globals: seq<nat>
    var functions: seq<Function>
    var currentFunction: Option<nat>
    ghost var registrations: seq<Option<string>>

    ghost predicate Valid()
      reads this
    {
      Consistent(vars, nodes, globals, functions, currentFunction, registrations)
    }

    /** `init(precision:)`, whose precision defaults to low: no globals, no
        functions, no current function. */
    constructor (gles: bool, precision: Precision := Low)
      ensures Valid()
      ensures this.precision == precision && this.gles == gles
      ensures vars == [] && nodes == [] && globals == [] && functions == [] && currentFunction.None?
      ensures registrations == []
    {
      this.precision := precision;
      this.gles := gles;
      vars := [];
      nodes := [];
      globals := [];
      functions := [];
      currentFunction := None;
      registrations := [];
    }

    /** The shader's `precision` field, which the emitter never reads. */
    method SetPrecision(p: Precision)
      modifies this
      ensures precision == p
      ensures vars == old(vars) && nodes == old(nodes) && globals == old(globals)
      ensures functions == old(functions) && currentFunction == old(currentFunction)
      ensures registrations == old(registrations)
    {
      precision := p;
    }

    // -------------------------------------------------------------------
    // Functions

    /** The first half of `makeFunction(named:closure:)`: a new function at the end
        of `functions` becomes the current function. The builder calls between this
        and `EndFunction` are the closure's body. */
    method BeginFunction(name: string) returns (f: nat)
      requires Valid()
      modifies this
      ensures Valid()
      ensures f == |old(functions)| && functions == old(functions) + [Function(name, [], [])]
      ensures currentFunction == Some(f)
      ensures vars == old(vars) && nodes == old(nodes) && globals == old(globals)
      ensures registrations == old(registrations)
    {
      ghost var fs := functions + [Function(name, [], [])];
      forall i | 0 <= i < |vars| ensures ScopeFits(vars[i], |vars|, |fs|) {
        assert ScopeFits(vars[i], |vars|, |functions|);
      }
      f := |functions|;
      functions := functions + [Function(name, [], [])];
      currentFunction := Some(f);
      assert forall g :: 0 <= g < |functions| - 1 ==> functions[g] == old(functions)[g];
    }

    /** The second half of `makeFunction`: no current function afterwards. */
    method EndFunction()
      requires Valid()
      modifies this
      ensures Valid()
      ensures currentFunction.None?
      ensures vars == old(vars) && nodes == old(nodes) && globals == old(globals) && functions == old(functions)
      ensures registrations == old(registrations)
    {
      currentFunction := None;
    }

    /** `Function.addStatement`: the statement goes at the end of that function's list. */
    method FunctionAddStatement(f: nat, s: nat)
      requires Valid() && f < |functions| && s < |nodes|
      modifies this
      ensures Valid()
      ensures functions == AppendStatement(old(functions), f, s)
      ensures vars == old(vars) && nodes == old(nodes) && globals == old(globals)
      ensures currentFunction == old(currentFunction) && registrations == old(registrations)
    {
      AppendStatementKeeps(vars, nodes, globals, functions, currentFunction, registrations, f, s);
      functions := AppendStatement(functions, f, s);
    }

    /** `Shader.addStatement`: to the current function, or nowhere when there is none. */
    method AddStatement(s: nat)
      requires Valid() && s < |nodes|
      modifies this
      ensures Valid()
      ensures old(currentFunction).None? ==> functions == old(functions)
      ensures old(currentFunction).Some? ==> functions == AppendStatement(old(functions), old(currentFunction).value, s)
      ensures vars == old(vars) && nodes == old(nodes) && globals == old(globals)
      ensures currentFunction == old(currentFunction) && registrations == old(registrations)
    {
      if currentFunction.Some? {
        FunctionAddStatement(currentFunction.value, s);
      }
    }

    // -------------------------------------------------------------------
    // Objects

    /** Puts a new object in the arena; its id is the old arena size. */
    method Allocate(v: Var) returns (id: nat)
      requires Valid() && ReferencesBelow(v, |vars|) && ScopeFits(v, |vars|, |functions|)
      modifies this
      ensures Valid()
      ensures id == |old(vars)| && vars == old(vars) + [v]
      ensures nodes == old(nodes) && globals == old(globals) && functions == old(functions)
      ensures currentFunction == old(currentFunction) && registrations == old(registrations)
    {
      AllocateKeeps(vars, nodes, globals, functions, currentFunction, registrations, v);
      id := |vars|;
      vars := vars + [v];
    }

    /** A constant built by one of the value initialisers (`gint(3)`, `gfloat(0.5)`,
        `vec2(x, y)`, `vec4(1.0)`, `ShaderArray(elements:)`, an array literal). */
    method AddConstant(v: Var) returns (id: nat)
      requires Valid() && IsConstant(v) && ReferencesBelow(v, |vars|) && ScopeFits(v, |vars|, |functions|)
      modifies this
      ensures Valid()
      ensures id == |old(vars)| && vars == old(vars) + [v]
      ensures nodes == old(nodes) && globals == old(globals) && functions == old(functions)
      ensures currentFunction == old(currentFunction) && registrations == old(registrations)
    {
      id := Allocate(v);
    }

    /** `Variable.precision` of one object, which only the embedded profile renders. */
    method SetVariablePrecision(v: nat, p: Option<Precision>)
      requires Valid() && v < |vars|
      modifies this
      ensures Valid()
      ensures vars == old(vars)[v := old(vars)[v].(precision := p)]
      ensures nodes == old(nodes) && globals == old(globals) && functions == old(functions)
      ensures currentFunction == old(currentFunction) && registrations == old(registrations)
    {
      var vars' := vars[v := vars[v].(precision := p)];
      forall i | 0 <= i < |vars| ensures vars'[i].name == vars[i].name { }
      IdsGrow(globals, vars, vars');
      forall f | 0 <= f < |functions|
        ensures IdsIn(functions[f].locals, |vars'|) && Distinct(Names(vars', functions[f].locals))
      {
        IdsGrow(functions[f].locals, vars, vars');
      }
      vars := vars';
    }

    // -------------------------------------------------------------------
    // Globals

    /** `add(global:)`: appended only when no registered global has the same name. */
    method AddGlobal(v: nat)
      requires Valid() && v < |vars|
      modifies this
      ensures vars == old(vars) && nodes == old(nodes) && functions == old(functions)
      ensures currentFunction == old(currentFunction)
      ensures Valid()
      ensures vars[v].name in Names(vars, old(globals)) ==> globals == old(globals)
      ensures vars[v].name !in Names(vars, old(globals)) ==> globals == old(globals) + [v]
      ensures registrations == old(registrations) + [vars[v].name]
      ensures Distinct(Names(vars, globals))
    {
      var name := vars[v].name;
      var gs := if name in Names(vars, globals) then globals else globals + [v];
      ghost var rs := registrations + [name];
      AddGlobalKeeps(vars, nodes, globals, functions, currentFunction, registrations, v);
      assert Names(vars, gs) == Dedup(rs);
      globals := gs;
      registrations := rs;
    }

    /** A `GlobalVariableContainer` subscript: a fresh global object with the
        container's qualifier, offered to `add(global:)`. The object is returned
        whether or not it was registered. */
    method GlobalVariable(q: Qualifier, name: string, k: GlobalKind) returns (r: Result<nat, Fault>)
      requires Valid()
      modifies this
      ensures Valid()
      ensures r.Failure? <==> q == NoQualifier
      ensures r.Failure? ==> r.error == GlobalWithoutQualifier && vars == old(vars) && globals == old(globals)
                             && registrations == old(registrations)
      ensures r.Success? ==> r.value == |old(vars)|
                             && vars == old(vars) + [GlobalInit(name, GlobalShape(k).0, q, GlobalShape(k).1).value]
      ensures r.Success? && Some(name) in Names(old(vars), old(globals)) ==> globals == old(globals)
      ensures r.Success? && Some(name) !in Names(old(vars), old(globals)) ==> globals == old(globals) + [r.value]
      ensures r.Success? ==> registrations == old(registrations) + [Some(name)]
      ensures nodes == old(nodes) && functions == old(functions) && currentFunction == old(currentFunction)
    {
      var (t, kind) := GlobalShape(k);
      var g := GlobalInit(name, t, q, kind);
      if g.Failure? {
        return Failure(g.error);
      }
      var id := Allocate(g.value);
      NamesStable(old(vars), vars, globals);
      AddGlobal(id);
      r := Success(id);
    }

    // -------------------------------------------------------------------
    // Locals

    /** A `FunctionVariablesContainer` subscript: the first local of function f with
        that name, when there is one (a fault when it is of another class);
        otherwise a new local of the requested kind, appended to the list. */
    method LocalVariable(f: nat, name: string, k: LocalKind) returns (r: Result<nat, Fault>)
      requires Valid() && f < |functions|
      modifies this
      ensures nodes == old(nodes) && globals == old(globals)
      ensures currentFunction == old(currentFunction) && registrations == old(registrations)
      ensures |vars| >= |old(vars)| && |functions| == |old(functions)|
      ensures Valid()
      ensures FirstNamed(old(vars), old(functions)[f].locals, name).Some? ==>
                vars == old(vars) && functions == old(functions)
                && var e := FirstNamed(old(vars), old(functions)[f].locals, name).value;
                   r == if IsOfKind(k, vars[e].kind) then Success(e) else Failure(WrongKind)
      ensures FirstNamed(old(vars), old(functions)[f].locals, name).None? ==>
                r == Success(|old(vars)|)
                && vars == old(vars) + [LocalInit(name, LocalShape(k).0, f, LocalShape(k).1)]
                && functions == old(functions)[f := old(functions)[f].(locals := old(functions)[f].locals + [r.value])]
      ensures r.Success? ==> r.value < |vars| && vars[r.value].name == Some(name) && IsOfKind(k, vars[r.value].kind)
      ensures r.Success? ==> FirstNamed(vars, functions[f].locals, name) == Some(r.value)
    {
      var existing := FirstNamed(vars, functions[f].locals, name);
      if existing.Some? {
        FirstNamedHasName(vars, functions[f].locals, name);
        var e := existing.value;
        if IsOfKind(k, vars[e].kind) {
          r := Success(e);
        } else {
          r := Failure(WrongKind);
        }
        return;
      }
      var (t, kind) := LocalShape(k);
      var v := LocalInit(name, t, f, kind);
      var id := Allocate(v);
      var ls := functions[f].locals;
      NamesStable(old(vars), vars, ls);
      AddLocalKeeps(vars, nodes, globals, functions, currentFunction, registrations, f, id);
      functions := functions[f := functions[f].(locals := ls + [id])];
      r := Success(id);
    }

    // -------------------------------------------------------------------
    // Statements

    /** `Statement.init`: the new statement object goes in the arena; an assignment
        consumes its left variable's first-assignment flag. Nothing is registered. */
    method NewStatement(k: StatementType, lhs: Operand, rhs: Operand) returns (r: Result<nat, Fault>)
      requires Valid() && OperandFits(lhs, |vars|, |nodes|) && OperandFits(rhs, |vars|, |nodes|)
      modifies this
      ensures Valid()
      ensures r.Failure? <==> k == Assignment && !Assignable(lhs)
      ensures r.Failure? ==> r.error == NotAssignable && vars == old(vars) && nodes == old(nodes)
      ensures r.Success? ==> r.value == |old(nodes)|
                             && vars == Construct(old(vars), k, lhs, rhs).value.0
                             && nodes == old(nodes) + [Construct(old(vars), k, lhs, rhs).value.1]
      ensures globals == old(globals) && functions == old(functions)
      ensures currentFunction == old(currentFunction) && registrations == old(registrations)
    {
      var c := Construct(vars, k, lhs, rhs);
      if c.Failure? {
        return Failure(c.error);
      }
      ConstructKeeps(vars, nodes, globals, functions, currentFunction, registrations, k, lhs, rhs);
      vars, nodes := c.value.0, nodes + [c.value.1];
      r := Success(|nodes| - 1);
    }

    /** The registration rule shared by `==` and `+=`: into the left variable's own
        function when it has one, otherwise into the shader's current function when
        the variable belongs to the shader; a fault when it belongs to neither. */
    method Register(lhs: nat, s: nat) returns (r: Result<nat, Fault>)
      requires Valid() && lhs < |vars| && s < |nodes|
      modifies this
      ensures vars == old(vars) && nodes == old(nodes) && globals == old(globals)
      ensures currentFunction == old(currentFunction) && registrations == old(registrations)
      ensures Valid()
      ensures r.Failure? <==> vars[lhs].func.None? && !vars[lhs].inShader
      ensures r.Failure? ==> r.error == OrphanedStatement && functions == old(functions)
      ensures r.Success? ==> r.value == s
      ensures vars[lhs].func.Some? ==> functions == AppendStatement(old(functions), vars[lhs].func.value, s)
      ensures vars[lhs].func.None? && vars[lhs].inShader && currentFunction.Some? ==>
                functions == AppendStatement(old(functions), currentFunction.value, s)
      ensures vars[lhs].func.None? && currentFunction.None? ==> functions == old(functions)
    {
      if vars[lhs].func.Some? {
        assert ScopeFits(vars[lhs], |vars|, |functions|);
        FunctionAddStatement(vars[lhs].func.value, s);
        return Success(s);
      }
      if !vars[lhs].inShader {
        return Failure(OrphanedStatement);
      }
      AddStatement(s);
      r := Success(s);
    }

    /** `lhs == rhs`: build the assignment (consuming the first-assignment flag),
        then register it. A statement on the left is a fault, and so is a variable
        with neither function nor shader. */
    method Assign(lhs: Operand, rhs: Operand) returns (r: Result<nat, Fault>)
      requires Valid() && OperandFits(lhs, |vars|, |nodes|) && OperandFits(rhs, |vars|, |nodes|)
      modifies this
      ensures globals == old(globals) && currentFunction == old(currentFunction)
      ensures registrations == old(registrations)
      ensures Valid()
      ensures !Assignable(lhs) ==> r == Failure(NotAssignable)
      ensures Assignable(lhs) ==> (r.Failure? <==> old(vars)[lhs.id].func.None? && !old(vars)[lhs.id].inShader)
      ensures r.Failure? ==> vars == old(vars) && nodes == old(nodes) && functions == old(functions)
      ensures r.Success? ==> r.value == |old(nodes)|
                             && vars == Construct(old(vars), Assignment, lhs, rhs).value.0
                             && nodes == old(nodes) + [Construct(old(vars), Assignment, lhs, rhs).value.1]
      ensures r.Success? && old(vars)[lhs.id].func.Some? ==>
                functions == AppendStatement(old(functions), old(vars)[lhs.id].func.value, r.value)
      ensures r.Success? && old(vars)[lhs.id].func.None? && old(currentFunction).Some? ==>
                functions == AppendStatement(old(functions), old(currentFunction).value, r.value)
      ensures r.Success? && old(vars)[lhs.id].func.None? && old(currentFunction).None? ==> functions == old(functions)
    {
      if !Assignable(lhs) {
        return Failure(NotAssignable);
      }
      if vars[lhs.id].func.None? && !vars[lhs.id].inShader {
        return Failure(OrphanedStatement);
      }
      var s := NewStatement(Assignment, lhs, rhs);
      assert SameButFirstAssignmentFlag(old(vars)[lhs.id], vars[lhs.id]);
      r := Register(lhs.id, s.value);
    }

    /** `vec4 += statement`: an `addAndAssign` statement, registered by the same rule;
        its left variable's first-assignment flag is left alone. */
    method AddAssign(lhs: nat, rhs: nat) returns (r: Result<nat, Fault>)
      requires Valid() && lhs < |vars| && vars[lhs].kind.Vec4? && rhs < |nodes|
      modifies this
      ensures vars == old(vars) && globals == old(globals) && currentFunction == old(currentFunction)
      ensures registrations == old(registrations)
      ensures Valid()
      ensures r.Failure? <==> vars[lhs].func.None? && !vars[lhs].inShader
      ensures r.Failure? ==> r.error == OrphanedStatement && nodes == old(nodes) && functions == old(functions)
      ensures r.Success? ==> r.value == |old(nodes)|
                             && nodes == old(nodes) + [Node(AddAndAssign, OfVar(lhs), OfStatement(rhs), false)]
      ensures r.Success? && vars[lhs].func.Some? ==>
                functions == AppendStatement(old(functions), vars[lhs].func.value, r.value)
      ensures r.Success? && vars[lhs].func.None? && currentFunction.Some? ==>
                functions == AppendStatement(old(functions), currentFunction.value, r.value)
      ensures r.Success? && vars[lhs].func.None? && currentFunction.None? ==> functions == old(functions)
    {
      if vars[lhs].func.None? && !vars[lhs].inShader {
        return Failure(OrphanedStatement);
      }
      var s := NewStatement(AddAndAssign, OfVar(lhs), OfStatement(rhs));
      r := Register(lhs, s.value);
    }

    /** `gint == Int`: exactly `lhs == gint(value: n)`; the right side renders as
        the decimal text of n. An orphaned left side is a fault before anything
        is created, so a failure leaves the shader unchanged. */
    method AssignInt(lhs: nat, n: int) returns (r: Result<nat, Fault>)
      requires Valid() && lhs < |vars| && vars[lhs].kind.GInt?
      modifies this
      ensures globals == old(globals) && currentFunction == old(currentFunction)
      ensures registrations == old(registrations)
      ensures Valid()
      ensures r.Failure? <==> old(vars)[lhs].func.None? && !old(vars)[lhs].inShader
      ensures r.Failure? ==> r.error == OrphanedStatement
                             && vars == old(vars) && nodes == old(nodes) && functions == old(functions)
      ensures r.Success? ==> r.value == |old(nodes)|
                             && vars == Construct(old(vars) + [IntConstant(n)], Assignment,
                                                  OfVar(lhs), OfVar(|old(vars)|)).value.0
                             && nodes == old(nodes) + [Node(Assignment, OfVar(lhs), OfVar(|old(vars)|),
                                                            old(vars)[lhs].needsDeclarationForAssignment)]
      ensures r.Success? && old(vars)[lhs].func.Some? ==>
                functions == AppendStatement(old(functions), old(vars)[lhs].func.value, r.value)
      ensures r.Success? && old(vars)[lhs].func.None? && old(currentFunction).Some? ==>
                functions == AppendStatement(old(functions), old(currentFunction).value, r.value)
      ensures r.Success? && old(vars)[lhs].func.None? && old(currentFunction).None? ==> functions == old(functions)
      ensures r.Success? ==> |vars| == |old(vars)| + 1 && vars[|old(vars)|] == IntConstant(n)
      ensures r.Success? ==> OperandReference(vars, nodes, gles, OfVar(|old(vars)|)) == Success(IntText(n))
      ensures r.Success? ==>
                Statements.Description(vars, nodes, gles, r.value)
                == Infix(if old(vars)[lhs].needsDeclarationForAssignment
                            && !old(vars)[lhs].needsDeclarationBeforeAssignment
                         then DeclarationReference(old(vars)[lhs], gles)
                         else VarReference(old(vars), lhs),
                         "=", Success(IntText(n)))
    {
      if vars[lhs].func.None? && !vars[lhs].inShader {
        return Failure(OrphanedStatement);
      }
      var c := AddConstant(IntConstant(n));
      ghost var before := vars;
      assert before == old(vars) + [IntConstant(n)];
      r := Assign(OfVar(lhs), OfVar(c));
      IntAssignmentRenders(old(vars), old(nodes), gles, lhs, n, vars, nodes[r.value]);
      assert nodes == old(nodes) + [nodes[r.value]];
      assert vars == Construct(before, Assignment, OfVar(lhs), OfVar(c)).value.0;
      assert vars[c] == before[c] == IntConstant(n);
      assert VarValue(vars, c) == Success(IntText(n));
    }

    /** `vec2 * gfloat`, a new statement that is not registered. */
    method Multiply(lhs: nat, rhs: nat) returns (s: nat)
      requires Valid() && lhs < |vars| && vars[lhs].kind.Vec2? && rhs < |vars| && vars[rhs].kind.GFloat?
      modifies this
      ensures Valid()
      ensures s == |old(nodes)| && nodes == old(nodes) + [Node(Multiplication, OfVar(lhs), OfVar(rhs), false)]
      ensures vars == old(vars) && globals == old(globals) && functions == old(functions)
      ensures currentFunction == old(currentFunction) && registrations == old(registrations)
    {
      var r := NewStatement(Multiplication, OfVar(lhs), OfVar(rhs));
      s := r.value;
    }

    /** `vec2 - statement`, a new statement that is not registered. */
    method Subtract(lhs: nat, rhs: nat) returns (s: nat)
      requires Valid() && lhs < |vars| && vars[lhs].kind.Vec2? && rhs < |nodes|
      modifies this
      ensures Valid()
      ensures s == |old(nodes)| && nodes == old(nodes) + [Node(Subtraction, OfVar(lhs), OfStatement(rhs), false)]
      ensures vars == old(vars) && globals == old(globals) && functions == old(functions)
      ensures currentFunction == old(currentFunction) && registrations == old(registrations)
    {
      var r := NewStatement(Subtraction, OfVar(lhs), OfStatement(rhs));
      s := r.value;
    }

    /** `vec2 + statement`, a new statement that is not registered. */
    method Add(lhs: nat, rhs: nat) returns (s: nat)
      requires Valid() && lhs < |vars| && vars[lhs].kind.Vec2? && rhs < |nodes|
      modifies this
      ensures Valid()
      ensures s == |old(nodes)| && nodes == old(nodes) + [Node(Addition, OfVar(lhs), OfStatement(rhs), false)]
      ensures vars == old(vars) && globals == old(globals) && functions == old(functions)
      ensures currentFunction == old(currentFunction) && registrations == old(registrations)
    {
      var r := NewStatement(Addition, OfVar(lhs), OfStatement(rhs));
      s := r.value;
    }

    /** `vec2 * Double`: the number becomes a `gfloat` constant first. */
    method MultiplyByNumber(lhs: nat, d: FloatLit) returns (s: nat)
      requires Valid() && lhs < |vars| && vars[lhs].kind.Vec2?
      modifies this
      ensures Valid()
      ensures vars == old(vars) + [FloatConstant(d)]
      ensures s == |old(nodes)| && nodes == old(nodes) + [Node(Multiplication, OfVar(lhs), OfVar(|old(vars)|), false)]
      ensures globals == old(globals) && functions == old(functions)
      ensures currentFunction == old(currentFunction) && registrations == old(registrations)
    {
      var c := AddConstant(FloatConstant(d));
      var r := NewStatement(Multiplication, OfVar(lhs), OfVar(c));
      s := r.value;
    }

    /** `statement * Double`: the number becomes a `gfloat` constant first. */
    method MultiplyStatementByNumber(lhs: nat, d: FloatLit) returns (s: nat)
      requires Valid() && lhs < |nodes|
      modifies this
      ensures Valid()
      ensures vars == old(vars) + [FloatConstant(d)]
      ensures s == |old(nodes)| && nodes == old(nodes) + [Node(Multiplication, OfStatement(lhs), OfVar(|old(vars)|), false)]
      ensures globals == old(globals) && functions == old(functions)
      ensures currentFunction == old(currentFunction) && registrations == old(registrations)
    {
      var c := AddConstant(FloatConstant(d));
      var r := NewStatement(Multiplication, OfStatement(lhs), OfVar(c));
      s := r.value;
    }

    /** `texture2D(sampler, coordinates)`, a new statement that is not registered. */
    method Texture2DCall(sampler: nat, coordinates: Operand) returns (s: nat)
      requires Valid() && sampler < |vars| && vars[sampler].kind.Sampler2D?
      requires OperandFits(coordinates, |vars|, |nodes|)
      modifies this
      ensures Valid()
      ensures s == |old(nodes)| && nodes == old(nodes) + [Node(Texture2D, OfVar(sampler), coordinates, false)]
      ensures vars == old(vars) && globals == old(globals) && functions == old(functions)
      ensures currentFunction == old(currentFunction) && registrations == old(registrations)
    {
      var r := NewStatement(Texture2D, OfVar(sampler), coordinates);
      s := r.value;
    }

    /** `vec2(x, y)` from two gfloat objects, which it keeps by reference. */
    method Vec2FromFloats(x: nat, y: nat) returns (id: nat)
      requires Valid() && x < |vars| && vars[x].kind.GFloat? && y < |vars| && vars[y].kind.GFloat?
      modifies this
      ensures Valid()
      ensures id == |old(vars)| && vars == old(vars) + [Vec2Pair(x, y)]
      ensures nodes == old(nodes) && globals == old(globals) && functions == old(functions)
      ensures currentFunction == old(currentFunction) && registrations == old(registrations)
    {
      id := AddConstant(Vec2Pair(x, y));
    }

    /** `vec4.xy`: a new vec2 object named `<referenceValue>.xy`, with the vec4's
        type tag, function, qualifier and shader. Nothing is registered. */
    method Vec4XY(v: nat) returns (r: Result<nat, Fault>)
      requires Valid() && v < |vars| && vars[v].kind.Vec4?
      modifies this
      ensures Valid()
      ensures VarReference(old(vars), v).Failure? ==> r == Failure(VarReference(old(vars), v).error)
      ensures VarReference(old(vars), v).Success? ==>
                var s := ScopedInit(VarReference(old(vars), v).value + ".xy", old(vars)[v].vtype, old(vars)[v].func,
                                    old(vars)[v].qualifier, old(vars)[v].inShader, Vec2(None, None, None, None));
                (s.Failure? ==> r == Failure(s.error) && vars == old(vars))
                && (s.Success? ==> r == Success(|old(vars)|) && vars == old(vars) + [s.value])
      ensures r.Failure? ==> vars == old(vars)
      ensures nodes == old(nodes) && globals == old(globals) && functions == old(functions)
      ensures currentFunction == old(currentFunction) && registrations == old(registrations)
    {
      var name := VarReference(vars, v);
      if name.Failure? {
        return Failure(name.error);
      }
      var s := ScopedInit(name.value + ".xy", vars[v].vtype, vars[v].func, vars[v].qualifier, vars[v].inShader,
                          Vec2(None, None, None, None));
      if s.Failure? {
        return Failure(s.error);
      }
      assert ScopeFits(vars[v], |vars|, |functions|);
      var id := Allocate(s.value);
      r := Success(id);
    }

    // -------------------------------------------------------------------
    // ShaderArray

    /** The array's stored `count`, the number its declaration reference shows. */
    function Count(a: nat): (n: int)
      reads this
      requires a < |vars| && vars[a].kind.ShaderArray?
      ensures vars[a].name.Some? ==>
                DeclarationReference(vars[a], gles)
                == Success(Join(PrecisionWords(vars[a], gles)
                                + [TypeText(vars[a].vtype), vars[a].name.value + "[" + IntText(n) + "]"], ' '))
    {
      vars[a].kind.count
    }

    /** `startIndex` and `endIndex` follow the element list. */
    function Indices(a: nat): (r: (int, int))
      reads this
      requires a < |vars| && vars[a].kind.ShaderArray?
      ensures r.0 == 0 && r.1 == |vars[a].kind.elements| && r.0 <= r.1
    {
      (0, |vars[a].kind.elements|)
    }

    /** The `count` setter: stores the number and changes nothing else. */
    method SetCount(a: nat, n: int)
      requires Valid() && a < |vars| && vars[a].kind.ShaderArray?
      modifies this
      ensures Valid()
      ensures vars == old(vars)[a := old(vars)[a].(kind := ShaderArray(old(vars)[a].kind.elements, n))]
      ensures Count(a) == n && Indices(a) == old(Indices(a))
      ensures nodes == old(nodes) && globals == old(globals) && functions == old(functions)
      ensures currentFunction == old(currentFunction) && registrations == old(registrations)
    {
      ReplaceKind(a, ShaderArray(vars[a].kind.elements, n));
    }

    /** Replace the class fields of one object that is not a vec2. */
    method ReplaceKind(a: nat, kind: VarKind)
      requires Valid() && a < |vars| && !kind.Vec2? && (kind.ShaderArray? ==> IdsIn(kind.elements, |vars|))
      modifies this
      ensures Valid()
      ensures vars == old(vars)[a := old(vars)[a].(kind := kind)]
      ensures nodes == old(nodes) && globals == old(globals) && functions == old(functions)
      ensures currentFunction == old(currentFunction) && registrations == old(registrations)
    {
      var vars' := vars[a := vars[a].(kind := kind)];
      forall i | 0 <= i < |vars| ensures vars'[i].name == vars[i].name { }
      IdsGrow(globals, vars, vars');
      forall f | 0 <= f < |functions|
        ensures IdsIn(functions[f].locals, |vars'|) && Distinct(Names(vars', functions[f].locals))
      {
        IdsGrow(functions[f].locals, vars, vars');
      }
      forall i | 0 <= i < |vars'| ensures ScopeFits(vars'[i], |vars'|, |functions|) {
        assert ScopeFits(vars[i], |vars|, |functions|);
      }
      forall j | 0 <= j < |nodes| && nodes[j].lhsFirstAssignment
        ensures !vars'[nodes[j].lhs.id].needsDeclarationForAssignment
      { }
      vars := vars';
    }

    /** The index subscript's getter: a fresh gfloat or vec2 object named
        `<name>[<position>]` with the array's scope; the elements are not consulted. */
    method Element(a: nat, position: int) returns (r: Result<nat, Fault>)
      requires Valid() && a < |vars| && vars[a].kind.ShaderArray?
      modifies this
      ensures Valid()
      ensures old(vars)[a].name.None? ==> r == Failure(NamelessArraySubscript)
      ensures old(vars)[a].name.Some? && old(vars)[a].vtype !in {FloatType, Vec2Type} ==> r == Failure(MissingElementInit)
      ensures old(vars)[a].name.Some? && old(vars)[a].vtype in {FloatType, Vec2Type} ==>
                var s := ScopedInit(ElementName(old(vars)[a].name.value, position), old(vars)[a].vtype,
                                    old(vars)[a].func, old(vars)[a].qualifier, old(vars)[a].inShader,
                                    ElementShape(old(vars)[a].vtype));
                (s.Failure? ==> r == Failure(s.error))
                && (s.Success? ==> r == Success(|old(vars)|) && vars == old(vars) + [s.value])
      ensures r.Failure? ==> vars == old(vars)
      ensures nodes == old(nodes) && globals == old(globals) && functions == old(functions)
      ensures currentFunction == old(currentFunction) && registrations == old(registrations)
    {
      var arr := vars[a];
      if arr.name.None? {
        return Failure(NamelessArraySubscript);
      }
      if arr.vtype !in {FloatType, Vec2Type} {
        return Failure(MissingElementInit);
      }
      var s := ScopedInit(ElementName(arr.name.value, position), arr.vtype, arr.func, arr.qualifier, arr.inShader,
                          ElementShape(arr.vtype));
      if s.Failure? {
        return Failure(s.error);
      }
      assert ScopeFits(arr, |vars|, |functions|);
      var id := Allocate(s.value);
      r := Success(id);
    }

    /** The index subscript's setter: replaces the element at that position only. */
    method SetElement(a: nat, position: int, e: nat) returns (r: Result<(), Fault>)
      requires Valid() && a < |vars| && vars[a].kind.ShaderArray? && e < |vars|
      modifies this
      ensures Valid()
      ensures r.Failure? <==> !(0 <= position < |old(vars)[a].kind.elements|)
      ensures r.Failure? ==> r.error == IndexOutOfRange && vars == old(vars)
      ensures r.Success? ==> vars == old(vars)[a := old(vars)[a].(kind := ShaderArray(
                                         old(vars)[a].kind.elements[position := e], old(vars)[a].kind.count))]
      ensures r.Success? ==> Count(a) == old(Count(a)) && Indices(a) == old(Indices(a))
      ensures nodes == old(nodes) && globals == old(globals) && functions == old(functions)
      ensures currentFunction == old(currentFunction) && registrations == old(registrations)
    {
      var es := vars[a].kind.elements;
      if !(0 <= position < |es|) {
        return Failure(IndexOutOfRange);
      }
      assert ScopeFits(vars[a], |vars|, |functions|);
      ReplaceKind(a, ShaderArray(es[position := e], vars[a].kind.count));
      r := Success(());
    }

    /** The range subscript's getter: a new nameless array holding those elements. */
    method Slice(a: nat, lo: int, hi: int) returns (r: Result<nat, Fault>)
      requires Valid() && a < |vars| && vars[a].kind.ShaderArray?
      modifies this
      ensures Valid()
      ensures r.Failure? <==> !(0 <= lo <= hi <= |old(vars)[a].kind.elements|)
      ensures r.Failure? ==> r.error == IndexOutOfRange && vars == old(vars)
      ensures r.Success? ==> r.value == |old(vars)|
                             && vars == old(vars) + [ArrayOfElements(old(vars)[a].kind.elements[lo..hi])]
      ensures nodes == old(nodes) && globals == old(globals) && functions == old(functions)
      ensures currentFunction == old(currentFunction) && registrations == old(registrations)
    {
      var es := vars[a].kind.elements;
      if !(0 <= lo <= hi <= |es|) {
        return Failure(IndexOutOfRange);
      }
      assert ScopeFits(vars[a], |vars|, |functions|);
      var id := AddConstant(ArrayOfElements(es[lo..hi]));
      r := Success(id);
    }

    /** The range subscript's setter: the elements in [lo, hi) give way to the
        source array's elements; the count is untouched. */
    method SetSlice(a: nat, lo: int, hi: int, source: nat) returns (r: Result<(), Fault>)
      requires Valid() && a < |vars| && vars[a].kind.ShaderArray? && source < |vars| && vars[source].kind.ShaderArray?
      modifies this
      ensures Valid()
      ensures r.Failure? <==> !(0 <= lo <= hi <= |old(vars)[a].kind.elements|)
      ensures r.Failure? ==> r.error == IndexOutOfRange && vars == old(vars)
      ensures r.Success? ==>
                var es := old(vars)[a].kind.elements;
                vars == old(vars)[a := old(vars)[a].(kind := ShaderArray(
                                    es[..lo] + old(vars)[source].kind.elements + es[hi..], old(vars)[a].kind.count))]
      ensures r.Success? ==> Count(a) == old(Count(a))
      ensures nodes == old(nodes) && globals == old(globals) && functions == old(functions)
      ensures currentFunction == old(currentFunction) && registrations == old(registrations)
    {
      var es := vars[a].kind.elements;
      if !(0 <= lo <= hi <= |es|) {
        return Failure(IndexOutOfRange);
      }
      var ss := vars[source].kind.elements;
      assert ScopeFits(vars[a], |vars|, |functions|) && ScopeFits(vars[source], |vars|, |functions|);
      var es' := es[..lo] + ss + es[hi..];
      assert IdsIn(es', |vars|) by {
        forall k | 0 <= k < |es'| ensures es'[k] < |vars| {
          if k < lo { assert es'[k] == es[k]; }
          else if k < lo + |ss| { assert es'[k] == ss[k - lo]; }
          else { assert es'[k] == es[hi + k - lo - |ss|]; }
        }
      }
      ReplaceKind(a, ShaderArray(es', vars[a].kind.count));
      r := Success(());
    }

    // -------------------------------------------------------------------
    // Emitting

    /** `Function.description` of function f. */
    method FunctionDescription(f: nat) returns (r: Result<string, Fault>)
      requires Valid() && f < |functions|
      ensures r == FunctionText(vars, nodes, gles, functions[f])
    {
      var ss := functions[f].statements;
      var contents := "";
      var i := 0;
      while i < |ss|
        invariant 0 <= i <= |ss|
        invariant StatementsText(vars, nodes, gles, ss[..i]) == Success(contents)
      {
        StatementsTextPrefixStep(vars, nodes, gles, ss, i);
        var d := Statements.Description(vars, nodes, gles, ss[i]);
        if d.Failure? {
          StatementsFaultPersists(vars, nodes, gles, ss, i + 1);
          return Failure(d.error);
        }
        contents := contents + "\t" + d.value + ";\n";
        i := i + 1;
      }
      assert ss[..i] == ss;
      r := Success("void " + functions[f].name + "() { \n" + contents + "}\n");
    }

    /** The globals part of `Shader.description`. */
    method GlobalsDescription() returns (r: Result<string, Fault>)
      requires Valid()
      ensures r == GlobalsText(vars, globals, gles)
    {
      var contents := "";
      var i := 0;
      while i < |globals|
        invariant 0 <= i <= |globals|
        invariant GlobalsText(vars, globals[..i], gles) == Success(contents)
      {
        GlobalsTextPrefixStep(vars, globals, gles, i);
        var d := Declaration(vars[globals[i]], gles);
        if d.Failure? {
          GlobalsFaultPersists(vars, globals, gles, i + 1);
          return Failure(d.error);
        }
        if d.value.Some? {
          contents := contents + d.value.value + "\n";
        }
        i := i + 1;
      }
      assert globals[..i] == globals;
      r := Success(contents);
    }

    /** The functions part of `Shader.description`. */
    method FunctionsDescription() returns (r: Result<string, Fault>)
      requires Valid()
      ensures r == FunctionsText(vars, nodes, gles, functions)
    {
      var contents := "";
      var j := 0;
      while j < |functions|
        invariant 0 <= j <= |functions|
        invariant FunctionsText(vars, nodes, gles, functions[..j]) == Success(contents)
      {
        FunctionsTextPrefixStep(vars, nodes, gles, functions, j);
        var t := FunctionDescription(j);
        if t.Failure? {
          FunctionsFaultPersists(vars, nodes, gles, functions, j + 1);
          return Failure(t.error);
        }
        contents := contents + t.value + "\n";
        j := j + 1;
      }
      assert functions[..j] == functions;
      r := Success(contents);
    }

    /** `Shader.description`: the declared globals, a blank line, then each function. */
    method Description() returns (r: Result<string, Fault>)
      requires Valid()
      ensures r == ProgramText(vars, nodes, gles, globals, functions)
    {
      var g := GlobalsDescription();
      if g.Failure? {
        return g;
      }
      var f := FunctionsDescription();
      if f.Failure? {
        return f;
      }
      r := Success(g.value + "\n" + f.value);
    }
  }

  /** The name an array element object gets: `<name>[<position>]`. */
  function ElementName(name: string, position: int): string
  {
    name + "[" + IntText(position) + "]"
  }

  /** Different positions of one array give differently named element objects,
      and the position can be read back from the name. */
  lemma ElementNamesDistinct(name: string, p: int, q: int)
    requires ElementName(name, p) == ElementName(name, q)
    ensures p == q
  {
    var a, b := ElementName(name, p), ElementName(name, q);
    assert a[|name| + 1..|a| - 1] == IntText(p);
    assert b[|name| + 1..|b| - 1] == IntText(q);
    IntTextInjective(p, q);
  }

  /** The class fields of an element object of the array's type. */
  function ElementShape(t: ValueType): VarKind
  {
    if t == FloatType then GFloat(None) else Vec2(None, None, None, None)
  }
}
