/** The expression/statement graph. Every variable object and every
    `Shader.Statement` object lives in an arena (`vars`, `nodes`) owned by the
    shader, and an operand refers to one of them by index; a statement points
    only at objects created before it, so the graph is acyclic. This module
    renders operands and statements to text, resolves a statement's shader and
    function, and models `Statement.init` with its one-shot consumption of the
    first-assignment flag. */
module Statements {
  import opened Wrappers
  import opened Text
  import opened Variables

  /** `Shader.Statement.StatementType`. */
  datatype StatementType = Assignment | Multiplication | Addition | Subtraction | Texture2D | AddAndAssign

  /** A `VariableProtocol` value: a variable object or a statement object. */
  datatype Operand = OfVar(id: nat) | OfStatement(id: nat)

  /** A `Shader.Statement` object. */
  datatype Node = Node(statementType: StatementType, lhs: Operand, rhs: Operand, lhsFirstAssignment: bool)

  /** The three renderers `description` dispatches to. */
  datatype Form = AssignmentForm | OperationForm | WrapperForm

  function FormOf(k: StatementType): Form
  {
    match k
    case Assignment => AssignmentForm
    case AddAndAssign => AssignmentForm
    case Multiplication => OperationForm
    case Addition => OperationForm
    case Subtraction => OperationForm
    case Texture2D => WrapperForm
  }

  /** The fixed operator table of `description`. */
  function OperatorToken(k: StatementType): string
  {
    match k
    case Assignment => "="
    case AddAndAssign => "+="
    case Multiplication => "*"
    case Addition => "+"
    case Subtraction => "-"
    case Texture2D => "texture2D"
  }

  /** The table is one-to-one, so a rendered token names its statement type. */
  lemma OperatorTokensDistinct(j: StatementType, k: StatementType)
    requires OperatorToken(j) == OperatorToken(k)
    ensures j == k
  {
    match j
    case Assignment => assert OperatorToken(j)[0] == '=';
    case AddAndAssign => assert |OperatorToken(j)| == 2 && OperatorToken(j)[0] == '+';
    case Multiplication => assert OperatorToken(j)[0] == '*';
    case Addition => assert |OperatorToken(j)| == 1 && OperatorToken(j)[0] == '+';
    case Subtraction => assert OperatorToken(j)[0] == '-';
    case Texture2D => assert |OperatorToken(j)| == 9;
  }

  // ---------------------------------------------------------------------
  // Arena shape

  /** A two-component vector built from two gfloat objects points at objects created earlier. */
  ghost predicate ReferencesBackward(vars: seq<Var>)
  {
    forall i :: 0 <= i < |vars| && vars[i].kind.Vec2? ==>
      (vars[i].kind.xReference.Some? ==> vars[i].kind.xReference.value < i) &&
      (vars[i].kind.yReference.Some? ==> vars[i].kind.yReference.value < i)
  }

  predicate OperandFits(o: Operand, varCount: nat, nodeBound: nat)
  {
    match o
    case OfVar(v) => v < varCount
    case OfStatement(n) => n < nodeBound
  }

  /** Every statement's operands exist, and a nested statement was created before it. */
  ghost predicate NodesFit(varCount: nat, nodes: seq<Node>)
  {
    forall i :: 0 <= i < |nodes| ==>
      OperandFits(nodes[i].lhs, varCount, i) && OperandFits(nodes[i].rhs, varCount, i)
  }

  ghost predicate Arena(vars: seq<Var>, nodes: seq<Node>)
  {
    ReferencesBackward(vars) && NodesFit(|vars|, nodes)
  }

  function Rank(o: Operand): nat
  {
    match o
    case OfVar(_) => 0
    case OfStatement(n) => n + 1
  }

  // ---------------------------------------------------------------------
  // Text of variables inside expressions

  /** `value`, as each variable class overrides it. Built-ins, samplers and
      arrays have no literal value (the base class calls fatalError). */
  function VarValue(vars: seq<Var>, v: nat): Result<string, Fault>
    requires ReferencesBackward(vars) && v < |vars|
    decreases v, 0
  {
    match vars[v].kind
    case GInt(n) => if n.Some? then Success(IntText(n.value)) else Failure(MissingValue)
    case GFloat(d) => if d.Some? then Success(d.value.text) else Failure(MissingValue)
    case Vec2(x, y, xr, yr) =>
      if x.Some? && y.Some? then Success("vec2(" + x.value.text + ", " + y.value.text + ")")
      else if xr.Some? && yr.Some? then
        var a := VarReference(vars, xr.value);
        var b := VarReference(vars, yr.value);
        if a.Failure? then a else if b.Failure? then b
        else Success("vec2(" + a.value + ", " + b.value + ")")
      else Failure(MissingValue)
    case Vec4(d) => if d.Some? then Success("vec4(" + d.value.text + ")") else Failure(ValueNotImplemented)
    case Sampler2D => Failure(ValueNotImplemented)
    case ShaderArray(_, _) => Failure(ValueNotImplemented)
  }

  /** `referenceValue` of a variable: its name, else its literal value. */
  function VarReference(vars: seq<Var>, v: nat): Result<string, Fault>
    requires ReferencesBackward(vars) && v < |vars|
    decreases v, 1
  {
    if vars[v].name.Some? then Success(vars[v].name.value) else VarValue(vars, v)
  }

  // ---------------------------------------------------------------------
  // The VariableProtocol members, on both kinds of operand

  /** Variables are assignable; statements (`assignable = false`) are not. */
  predicate Assignable(o: Operand)
  {
    o.OfVar?
  }

  /** A variable operand exists in the arena (a statement operand is not looked at). */
  predicate VarOperandIn(o: Operand, varCount: nat)
  {
    o.OfVar? ==> o.id < varCount
  }

  function OperandName(vars: seq<Var>, o: Operand): Option<string>
    requires VarOperandIn(o, |vars|)
  {
    match o
    case OfVar(v) => vars[v].name
    case OfStatement(_) => None
  }

  function NeedsDeclarationBeforeAssignment(vars: seq<Var>, o: Operand): bool
    requires VarOperandIn(o, |vars|)
  {
    match o
    case OfVar(v) => vars[v].needsDeclarationBeforeAssignment
    case OfStatement(_) => false
  }

  /** `declarationReference`; asking a statement for one is a fault. */
  function OperandDeclarationReference(vars: seq<Var>, o: Operand, gles: bool): Result<string, Fault>
    requires VarOperandIn(o, |vars|)
  {
    match o
    case OfVar(v) => DeclarationReference(vars[v], gles)
    case OfStatement(_) => Failure(StatementNotDeclarable)
  }

  /** `referenceValue`; a statement's is its own `description`. */
  function OperandReference(vars: seq<Var>, nodes: seq<Node>, gles: bool, o: Operand): Result<string, Fault>
    requires Arena(vars, nodes) && OperandFits(o, |vars|, |nodes|)
    decreases Rank(o), 1
  {
    match o
    case OfVar(v) => VarReference(vars, v)
    case OfStatement(n) => Description(vars, nodes, gles, n)
  }

  /** `<l> <op> <r>`, the first fault of the two operands winning (left is rendered first). */
  function Infix(l: Result<string, Fault>, op: string, r: Result<string, Fault>): Result<string, Fault>
  {
    if l.Failure? then l else if r.Failure? then r else Success(l.value + " " + op + " " + r.value)
  }

  /** `<name>(<l>, <r>)`. */
  function Call(name: string, l: Result<string, Fault>, r: Result<string, Fault>): Result<string, Fault>
  {
    if l.Failure? then l else if r.Failure? then r else Success(name + "(" + l.value + ", " + r.value + ")")
  }

  /** The text an assignment's left side renders: the declaration reference on the
      statement that carries the first assignment (unless the variable must be
      declared beforehand), otherwise the plain reference. */
  function AssignmentTarget(vars: seq<Var>, nodes: seq<Node>, gles: bool, n: Node, bound: nat): Result<string, Fault>
    requires Arena(vars, nodes) && bound <= |nodes| && OperandFits(n.lhs, |vars|, bound)
    decreases bound, 2
  {
    if n.lhsFirstAssignment && !NeedsDeclarationBeforeAssignment(vars, n.lhs)
    then OperandDeclarationReference(vars, n.lhs, gles)
    else OperandReference(vars, nodes, gles, n.lhs)
  }

  /** `Statement.description` for the statement at index i. */
  function Description(vars: seq<Var>, nodes: seq<Node>, gles: bool, i: nat): Result<string, Fault>
    requires Arena(vars, nodes) && i < |nodes|
    decreases i + 1, 0
  {
    var n := nodes[i];
    var token := OperatorToken(n.statementType);
    match FormOf(n.statementType)
    case AssignmentForm =>
      Infix(AssignmentTarget(vars, nodes, gles, n, i), token, OperandReference(vars, nodes, gles, n.rhs))
    case OperationForm =>
      Infix(OperandReference(vars, nodes, gles, n.lhs), token, OperandReference(vars, nodes, gles, n.rhs))
    case WrapperForm =>
      Call(token, OperandReference(vars, nodes, gles, n.lhs), OperandReference(vars, nodes, gles, n.rhs))
  }

  // ---------------------------------------------------------------------
  // Shader and function resolution

  /** `shader` of an operand: a variable's back-reference; a statement takes its
      left operand's when present, else its right operand's. */
  function OperandInShader(vars: seq<Var>, nodes: seq<Node>, o: Operand): bool
    requires NodesFit(|vars|, nodes) && OperandFits(o, |vars|, |nodes|)
    decreases Rank(o)
  {
    match o
    case OfVar(v) => vars[v].inShader
    case OfStatement(n) =>
      OperandInShader(vars, nodes, nodes[n].lhs) || OperandInShader(vars, nodes, nodes[n].rhs)
  }

  /** `function` of an operand: a variable's back-reference; a statement takes its
      left operand's when present, else its right operand's. */
  function OperandFunction(vars: seq<Var>, nodes: seq<Node>, o: Operand): Option<nat>
    requires NodesFit(|vars|, nodes) && OperandFits(o, |vars|, |nodes|)
    decreases Rank(o)
  {
    match o
    case OfVar(v) => vars[v].func
    case OfStatement(n) =>
      var f := OperandFunction(vars, nodes, nodes[n].lhs);
      if f.Some? then f else OperandFunction(vars, nodes, nodes[n].rhs)
  }

  /** The variables at the leaves of an operand's expression tree, left to right. */
  ghost function Leaves(vars: seq<Var>, nodes: seq<Node>, o: Operand): (ls: seq<nat>)
    requires NodesFit(|vars|, nodes) && OperandFits(o, |vars|, |nodes|)
    ensures forall k :: 0 <= k < |ls| ==> ls[k] < |vars|
    decreases Rank(o)
  {
    match o
    case OfVar(v) => [v]
    case OfStatement(n) => Leaves(vars, nodes, nodes[n].lhs) + Leaves(vars, nodes, nodes[n].rhs)
  }

  ghost function FirstFunction(vars: seq<Var>, ls: seq<nat>): Option<nat>
    requires forall k :: 0 <= k < |ls| ==> ls[k] < |vars|
  {
    if ls == [] then None
    else if vars[ls[0]].func.Some? then vars[ls[0]].func
    else FirstFunction(vars, ls[1..])
  }

  lemma {:induction false} FirstFunctionAppend(vars: seq<Var>, a: seq<nat>, b: seq<nat>)
    requires forall k :: 0 <= k < |a| ==> a[k] < |vars|
    requires forall k :: 0 <= k < |b| ==> b[k] < |vars|
    ensures FirstFunction(vars, a + b)
            == if FirstFunction(vars, a).Some? then FirstFunction(vars, a) else FirstFunction(vars, b)
    decreases |a|
  {
    if a != [] {
      assert (a + b)[1..] == a[1..] + b;
      FirstFunctionAppend(vars, a[1..], b);
    } else {
      assert a + b == b;
    }
  }

  /** A statement's function is that of its leftmost variable that has one. */
  lemma {:induction false} FunctionIsLeftmostLeafFunction(vars: seq<Var>, nodes: seq<Node>, o: Operand)
    requires NodesFit(|vars|, nodes) && OperandFits(o, |vars|, |nodes|)
    ensures OperandFunction(vars, nodes, o) == FirstFunction(vars, Leaves(vars, nodes, o))
    decreases Rank(o)
  {
    match o
    case OfVar(v) =>
      assert Leaves(vars, nodes, o)[1..] == [];
    case OfStatement(n) =>
      FunctionIsLeftmostLeafFunction(vars, nodes, nodes[n].lhs);
      FunctionIsLeftmostLeafFunction(vars, nodes, nodes[n].rhs);
      FirstFunctionAppend(vars, Leaves(vars, nodes, nodes[n].lhs), Leaves(vars, nodes, nodes[n].rhs));
  }

  /** A statement belongs to a shader exactly when one of its variables does. */
  lemma {:induction false} InShaderIffSomeLeaf(vars: seq<Var>, nodes: seq<Node>, o: Operand)
    requires NodesFit(|vars|, nodes) && OperandFits(o, |vars|, |nodes|)
    ensures OperandInShader(vars, nodes, o)
            <==> exists k :: 0 <= k < |Leaves(vars, nodes, o)| && vars[Leaves(vars, nodes, o)[k]].inShader
    decreases Rank(o)
  {
    match o
    case OfVar(v) =>
      if vars[v].inShader {
        assert Leaves(vars, nodes, o)[0] == v;
      }
    case OfStatement(n) =>
      var a, b := Leaves(vars, nodes, nodes[n].lhs), Leaves(vars, nodes, nodes[n].rhs);
      InShaderIffSomeLeaf(vars, nodes, nodes[n].lhs);
      InShaderIffSomeLeaf(vars, nodes, nodes[n].rhs);
      var ls := Leaves(vars, nodes, o);
      assert ls == a + b;
      if OperandInShader(vars, nodes, nodes[n].lhs) {
        var k :| 0 <= k < |a| && vars[a[k]].inShader;
        assert ls[k] == a[k];
        assert 0 <= k < |ls| && vars[ls[k]].inShader;
        assert exists k' :: 0 <= k' < |Leaves(vars, nodes, o)| && vars[Leaves(vars, nodes, o)[k']].inShader;
      } else if OperandInShader(vars, nodes, nodes[n].rhs) {
        var k :| 0 <= k < |b| && vars[b[k]].inShader;
        assert ls[|a| + k] == b[k];
        assert 0 <= |a| + k < |ls| && vars[ls[|a| + k]].inShader;
      } else {
        forall k | 0 <= k < |ls| ensures !vars[ls[k]].inShader {
          if k < |a| { assert ls[k] == a[k]; } else { assert ls[k] == b[k - |a|]; }
        }
      }
  }

  // ---------------------------------------------------------------------
  // Construction

  /** `Statement.init`: an assignment demands an assignable left operand and consumes
      its first-assignment flag; every other statement type leaves the flags alone.
      The result is the updated variables and the new statement object. */
  function Construct(vars: seq<Var>, k: StatementType, lhs: Operand, rhs: Operand): (r: Result<(seq<Var>, Node), Fault>)
    requires VarOperandIn(lhs, |vars|)
    ensures r.Failure? <==> k == Assignment && !Assignable(lhs)
    ensures r.Failure? ==> r.error == NotAssignable
    ensures r.Success? ==> r.value.1.statementType == k && r.value.1.lhs == lhs && r.value.1.rhs == rhs
    ensures r.Success? ==> |r.value.0| == |vars|
    ensures r.Success? ==> (r.value.1.lhsFirstAssignment
                            <==> k == Assignment && vars[lhs.id].needsDeclarationForAssignment)
    ensures r.Success? && k == Assignment ==> !r.value.0[lhs.id].needsDeclarationForAssignment
    ensures r.Success? && k != Assignment ==> r.value.0 == vars
    ensures r.Success? ==> forall v :: 0 <= v < |vars| && (lhs != OfVar(v) || k != Assignment) ==> r.value.0[v] == vars[v]
    ensures r.Success? ==> forall v :: 0 <= v < |vars| ==> SameButFirstAssignmentFlag(vars[v], r.value.0[v])
  {
    if k == Assignment && !Assignable(lhs) then Failure(NotAssignable)
    else if k == Assignment && vars[lhs.id].needsDeclarationForAssignment then
      Success((vars[lhs.id := vars[lhs.id].(needsDeclarationForAssignment := false)], Node(k, lhs, rhs, true)))
    else Success((vars, Node(k, lhs, rhs, false)))
  }

  /** Two variable objects that differ at most in `needsDeclarationForAssignment`. */
  predicate SameButFirstAssignmentFlag(a: Var, b: Var)
  {
    a.name == b.name && a.precision == b.precision && a.qualifier == b.qualifier && a.vtype == b.vtype
    && a.needsDeclarationBeforeAssignment == b.needsDeclarationBeforeAssignment
    && a.inShader == b.inShader && a.func == b.func && a.kind == b.kind
  }

  /** Each statement carrying the first assignment has consumed its variable's flag. */
  ghost predicate FirstAssignmentsConsumed(vars: seq<Var>, nodes: seq<Node>)
  {
    forall i :: 0 <= i < |nodes| && nodes[i].lhsFirstAssignment ==>
      nodes[i].statementType == Assignment && nodes[i].lhs.OfVar? && nodes[i].lhs.id < |vars|
      && !vars[nodes[i].lhs.id].needsDeclarationForAssignment
  }

  /** No two statements carry the first assignment of the same variable. */
  ghost predicate AtMostOneFirstAssignment(nodes: seq<Node>)
  {
    forall i, j :: 0 <= i < j < |nodes| && nodes[i].lhsFirstAssignment && nodes[j].lhsFirstAssignment ==>
      nodes[i].lhs != nodes[j].lhs
  }

  /** Constructing a statement keeps every variable declared inline at most once. */
  lemma ConstructKeepsDeclarationsUnique(vars: seq<Var>, nodes: seq<Node>, k: StatementType, lhs: Operand, rhs: Operand)
    requires VarOperandIn(lhs, |vars|)
    requires FirstAssignmentsConsumed(vars, nodes) && AtMostOneFirstAssignment(nodes)
    requires Construct(vars, k, lhs, rhs).Success?
    ensures FirstAssignmentsConsumed(Construct(vars, k, lhs, rhs).value.0, nodes + [Construct(vars, k, lhs, rhs).value.1])
    ensures AtMostOneFirstAssignment(nodes + [Construct(vars, k, lhs, rhs).value.1])
  {
    var (vars', n) := Construct(vars, k, lhs, rhs).value;
    var nodes' := nodes + [n];
    forall i | 0 <= i < |nodes'| && nodes'[i].lhsFirstAssignment
      ensures nodes'[i].statementType == Assignment && nodes'[i].lhs.OfVar? && nodes'[i].lhs.id < |vars'|
              && !vars'[nodes'[i].lhs.id].needsDeclarationForAssignment
    {
      if i < |nodes| {
        assert nodes'[i] == nodes[i];
        var v := nodes[i].lhs.id;
        if lhs == OfVar(v) && k == Assignment {
        } else {
          assert vars'[v] == vars[v];
        }
      }
    }
    forall i, j | 0 <= i < j < |nodes'| && nodes'[i].lhsFirstAssignment && nodes'[j].lhsFirstAssignment
      ensures nodes'[i].lhs != nodes'[j].lhs
    {
      if j == |nodes| {
        assert nodes'[i] == nodes[i];
        assert !vars[nodes[i].lhs.id].needsDeclarationForAssignment;
      } else {
        assert nodes'[i] == nodes[i] && nodes'[j] == nodes[j];
      }
    }
  }

  // ---------------------------------------------------------------------
  // Rendering is stable as the arena grows

  /** The later arena keeps every earlier object, changing at most first-assignment flags. */
  ghost predicate Extends(vars: seq<Var>, nodes: seq<Node>, vars': seq<Var>, nodes': seq<Node>)
  {
    |vars| <= |vars'| && (forall v :: 0 <= v < |vars| ==> SameButFirstAssignmentFlag(vars[v], vars'[v]))
    && |nodes| <= |nodes'| && (forall i :: 0 <= i < |nodes| ==> nodes'[i] == nodes[i])
  }

  lemma {:induction false} VarReferenceFrame(vars: seq<Var>, vars': seq<Var>, v: nat)
    requires ReferencesBackward(vars) && ReferencesBackward(vars') && v < |vars| <= |vars'|
    requires forall u :: 0 <= u < |vars| ==> SameButFirstAssignmentFlag(vars[u], vars'[u])
    ensures VarValue(vars', v) == VarValue(vars, v)
    ensures VarReference(vars', v) == VarReference(vars, v)
    decreases v
  {
    assert SameButFirstAssignmentFlag(vars[v], vars'[v]);
    match vars[v].kind
    case Vec2(_, _, xr, yr) =>
      if xr.Some? { VarReferenceFrame(vars, vars', xr.value); }
      if yr.Some? { VarReferenceFrame(vars, vars', yr.value); }
    case _ =>
  }

  lemma {:induction false} OperandFrame(vars: seq<Var>, nodes: seq<Node>, vars': seq<Var>, nodes': seq<Node>,
                                        gles: bool, o: Operand, bound: nat)
    requires Arena(vars, nodes) && Arena(vars', nodes') && Extends(vars, nodes, vars', nodes')
    requires bound <= |nodes| && OperandFits(o, |vars|, bound)
    ensures OperandReference(vars', nodes', gles, o) == OperandReference(vars, nodes, gles, o)
    ensures OperandDeclarationReference(vars', o, gles) == OperandDeclarationReference(vars, o, gles)
    ensures NeedsDeclarationBeforeAssignment(vars', o) == NeedsDeclarationBeforeAssignment(vars, o)
    decreases bound, 1
  {
    match o
    case OfVar(v) =>
      VarReferenceFrame(vars, vars', v);
      assert SameButFirstAssignmentFlag(vars[v], vars'[v]);
      DeclarationIgnoresFlags(vars[v], gles, vars'[v].needsDeclarationForAssignment,
                              vars'[v].needsDeclarationBeforeAssignment);
      assert vars'[v] == vars[v].(needsDeclarationForAssignment := vars'[v].needsDeclarationForAssignment,
                                 needsDeclarationBeforeAssignment := vars'[v].needsDeclarationBeforeAssignment);
    case OfStatement(j) =>
      DescriptionFrame(vars, nodes, vars', nodes', gles, j);
  }

  /** Growing the arena or consuming first-assignment flags never changes how an
      existing statement renders. */
  lemma {:induction false} DescriptionFrame(vars: seq<Var>, nodes: seq<Node>, vars': seq<Var>, nodes': seq<Node>,
                                            gles: bool, i: nat)
    requires Arena(vars, nodes) && Arena(vars', nodes') && Extends(vars, nodes, vars', nodes')
    requires i < |nodes|
    ensures Description(vars', nodes', gles, i) == Description(vars, nodes, gles, i)
    decreases i, 2
  {
    var n := nodes[i];
    assert nodes'[i] == n;
    OperandFrame(vars, nodes, vars', nodes', gles, n.lhs, i);
    OperandFrame(vars, nodes, vars', nodes', gles, n.rhs, i);
  }

  /** Constructing a statement and appending it to the arena extends the arena. */
  lemma ConstructExtends(vars: seq<Var>, nodes: seq<Node>, k: StatementType, lhs: Operand, rhs: Operand)
    requires Arena(vars, nodes) && OperandFits(lhs, |vars|, |nodes|) && OperandFits(rhs, |vars|, |nodes|)
    requires Construct(vars, k, lhs, rhs).Success?
    ensures Arena(Construct(vars, k, lhs, rhs).value.0, nodes + [Construct(vars, k, lhs, rhs).value.1])
    ensures Extends(vars, nodes, Construct(vars, k, lhs, rhs).value.0, nodes + [Construct(vars, k, lhs, rhs).value.1])
  {
    var (vars', n) := Construct(vars, k, lhs, rhs).value;
    var nodes' := nodes + [n];
    forall i | 0 <= i < |vars'| && vars'[i].kind.Vec2?
      ensures (vars'[i].kind.xReference.Some? ==> vars'[i].kind.xReference.value < i)
           && (vars'[i].kind.yReference.Some? ==> vars'[i].kind.yReference.value < i)
    {
      assert SameButFirstAssignmentFlag(vars[i], vars'[i]);
    }
    forall i | 0 <= i < |nodes'|
      ensures OperandFits(nodes'[i].lhs, |vars'|, i) && OperandFits(nodes'[i].rhs, |vars'|, i)
    {
      if i < |nodes| { assert nodes'[i] == nodes[i]; }
    }
  }

  /** Assigning twice to a variable still waiting for its declaration (a fresh
      function local): the first statement renders `<type> <name> = <rhs>`, the
      second `<name> = <rhs>`. */
  lemma FreshLocalAssignedTwice(vars: seq<Var>, nodes: seq<Node>, gles: bool, v: nat, rhs1: Operand, rhs2: Operand,
                                vars1: seq<Var>, n1: Node, vars2: seq<Var>, n2: Node)
    requires Arena(vars, nodes) && v < |vars|
    requires vars[v].name.Some? && vars[v].needsDeclarationForAssignment && !vars[v].needsDeclarationBeforeAssignment
    requires !vars[v].kind.ShaderArray? && PrecisionWords(vars[v], gles) == []
    requires OperandFits(rhs1, |vars|, |nodes|) && OperandFits(rhs2, |vars|, |nodes|)
    requires Construct(vars, Assignment, OfVar(v), rhs1) == Success((vars1, n1))
    requires Construct(vars1, Assignment, OfVar(v), rhs2) == Success((vars2, n2))
    ensures Arena(vars2, nodes + [n1, n2])
    ensures Description(vars2, nodes + [n1, n2], gles, |nodes|)
            == Infix(Success(TypeText(vars[v].vtype) + " " + vars[v].name.value), "=",
                     OperandReference(vars, nodes, gles, rhs1))
    ensures Description(vars2, nodes + [n1, n2], gles, |nodes| + 1)
            == Infix(Success(vars[v].name.value), "=", OperandReference(vars, nodes, gles, rhs2))
  {
    ConstructExtends(vars, nodes, Assignment, OfVar(v), rhs1);
    var nodes1 := nodes + [n1];
    ConstructExtends(vars1, nodes1, Assignment, OfVar(v), rhs2);
    var nodes2 := nodes1 + [n2];
    assert nodes2 == nodes + [n1, n2];
    assert Extends(vars, nodes, vars2, nodes2);
    OperandFrame(vars, nodes, vars2, nodes2, gles, rhs1, |nodes|);
    OperandFrame(vars, nodes, vars2, nodes2, gles, rhs2, |nodes|);
    assert nodes2[|nodes|] == n1 && nodes2[|nodes| + 1] == n2;
    assert SameButFirstAssignmentFlag(vars[v], vars2[v]);
    var t, name := TypeText(vars[v].vtype), vars[v].name.value;
    JoinTwo(t, name, ' ');
    assert PrecisionWords(vars2[v], gles) == [];
    assert PrecisionWords(vars2[v], gles) + [t, name] == [t, name];
    assert DeclarationReference(vars2[v], gles) == Success(t + " " + name);
    assert n1.lhsFirstAssignment && !n2.lhsFirstAssignment;
    assert AssignmentTarget(vars2, nodes2, gles, n1, |nodes|) == Success(t + " " + name);
    assert AssignmentTarget(vars2, nodes2, gles, n2, |nodes| + 1) == Success(name);
  }

  /** A statement used as an operand: its reference text is its own description,
      it has no name, it is not assignable, and it cannot be declared. */
  lemma StatementOperand(vars: seq<Var>, nodes: seq<Node>, gles: bool, j: nat)
    requires Arena(vars, nodes) && j < |nodes|
    ensures OperandReference(vars, nodes, gles, OfStatement(j)) == Description(vars, nodes, gles, j)
    ensures OperandName(vars, OfStatement(j)).None? && !Assignable(OfStatement(j))
    ensures OperandDeclarationReference(vars, OfStatement(j), gles) == Failure(StatementNotDeclarable)
    ensures !NeedsDeclarationBeforeAssignment(vars, OfStatement(j))
  {
  }

  /** A statement renders without a fault exactly when both of its sides do, so a
      fault anywhere in a nested expression reaches the top. */
  lemma DescriptionFaultIffSideFault(vars: seq<Var>, nodes: seq<Node>, gles: bool, i: nat)
    requires Arena(vars, nodes) && i < |nodes|
    ensures Description(vars, nodes, gles, i).Failure? <==>
              (if FormOf(nodes[i].statementType) == AssignmentForm
               then AssignmentTarget(vars, nodes, gles, nodes[i], i).Failure?
               else OperandReference(vars, nodes, gles, nodes[i].lhs).Failure?)
              || OperandReference(vars, nodes, gles, nodes[i].rhs).Failure?
  {
  }

  /** `+=` never carries a first assignment, so its left side always renders as a
      plain reference, and constructing it changes no variable. */
  lemma AddAssignRendersPlainReference(vars: seq<Var>, nodes: seq<Node>, gles: bool, lhs: Operand, rhs: Operand)
    requires Arena(vars, nodes) && OperandFits(lhs, |vars|, |nodes|) && OperandFits(rhs, |vars|, |nodes|)
    ensures Construct(vars, AddAndAssign, lhs, rhs).Success?
    ensures Construct(vars, AddAndAssign, lhs, rhs).value.0 == vars
    ensures Arena(vars, nodes + [Construct(vars, AddAndAssign, lhs, rhs).value.1])
    ensures Description(vars, nodes + [Construct(vars, AddAndAssign, lhs, rhs).value.1], gles, |nodes|)
            == Infix(OperandReference(vars, nodes, gles, lhs), "+=", OperandReference(vars, nodes, gles, rhs))
  {
    var n := Construct(vars, AddAndAssign, lhs, rhs).value.1;
    var nodes' := nodes + [n];
    ConstructExtends(vars, nodes, AddAndAssign, lhs, rhs);
    OperandFrame(vars, nodes, vars, nodes', gles, lhs, |nodes|);
    OperandFrame(vars, nodes, vars, nodes', gles, rhs, |nodes|);
    assert nodes'[|nodes|] == n && !n.lhsFirstAssignment;
  }

  /** `gint == Int` after the integer constant has been created: the new
      assignment renders the left side's declaration reference on its first
      assignment (its plain reference otherwise), `=`, and the decimal text of
      the integer. */
  lemma {:induction false} IntAssignmentRenders(vars: seq<Var>, nodes: seq<Node>, gles: bool, lhs: nat, n: int,
                              vars': seq<Var>, node: Node)
    requires Arena(vars, nodes) && lhs < |vars|
    requires Construct(vars + [IntConstant(n)], Assignment, OfVar(lhs), OfVar(|vars|)) == Success((vars', node))
    ensures Arena(vars', nodes + [node])
    ensures Description(vars', nodes + [node], gles, |nodes|)
            == Infix(if vars[lhs].needsDeclarationForAssignment && !vars[lhs].needsDeclarationBeforeAssignment
                     then DeclarationReference(vars[lhs], gles)
                     else VarReference(vars, lhs),
                     "=", Success(IntText(n)))
  {
    var c := |vars|;
    var vars0 := vars + [IntConstant(n)];
    assert Arena(vars0, nodes) by {
      assert vars0[c].kind.GInt?;
      assert forall i :: 0 <= i < |vars| ==> vars0[i] == vars[i];
      assert forall i :: 0 <= i < |nodes| ==>
        OperandFits(nodes[i].lhs, |vars|, i) && OperandFits(nodes[i].rhs, |vars|, i);
    }
    var nodes' := nodes + [node];
    ConstructExtends(vars0, nodes, Assignment, OfVar(lhs), OfVar(c));
    assert Extends(vars, nodes, vars', nodes') by {
      forall v | 0 <= v < |vars| ensures SameButFirstAssignmentFlag(vars[v], vars'[v]) {
        assert vars0[v] == vars[v];
        assert SameButFirstAssignmentFlag(vars0[v], vars'[v]);
      }
    }
    OperandFrame(vars, nodes, vars', nodes', gles, OfVar(lhs), |nodes|);
    assert SameButFirstAssignmentFlag(vars0[c], vars'[c]);
    assert vars'[c].name.None? && vars'[c].kind == GInt(Some(n));
    assert VarValue(vars', c) == Success(IntText(n));
    assert VarReference(vars', c) == Success(IntText(n));
    assert OperandReference(vars', nodes', gles, OfVar(c)) == Success(IntText(n));
    assert nodes'[|nodes|] == node;
    assert vars0[lhs] == vars[lhs];
  }
}
