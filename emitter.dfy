/** The program emitter: `Shader.description` and `Function.description` as
    functions of the shader's state. Both are deterministic, so rendering twice
    without a change in between gives the same text. */
module Emitter {
  import opened Wrappers
  import opened Text
  import opened Variables
  import opened Statements
  import opened Scopes

  predicate IdsIn(ids: seq<nat>, count: nat)
  {
    forall k :: 0 <= k < |ids| ==> ids[k] < count
  }

  /** Each declared global's declaration followed by a newline, in list order;
      undeclared (built-in) globals contribute nothing. */
  function GlobalsText(vars: seq<Var>, gs: seq<nat>, gles: bool): Result<string, Fault>
    requires IdsIn(gs, |vars|)
    decreases |gs|
  {
    if gs == [] then Success("")
    else
      var acc := GlobalsText(vars, gs[..|gs| - 1], gles);
      var d := Declaration(vars[gs[|gs| - 1]], gles);
      if acc.Failure? then acc
      else if d.Failure? then Failure(d.error)
      else if d.value.None? then acc
      else Success(acc.value + d.value.value + "\n")
  }

  /** One tab-indented, semicolon-terminated line per statement, in insertion order. */
  function StatementsText(vars: seq<Var>, nodes: seq<Node>, gles: bool, ss: seq<nat>): Result<string, Fault>
    requires Arena(vars, nodes) && IdsIn(ss, |nodes|)
    decreases |ss|
  {
    if ss == [] then Success("")
    else
      var acc := StatementsText(vars, nodes, gles, ss[..|ss| - 1]);
      var d := Description(vars, nodes, gles, ss[|ss| - 1]);
      if acc.Failure? then acc
      else if d.Failure? then d
      else Success(acc.value + "\t" + d.value + ";\n")
  }

  /** `Function.description`: `void <name>() { `, the statement lines, `}`. */
  function FunctionText(vars: seq<Var>, nodes: seq<Node>, gles: bool, f: Function): Result<string, Fault>
    requires Arena(vars, nodes) && IdsIn(f.statements, |nodes|)
  {
    var body := StatementsText(vars, nodes, gles, f.statements);
    if body.Failure? then body
    else Success("void " + f.name + "() { \n" + body.value + "}\n")
  }

  predicate FunctionsIn(fs: seq<Function>, nodeCount: nat)
  {
    forall k :: 0 <= k < |fs| ==> IdsIn(fs[k].statements, nodeCount)
  }

  /** Each function's text followed by a newline, in creation order. */
  function FunctionsText(vars: seq<Var>, nodes: seq<Node>, gles: bool, fs: seq<Function>): Result<string, Fault>
    requires Arena(vars, nodes) && FunctionsIn(fs, |nodes|)
    decreases |fs|
  {
    if fs == [] then Success("")
    else
      var acc := FunctionsText(vars, nodes, gles, fs[..|fs| - 1]);
      var t := FunctionText(vars, nodes, gles, fs[|fs| - 1]);
      if acc.Failure? then acc
      else if t.Failure? then t
      else Success(acc.value + t.value + "\n")
  }

  /** `Shader.description`: the globals' declarations, one blank line, the functions. */
  function ProgramText(vars: seq<Var>, nodes: seq<Node>, gles: bool, gs: seq<nat>, fs: seq<Function>): Result<string, Fault>
    requires Arena(vars, nodes) && IdsIn(gs, |vars|) && FunctionsIn(fs, |nodes|)
  {
    var g := GlobalsText(vars, gs, gles);
    var f := FunctionsText(vars, nodes, gles, fs);
    if g.Failure? then g else if f.Failure? then f else Success(g.value + "\n" + f.value)
  }

  // ---------------------------------------------------------------------
  // A fault stops the emitter: once a prefix fails, the whole text fails with it.

  lemma {:induction false} GlobalsFaultPersists(vars: seq<Var>, gs: seq<nat>, gles: bool, k: nat)
    requires IdsIn(gs, |vars|) && k <= |gs| && GlobalsText(vars, gs[..k], gles).Failure?
    ensures GlobalsText(vars, gs, gles) == GlobalsText(vars, gs[..k], gles)
    decreases |gs| - k
  {
    if k < |gs| {
      assert gs[..k + 1][..k] == gs[..k];
      GlobalsFaultPersists(vars, gs, gles, k + 1);
    } else {
      assert gs[..k] == gs;
    }
  }

  lemma {:induction false} StatementsFaultPersists(vars: seq<Var>, nodes: seq<Node>, gles: bool, ss: seq<nat>, k: nat)
    requires Arena(vars, nodes) && IdsIn(ss, |nodes|) && k <= |ss|
    requires StatementsText(vars, nodes, gles, ss[..k]).Failure?
    ensures StatementsText(vars, nodes, gles, ss) == StatementsText(vars, nodes, gles, ss[..k])
    decreases |ss| - k
  {
    if k < |ss| {
      assert ss[..k + 1][..k] == ss[..k];
      StatementsFaultPersists(vars, nodes, gles, ss, k + 1);
    } else {
      assert ss[..k] == ss;
    }
  }

  lemma {:induction false} FunctionsFaultPersists(vars: seq<Var>, nodes: seq<Node>, gles: bool, fs: seq<Function>, k: nat)
    requires Arena(vars, nodes) && FunctionsIn(fs, |nodes|) && k <= |fs|
    requires FunctionsText(vars, nodes, gles, fs[..k]).Failure?
    ensures FunctionsText(vars, nodes, gles, fs) == FunctionsText(vars, nodes, gles, fs[..k])
    decreases |fs| - k
  {
    if k < |fs| {
      assert fs[..k + 1][..k] == fs[..k];
      FunctionsFaultPersists(vars, nodes, gles, fs, k + 1);
    } else {
      assert fs[..k] == fs;
    }
  }

  // One more element of a list extends its text by that element's piece.

  lemma GlobalsTextPrefixStep(vars: seq<Var>, gs: seq<nat>, gles: bool, i: nat)
    requires IdsIn(gs, |vars|) && i < |gs|
    ensures IdsIn(gs[..i], |vars|) && IdsIn(gs[..i + 1], |vars|)
    ensures GlobalsText(vars, gs[..i + 1], gles)
         == var acc := GlobalsText(vars, gs[..i], gles);
            var d := Declaration(vars[gs[i]], gles);
            if acc.Failure? then acc
            else if d.Failure? then Failure(d.error)
            else if d.value.None? then acc
            else Success(acc.value + d.value.value + "\n")
  {
    assert gs[..i + 1][..i] == gs[..i];
  }

  lemma StatementsTextPrefixStep(vars: seq<Var>, nodes: seq<Node>, gles: bool, ss: seq<nat>, i: nat)
    requires Arena(vars, nodes) && IdsIn(ss, |nodes|) && i < |ss|
    ensures IdsIn(ss[..i], |nodes|) && IdsIn(ss[..i + 1], |nodes|)
    ensures StatementsText(vars, nodes, gles, ss[..i + 1])
         == var acc := StatementsText(vars, nodes, gles, ss[..i]);
            var d := Description(vars, nodes, gles, ss[i]);
            if acc.Failure? then acc
            else if d.Failure? then d
            else Success(acc.value + "\t" + d.value + ";\n")
  {
    assert ss[..i + 1][..i] == ss[..i];
  }

  lemma FunctionsTextPrefixStep(vars: seq<Var>, nodes: seq<Node>, gles: bool, fs: seq<Function>, j: nat)
    requires Arena(vars, nodes) && FunctionsIn(fs, |nodes|) && j < |fs|
    ensures FunctionsIn(fs[..j], |nodes|) && FunctionsIn(fs[..j + 1], |nodes|)
    ensures FunctionsText(vars, nodes, gles, fs[..j + 1])
         == var acc := FunctionsText(vars, nodes, gles, fs[..j]);
            var t := FunctionText(vars, nodes, gles, fs[j]);
            if acc.Failure? then acc
            else if t.Failure? then t
            else Success(acc.value + t.value + "\n")
  {
    assert fs[..j + 1][..j] == fs[..j];
  }

  // ---------------------------------------------------------------------
  // Line structure of the emitted text

  /** Lines joined by newlines, each line terminated by one. */
  function Lines(ls: seq<string>): string
    decreases |ls|
  {
    if ls == [] then "" else Lines(ls[..|ls| - 1]) + ls[|ls| - 1] + "\n"
  }

  lemma {:induction false} LinesCons(l: string, ls: seq<string>)
    ensures Lines([l] + ls) == l + "\n" + Lines(ls)
    decreases |ls|
  {
    if ls == [] {
      assert ([l] + ls)[..0] == [];
    } else {
      var p := ls[..|ls| - 1];
      assert ([l] + ls)[..|ls|] == [l] + p;
      LinesCons(l, p);
    }
  }

  /** Splitting the emitted lines at newlines gives back the lines and a final empty piece. */
  lemma {:induction false} SplitLines(ls: seq<string>)
    requires forall k :: 0 <= k < |ls| ==> Free(ls[k], '\n')
    ensures Split(Lines(ls), '\n') == ls + [""]
    decreases |ls|
  {
    if ls == [] {
    } else {
      SplitLines(ls[1..]);
      assert [ls[0]] + ls[1..] == ls;
      LinesCons(ls[0], ls[1..]);
      SplitAfterWord(ls[0], '\n', Lines(ls[1..]));
    }
  }

  /** Every global would be declared without a fault. */
  ghost predicate AllDeclarable(vars: seq<Var>, gs: seq<nat>)
    requires IdsIn(gs, |vars|)
  {
    forall k :: 0 <= k < |gs| ==> vars[gs[k]].qualifier == BuiltIn || vars[gs[k]].name.Some?
  }

  /** The declarations of the declared globals, in list order. */
  function DeclaredLines(vars: seq<Var>, gs: seq<nat>, gles: bool): seq<string>
    requires IdsIn(gs, |vars|)
    decreases |gs|
  {
    if gs == [] then []
    else
      var d := Declaration(vars[gs[|gs| - 1]], gles);
      DeclaredLines(vars, gs[..|gs| - 1], gles) + (if d.Success? && d.value.Some? then [d.value.value] else [])
  }

  /** The globals section is exactly one line per declared global, in
      registration order; built-ins contribute no line. */
  lemma {:induction false} GlobalsTextIsDeclaredLines(vars: seq<Var>, gs: seq<nat>, gles: bool)
    requires IdsIn(gs, |vars|) && AllDeclarable(vars, gs)
    ensures GlobalsText(vars, gs, gles) == Success(Lines(DeclaredLines(vars, gs, gles)))
    decreases |gs|
  {
    if gs != [] {
      var p := gs[..|gs| - 1];
      assert AllDeclarable(vars, p) by {
        forall k | 0 <= k < |p| ensures vars[p[k]].qualifier == BuiltIn || vars[p[k]].name.Some? {
          assert p[k] == gs[k];
        }
      }
      GlobalsTextIsDeclaredLines(vars, p, gles);
      var d := Declaration(vars[gs[|gs| - 1]], gles);
      var ls := DeclaredLines(vars, p, gles);
      assert d.Success?;
      if d.value.Some? {
        var l := d.value.value;
        assert (ls + [l])[..|ls|] == ls;
        assert Lines(ls + [l]) == Lines(ls) + l + "\n";
      } else {
        assert ls + [] == ls;
      }
    }
  }

  /** A shader whose globals are all built-ins emits no declaration line. */
  lemma {:induction false} BuiltInsDeclareNothing(vars: seq<Var>, gs: seq<nat>, gles: bool)
    requires IdsIn(gs, |vars|)
    requires forall k :: 0 <= k < |gs| ==> vars[gs[k]].qualifier == BuiltIn
    ensures GlobalsText(vars, gs, gles) == Success("")
    decreases |gs|
  {
    if gs != [] {
      var p := gs[..|gs| - 1];
      assert forall k :: 0 <= k < |p| ==> vars[p[k]].qualifier == BuiltIn by {
        forall k | 0 <= k < |p| ensures vars[p[k]].qualifier == BuiltIn {
          assert p[k] == gs[k];
        }
      }
      BuiltInsDeclareNothing(vars, p, gles);
    }
  }

  lemma {:induction false} LinesAppend(a: seq<string>, b: seq<string>)
    ensures Lines(a + b) == Lines(a) + Lines(b)
    decreases |b|
  {
    if b == [] {
      assert a + b == a;
    } else {
      var p := b[..|b| - 1];
      assert (a + b)[..|a + b| - 1] == a + p;
      LinesAppend(a, p);
    }
  }

  /** The body lines of a function, one per statement that renders. */
  function StatementLines(vars: seq<Var>, nodes: seq<Node>, gles: bool, ss: seq<nat>): seq<string>
    requires Arena(vars, nodes) && IdsIn(ss, |nodes|)
    decreases |ss|
  {
    if ss == [] then []
    else
      var d := Description(vars, nodes, gles, ss[|ss| - 1]);
      StatementLines(vars, nodes, gles, ss[..|ss| - 1]) + (if d.Success? then ["\t" + d.value + ";"] else [])
  }

  ghost predicate AllDescribable(vars: seq<Var>, nodes: seq<Node>, gles: bool, ss: seq<nat>)
    requires Arena(vars, nodes) && IdsIn(ss, |nodes|)
  {
    forall k :: 0 <= k < |ss| ==> Description(vars, nodes, gles, ss[k]).Success?
  }

  lemma LinesSnoc(ls: seq<string>, l: string)
    ensures Lines(ls + [l]) == Lines(ls) + l + "\n"
  {
    assert (ls + [l])[..|ls|] == ls;
  }

  lemma AllDescribablePrefix(vars: seq<Var>, nodes: seq<Node>, gles: bool, ss: seq<nat>, n: nat)
    requires Arena(vars, nodes) && IdsIn(ss, |nodes|) && AllDescribable(vars, nodes, gles, ss) && n <= |ss|
    ensures IdsIn(ss[..n], |nodes|) && AllDescribable(vars, nodes, gles, ss[..n])
  {
    forall k | 0 <= k < n ensures ss[..n][k] < |nodes| && Description(vars, nodes, gles, ss[..n][k]).Success? {
      assert ss[..n][k] == ss[k];
    }
  }

  /** The last statement's line ends the text of a list whose every line renders. */
  lemma StatementsTextStep(vars: seq<Var>, nodes: seq<Node>, gles: bool, ss: seq<nat>)
    requires Arena(vars, nodes) && IdsIn(ss, |nodes|) && ss != []
    requires StatementsText(vars, nodes, gles, ss[..|ss| - 1]).Success?
    requires Description(vars, nodes, gles, ss[|ss| - 1]).Success?
    ensures StatementsText(vars, nodes, gles, ss)
         == Success(StatementsText(vars, nodes, gles, ss[..|ss| - 1]).value
                    + ("\t" + Description(vars, nodes, gles, ss[|ss| - 1]).value + ";") + "\n")
  {
    var a := StatementsText(vars, nodes, gles, ss[..|ss| - 1]).value;
    var d := Description(vars, nodes, gles, ss[|ss| - 1]).value;
    assert a + "\t" + d + ";\n" == a + ("\t" + d + ";") + "\n";
  }

  lemma {:induction false} StatementsTextIsLines(vars: seq<Var>, nodes: seq<Node>, gles: bool, ss: seq<nat>)
    requires Arena(vars, nodes) && IdsIn(ss, |nodes|) && AllDescribable(vars, nodes, gles, ss)
    ensures StatementsText(vars, nodes, gles, ss) == Success(Lines(StatementLines(vars, nodes, gles, ss)))
    ensures |StatementLines(vars, nodes, gles, ss)| == |ss|
    decreases |ss|
  {
    if ss != [] {
      var n := |ss| - 1;
      AllDescribablePrefix(vars, nodes, gles, ss, n);
      StatementsTextIsLines(vars, nodes, gles, ss[..n]);
      var ls := StatementLines(vars, nodes, gles, ss[..n]);
      var d := Description(vars, nodes, gles, ss[n]);
      assert d.Success?;
      var l := "\t" + d.value + ";";
      assert StatementLines(vars, nodes, gles, ss) == ls + [l];
      LinesSnoc(ls, l);
      StatementsTextStep(vars, nodes, gles, ss);
    }
  }

  /** A rendered statement holds no newline (true when no name holds one). */
  ghost predicate SingleLine(vars: seq<Var>, nodes: seq<Node>, gles: bool, i: nat)
    requires Arena(vars, nodes) && i < |nodes|
  {
    var d := Description(vars, nodes, gles, i);
    d.Success? && Free(d.value, '\n')
  }

  function Header(name: string): string
  {
    "void " + name + "() { "
  }

  lemma FunctionTextIsLines(vars: seq<Var>, nodes: seq<Node>, gles: bool, f: Function)
    requires Arena(vars, nodes) && IdsIn(f.statements, |nodes|)
    requires AllDescribable(vars, nodes, gles, f.statements)
    ensures FunctionText(vars, nodes, gles, f)
         == Success(Lines([Header(f.name)] + StatementLines(vars, nodes, gles, f.statements) + ["}"]))
  {
    StatementsTextIsLines(vars, nodes, gles, f.statements);
    var body := StatementLines(vars, nodes, gles, f.statements);
    var head := Header(f.name);
    LinesAppend([head] + body, ["}"]);
    LinesCons(head, body);
    assert Lines(["}"]) == "}" + "\n" by {
      assert ["}"][..0] == [];
    }
    var t := StatementsText(vars, nodes, gles, f.statements).value;
    calc {
      Lines([head] + body + ["}"]);
      Lines([head] + body) + "}\n";
      head + "\n" + t + "}\n";
      "void " + f.name + "() { \n" + t + "}\n";
    }
  }

  /** A function's text is its header line, one line per statement and the closing
      brace line, when no name or rendered statement contains a newline. */
  lemma FunctionTextLines(vars: seq<Var>, nodes: seq<Node>, gles: bool, f: Function)
    requires Arena(vars, nodes) && IdsIn(f.statements, |nodes|) && Free(f.name, '\n')
    requires forall k :: 0 <= k < |f.statements| ==> SingleLine(vars, nodes, gles, f.statements[k])
    ensures FunctionText(vars, nodes, gles, f).Success?
    ensures Split(FunctionText(vars, nodes, gles, f).value, '\n')
         == [Header(f.name)] + StatementLines(vars, nodes, gles, f.statements) + ["}", ""]
  {
    var ss := f.statements;
    assert AllDescribable(vars, nodes, gles, ss) by {
      forall k | 0 <= k < |ss| ensures Description(vars, nodes, gles, ss[k]).Success? {
        assert SingleLine(vars, nodes, gles, ss[k]);
      }
    }
    FunctionTextIsLines(vars, nodes, gles, f);
    var body := StatementLines(vars, nodes, gles, ss);
    var head := Header(f.name);
    StatementLinesFree(vars, nodes, gles, ss);
    HeaderFree(f.name);
    var all := [head] + body + ["}"];
    assert forall k :: 0 <= k < |all| ==> Free(all[k], '\n') by {
      forall k | 0 <= k < |all| ensures Free(all[k], '\n') {
        if 0 < k <= |body| {
          assert all[k] == body[k - 1];
        }
      }
    }
    SplitLines(all);
    assert all + [""] == [head] + body + ["}", ""];
  }

  lemma HeaderFree(name: string)
    requires Free(name, '\n')
    ensures Free(Header(name), '\n')
  {
    var h := Header(name);
    forall i | 0 <= i < |h| ensures h[i] != '\n' {
      if 5 <= i < 5 + |name| {
        assert h[i] == name[i - 5];
      }
    }
  }

  lemma {:induction false} StatementLinesFree(vars: seq<Var>, nodes: seq<Node>, gles: bool, ss: seq<nat>)
    requires Arena(vars, nodes) && IdsIn(ss, |nodes|)
    requires forall k :: 0 <= k < |ss| ==> SingleLine(vars, nodes, gles, ss[k])
    ensures forall k :: 0 <= k < |StatementLines(vars, nodes, gles, ss)| ==> Free(StatementLines(vars, nodes, gles, ss)[k], '\n')
    decreases |ss|
  {
    if ss != [] {
      var p := ss[..|ss| - 1];
      assert forall k :: 0 <= k < |p| ==> SingleLine(vars, nodes, gles, p[k]) by {
        forall k | 0 <= k < |p| ensures SingleLine(vars, nodes, gles, p[k]) {
          assert p[k] == ss[k];
        }
      }
      StatementLinesFree(vars, nodes, gles, p);
      assert SingleLine(vars, nodes, gles, ss[|ss| - 1]);
      var d := Description(vars, nodes, gles, ss[|ss| - 1]).value;
      var l := "\t" + d + ";";
      forall i | 0 <= i < |l| ensures l[i] != '\n' {
        if 1 <= i <= |d| {
          assert l[i] == d[i - 1];
        }
      }
    }
  }

  // ---------------------------------------------------------------------
  // Growing the arenas does not change what was already emitted.

  lemma {:induction false} StatementsTextFrame(vars: seq<Var>, nodes: seq<Node>, vars': seq<Var>, nodes': seq<Node>,
                                               gles: bool, ss: seq<nat>)
    requires Arena(vars, nodes) && Arena(vars', nodes') && Extends(vars, nodes, vars', nodes') && IdsIn(ss, |nodes|)
    ensures StatementsText(vars', nodes', gles, ss) == StatementsText(vars, nodes, gles, ss)
    decreases |ss|
  {
    if ss != [] {
      StatementsTextFrame(vars, nodes, vars', nodes', gles, ss[..|ss| - 1]);
      DescriptionFrame(vars, nodes, vars', nodes', gles, ss[|ss| - 1]);
    }
  }

  lemma {:induction false} GlobalsTextFrame(vars: seq<Var>, vars': seq<Var>, gs: seq<nat>, gles: bool)
    requires |vars| <= |vars'| && IdsIn(gs, |vars|)
    requires forall v :: 0 <= v < |vars| ==> SameButFirstAssignmentFlag(vars[v], vars'[v])
    ensures GlobalsText(vars', gs, gles) == GlobalsText(vars, gs, gles)
    decreases |gs|
  {
    if gs != [] {
      var g := gs[|gs| - 1];
      GlobalsTextFrame(vars, vars', gs[..|gs| - 1], gles);
      assert SameButFirstAssignmentFlag(vars[g], vars'[g]);
      DeclarationIgnoresFlags(vars[g], gles, vars'[g].needsDeclarationForAssignment,
                              vars'[g].needsDeclarationBeforeAssignment);
      assert vars'[g] == vars[g].(needsDeclarationForAssignment := vars'[g].needsDeclarationForAssignment,
                                 needsDeclarationBeforeAssignment := vars'[g].needsDeclarationBeforeAssignment);
    }
  }

  lemma {:induction false} FunctionsTextFrame(vars: seq<Var>, nodes: seq<Node>, vars': seq<Var>, nodes': seq<Node>,
                                              gles: bool, fs: seq<Function>)
    requires Arena(vars, nodes) && Arena(vars', nodes') && Extends(vars, nodes, vars', nodes') && FunctionsIn(fs, |nodes|)
    ensures FunctionsText(vars', nodes', gles, fs) == FunctionsText(vars, nodes, gles, fs)
    decreases |fs|
  {
    if fs != [] {
      FunctionsTextFrame(vars, nodes, vars', nodes', gles, fs[..|fs| - 1]);
      StatementsTextFrame(vars, nodes, vars', nodes', gles, fs[|fs| - 1].statements);
    }
  }

  /** Creating objects, or consuming first-assignment flags, changes nothing already
      emitted: the program text depends only on the registered globals and functions. */
  lemma ProgramTextFrame(vars: seq<Var>, nodes: seq<Node>, vars': seq<Var>, nodes': seq<Node>,
                         gles: bool, gs: seq<nat>, fs: seq<Function>)
    requires Arena(vars, nodes) && Arena(vars', nodes') && Extends(vars, nodes, vars', nodes')
    requires IdsIn(gs, |vars|) && FunctionsIn(fs, |nodes|)
    ensures ProgramText(vars', nodes', gles, gs, fs) == ProgramText(vars, nodes, gles, gs, fs)
  {
    GlobalsTextFrame(vars, vars', gs, gles);
    FunctionsTextFrame(vars, nodes, vars', nodes', gles, fs);
  }
}
