# GPUImage2 shader DSL in Dafny

This project models the shader-source builder of GPUImage2 (`framework/Source/DSL/`).
The builder assembles the text of an OpenGL (ES) shader program from typed variable
objects and expression statements. The model has five modules:

- **Variables** (`variables.dfy`, module `Variables`). A `Shader.Variable` is a value
  `Var`. Its Swift subclass (`gint`, `gfloat`, `vec2`, `vec4`, `sampler2D`,
  `ShaderArray`) is a `VarKind` with that class's own fields. This module holds the
  initialisers and the text each variable renders: `declaration` and
  `declarationReference`.
- **Statements** (`statements.dfy`, module `Statements`). A `Shader.Statement` is a
  `Node` whose operands are ids into the shader's arenas: `OfVar(i)` or
  `OfStatement(j)`. This module covers the operator table, the recursive
  `description`, the resolution of a statement's shader and function, and
  `Statement.init`. That init consumes the one-shot "first assignment" flag.
- **Scopes** (`scopes.dfy`, module `Scopes`). The deduplicated global list, the
  lookup-or-create list of a function's locals, and the `Function` record.
- **Emitter** (`emitter.dfy`, module `Emitter`). `Shader.description` and
  `Function.description` as functions of the state, with their line structure.
- **Program** (`program.dfy`, module `Program`). The class `Shader` holds every
  object in two arenas: `vars` for variables and `nodes` for statements. Its
  methods are the builder API:
  - `makeFunction`, `add(global:)` and the container subscripts;
  - the `==`, `+=`, `*`, `+`, `-` and `texture2D` operators;
  - `vec4.xy`;
  - the `ShaderArray` accessors.

  `Valid()` is the invariant they keep:
  - the arenas are well formed;
  - the globals are the registrations deduplicated by name;
  - each function's locals have distinct names;
  - every first assignment has consumed its flag, at most once per variable.

`text.dfy` (module `Text`) holds the strings the model needs: decimal integer text,
joining words and splitting text.

Modelling choices:

- Swift's object graph with weak `shader`/`function` back-references is an arena.
  A variable's `inShader` flag stands for its `shader` reference. Its `func` is the
  index of its function in `Shader.functions`. Sharing an object means sharing an id,
  so consuming a flag on an id is seen by every statement that mentions it.
- Every `fatalError` (and the `as!` cast of a local to the wrong class) is a
  `Failure(Fault)` result. A method that fails leaves the shader unchanged: it
  tests its fault conditions before it creates any object. For example, `AssignInt`
  tests for an orphaned left side before it creates the integer constant.
- The `#if GLES` compile-time switch is the shader's `gles` constant. The renderers
  take it as a parameter.
- `makeFunction(named:closure:)` is `BeginFunction` followed by `EndFunction`. The
  builder calls made between the two are the closure's body.
- The return-type-overloaded subscripts take an explicit `GlobalKind` or `LocalKind`.
- Quirks of the code are kept as written:
  - `gfloat(value:)` is tagged `.int`;
  - `vec4.xy` keeps the vec4's type tag;
  - the global container builds a fresh object on every request;
  - `+=` never consumes the first-assignment flag;
  - an array subscript ignores the stored elements;
  - `ShaderArray(elements:)` types itself `.vec2` with count 0;
  - the array-literal initialiser discards its elements;
  - a vec4 with an initial value declares `= vec4(<d>;` with no closing parenthesis.
- A global starts with `needsDeclarationForAssignment` false
  (`framework/Source/DSL/ShaderDSL.swift`, line 199), so its first assignment
  renders as a plain `color = …`, not as a declaration.

## Model

| member | source | states |
|---|---|---|
| `Text.IntText` | framework/Source/DSL/ShaderDSL.swift:422-427 | the decimal text of an Int is non-empty, starts with `-` exactly for negatives, and holds no space, newline or `]` |
| `Text.IntTextRoundTrip` | framework/Source/DSL/ShaderDSL.swift:422-427 | parsing the decimal text of n gives back n |
| `Text.IntTextInjective` | framework/Source/DSL/ShaderDSL.swift:422-427 | distinct integers render distinct texts |
| `Variables.TypeText` | framework/Source/DSL/ShaderDSL.swift:148-159 | a value type's raw value is one non-empty word |
| `Variables.QualifierText` | framework/Source/DSL/ShaderDSL.swift:164-180 | a qualifier's raw value is one non-empty word |
| `Variables.IsDeclared` | framework/Source/DSL/ShaderDSL.swift:170-176 | a qualifier is declared exactly when it is not `builtIn` |
| `Variables.PrecisionText` | framework/Source/DSL/ShaderDSL.swift:107-111 | `lowp`, `mediump`, `highp`, each one non-empty word |
| `Variables.GlobalInit` | framework/Source/DSL/ShaderDSL.swift:191-200 | the global initialiser fails exactly for qualifier `.none`; a global has the shader reference, no function, and its first-assignment flag false |
| `Variables.LocalInit` | framework/Source/DSL/ShaderDSL.swift:204-209 | a function variable has qualifier `.none`, its function reference, no shader, and its first-assignment flag true |
| `Variables.ScopedInit` | framework/Source/DSL/ShaderDSL.swift:211-224 | a local when a function is given; otherwise a global, failing exactly when there is no shader or the qualifier is `.none` |
| `Variables.ConstantInit` | framework/Source/DSL/ShaderDSL.swift:227-230 | a constant is nameless, unqualified, unscoped, and keeps the first-assignment default true |
| `Variables.IntConstant` | framework/Source/DSL/ShaderDSL.swift:412-420 | `gint(value:)` is a nameless int constant holding the value |
| `Variables.FloatConstant` | framework/Source/DSL/ShaderOperators.swift:52-60 | `gfloat(value:)` is a nameless constant holding the value, tagged with type `.int` |
| `Variables.Vec2Literal` | framework/Source/DSL/ShaderDSL.swift:457-471 | a vec2 from two numbers holds them and no references |
| `Variables.Vec2Pair` | framework/Source/DSL/ShaderDSL.swift:473-477 | a vec2 from two gfloats holds them by reference and no numbers |
| `Variables.Vec4Constant` | framework/Source/DSL/ShaderOperators.swift:14-17 | `vec4(_:)` is a nameless vec4 holding the initial value |
| `Variables.ArrayOfElements` | framework/Source/DSL/ShaderArray.swift:21-24 | `init(elements:)` keeps the elements, leaves count 0, and types the array `.vec2` |
| `Variables.ArrayLiteral` | framework/Source/DSL/ShaderArray.swift:9-11 | the array-literal initialiser discards its elements: empty, count 0, type `.vec2` |
| `Variables.Declaration` | framework/Source/DSL/ShaderDSL.swift:232-245 | nothing is declared exactly for `builtIn`; otherwise declaring a nameless variable is the only fault |
| `Variables.BaseDeclaration` | framework/Source/DSL/ShaderDSL.swift:232-245 | `Variable.declaration`: nothing for a built-in, a fault for a nameless variable, else `<qualifier> [<precision>] <type> <name>;` with the precision word only under GLES |
| `Variables.Vec4Declaration` | framework/Source/DSL/ShaderOperators.swift:19-37 | `vec4.declaration`: with an initial value d it writes `<qualifier> [<precision>] <type> <name> = vec4(<d>;` as the source does, otherwise the base declaration |
| `Variables.ArrayDeclaration` | framework/Source/DSL/ShaderArray.swift:91-104 | `ShaderArray.declaration`: the base declaration with `<name>[<count>];`, using the stored count |
| `Variables.ArrayDeclarationReference` | framework/Source/DSL/ShaderArray.swift:106-117 | `ShaderArray.declarationReference`: `[<precision>] <type> <name>[<count>]`, a fault for a nameless array |
| `Variables.DeclarationReference` | framework/Source/DSL/ShaderDSL.swift:255-265 | the declaration reference fails exactly for a nameless variable |
| `Variables.DeclarationWords` | framework/Source/DSL/ShaderDSL.swift:232-245 | a declaration is the words `<qualifier> [<precision>] <type> <name>;`; the precision word appears only under GLES with a precision set (4 words, else 3) |
| `Variables.DeclarationReferenceWords` | framework/Source/DSL/ShaderDSL.swift:255-265 | a declaration reference is the words `[<precision>] <type> <name>` |
| `Variables.DeclarationQualifiesReference` | framework/Source/DSL/ShaderDSL.swift:232-265 | a declaration is the qualifier, a space, the declaration reference and `;` |
| `Variables.DeclarationIgnoresFlags` | framework/Source/DSL/ShaderDSL.swift:232-265 | neither the declaration nor the declaration reference depends on the two assignment flags |
| `Variables.ArrayDeclaresCount` | framework/Source/DSL/ShaderArray.swift:98-103 | an array declares its stored count, whatever its elements |
| `Variables.Vec4WithoutValueIsBase` | framework/Source/DSL/ShaderOperators.swift:19-37 | a vec4 without an initial value declares as the base `Variable.declaration` |
| `Variables.Vec4DeclarationWords` | framework/Source/DSL/ShaderOperators.swift:26-32 | a vec4 with initial value d declares the words `<q> [<p>] <t> <name> = vec4(<d>;` |
| `Statements.OperatorTokensDistinct` | framework/Source/DSL/Statement.swift:37-52 | the operator table `=`, `+=`, `*`, `+`, `-`, `texture2D` is one-to-one |
| `Statements.VarValue` | framework/Source/DSL/ShaderDSL.swift:482-503 | `value` per class: a gint's decimal text, a gfloat's literal, a vec2's `vec2(x, y)` from its numbers or else from its references' reference texts, a vec4's `vec4(<d>)`; a missing value, a sampler and an array are faults |
| `Statements.VarReference` | framework/Source/DSL/ShaderDSL.swift:247-253 | `referenceValue`: the name when there is one, else the value |
| `Statements.Description` | framework/Source/DSL/Statement.swift:37-89 | `Statement.description`: `<target> = <rhs>` and `<lhs> += <rhs>` (the target being the declaration reference on the first assignment), `<lhs> <op> <rhs>` for the arithmetic forms, `texture2D(<lhs>, <rhs>)`; the left side's fault wins |
| `Statements.OperandInShader` | framework/Source/DSL/Statement.swift:106-112 | a statement's shader is its left operand's, else its right operand's |
| `Statements.OperandFunction` | framework/Source/DSL/Statement.swift:114-120 | a statement's function is its left operand's, else its right operand's |
| `Statements.Construct` | framework/Source/DSL/Statement.swift:18-35 | an assignment fails exactly when the left side is not assignable; it carries the first assignment exactly when the left flag was set, and clears that flag; other kinds change no variable; only that flag ever changes |
| `Statements.ConstructKeepsDeclarationsUnique` | framework/Source/DSL/Statement.swift:27-35 | after any construction each first assignment has consumed its variable's flag and no two statements carry the first assignment of one variable |
| `Statements.FunctionIsLeftmostLeafFunction` | framework/Source/DSL/Statement.swift:114-120 | a statement's function is that of its leftmost variable that has one |
| `Statements.InShaderIffSomeLeaf` | framework/Source/DSL/Statement.swift:106-112 | a statement belongs to a shader exactly when one of its variables does |
| `Statements.StatementOperand` | framework/Source/DSL/Statement.swift:93-104 | a statement operand's reference is its own description; it has no name, is not assignable, and asking for its declaration reference is a fault |
| `Statements.DescriptionFaultIffSideFault` | framework/Source/DSL/Statement.swift:54-89 | a statement renders without fault exactly when its left side (declaration or plain reference) and its right reference do |
| `Statements.VarReferenceFrame` | framework/Source/DSL/ShaderDSL.swift:247-253 | a variable's reference text and value do not change as the arena grows or flags are consumed |
| `Statements.DescriptionFrame` | framework/Source/DSL/Statement.swift:37-89 | a statement's text does not change as the arena grows or flags are consumed |
| `Statements.FreshLocalAssignedTwice` | framework/Source/DSL/Statement.swift:74-89 | assigning twice to a fresh local renders `<type> <name> = <rhs>` and then `<name> = <rhs>` |
| `Statements.AddAssignRendersPlainReference` | framework/Source/DSL/Statement.swift:17-24 | `+=` is always constructed, changes no variable, and renders `<lhs reference> += <rhs reference>` |
| `Statements.IntAssignmentRenders` | framework/Source/DSL/ShaderOperators.swift:109-112 | an assignment of a fresh int constant renders the left side's declaration reference on its first assignment (its plain reference otherwise), `=`, and the integer's decimal text |
| `Scopes.Dedup` | framework/Source/DSL/ShaderDSL.swift:99-104 | the deduplicated registrations are distinct and hold exactly the registered names |
| `Scopes.DedupKeepsFirstRegistrationOrder` | framework/Source/DSL/ShaderDSL.swift:99-104 | the kept names appear in the order of their first registration |
| `Scopes.FirstNamed` | framework/Source/DSL/ShaderDSL.swift:308-310 | the local lookup finds nothing exactly when the name is absent, and otherwise the first listed object with that name |
| `Scopes.FirstNamedHasName` | framework/Source/DSL/ShaderDSL.swift:308-310 | an object the lookup finds carries the name looked up |
| `Scopes.FirstNamedFindsUnique` | framework/Source/DSL/ShaderDSL.swift:306-351 | with distinct names, looking up a listed local's name finds that very local |
| `Scopes.AppendStatement` | framework/Source/DSL/ShaderDSL.swift:78-80 | `Function.addStatement` appends to that one function and changes no other |
| `Emitter.GlobalsText` | framework/Source/DSL/ShaderDSL.swift:117-125 | the globals section: each global's declaration and a newline, in list order, skipping built-ins; the first fault aborts |
| `Emitter.StatementsText` | framework/Source/DSL/ShaderDSL.swift:292-294 | a function body: `\t<statement>;` and a newline per statement, in insertion order; the first fault aborts |
| `Emitter.FunctionText` | framework/Source/DSL/ShaderDSL.swift:288-300 | `Function.description`: `void <name>() { `, a newline, the body, `}` and a newline |
| `Emitter.FunctionsText` | framework/Source/DSL/ShaderDSL.swift:127-130 | the functions section: each function's text and a newline, in creation order |
| `Emitter.ProgramText` | framework/Source/DSL/ShaderDSL.swift:115-134 | `Shader.description`: the globals section, one newline, the functions section |
| `Emitter.GlobalsFaultPersists` | framework/Source/DSL/ShaderDSL.swift:119-125 | once the globals section faults on a prefix it faults with the same fault on the whole list |
| `Emitter.StatementsFaultPersists` | framework/Source/DSL/ShaderDSL.swift:292-294 | once a function body faults on a prefix it faults with the same fault on the whole list |
| `Emitter.FunctionsFaultPersists` | framework/Source/DSL/ShaderDSL.swift:128-130 | once the functions section faults on a prefix it faults with the same fault on the whole list |
| `Emitter.GlobalsTextIsDeclaredLines` | framework/Source/DSL/ShaderDSL.swift:119-125 | the globals section is one newline-terminated line per declared global, in list order |
| `Emitter.BuiltInsDeclareNothing` | framework/Source/DSL/ShaderDSL.swift:119-122 | built-in globals contribute no text |
| `Emitter.StatementsTextIsLines` | framework/Source/DSL/ShaderDSL.swift:292-294 | a function body is one `\t<statement>;` line per statement, in insertion order |
| `Emitter.FunctionTextIsLines` | framework/Source/DSL/ShaderDSL.swift:288-300 | a function's text is its header line, its statement lines and `}`, each newline-terminated |
| `Emitter.FunctionTextLines` | framework/Source/DSL/ShaderDSL.swift:288-300 | split at newlines, a function's text is `void <name>() { `, the statement lines, `}` and a final empty piece |
| `Emitter.ProgramTextFrame` | framework/Source/DSL/ShaderDSL.swift:115-134 | the program text depends only on the registered globals and functions: creating objects or consuming flags does not change it |
| `Program.ElementNamesDistinct` | framework/Source/DSL/ShaderArray.swift:57 | element objects at different positions of one array get different names |
| `Program.AddGlobalKeeps` | framework/Source/DSL/ShaderDSL.swift:99-104 | offering a global keeps the invariant, growing the list exactly when the name is new |
| `Program.AddLocalKeeps` | framework/Source/DSL/ShaderDSL.swift:306-313 | appending a newly named local keeps the invariant, and looking the name up then finds it |
| `Program.Shader.constructor` | framework/Source/DSL/ShaderDSL.swift:9-12 | a new shader holds the given precision (low by default) and has no objects, globals, functions or current function |
| `Program.Shader.SetPrecision` | framework/Source/DSL/ShaderDSL.swift:7 | the precision field is stored and nothing else changes |
| `Program.Shader.BeginFunction` | framework/Source/DSL/ShaderDSL.swift:21-25 | exactly one empty function is appended to `functions` and becomes current |
| `Program.Shader.EndFunction` | framework/Source/DSL/ShaderDSL.swift:27 | the current function is cleared and nothing else changes |
| `Program.Shader.FunctionAddStatement` | framework/Source/DSL/ShaderDSL.swift:78-80 | the statement is appended to that function only |
| `Program.Shader.AddStatement` | framework/Source/DSL/ShaderDSL.swift:32-39 | the statement goes to the current function; with none, nothing changes |
| `Program.Shader.AddConstant` | framework/Source/DSL/ShaderDSL.swift:227-230 | a constant object is appended to the arena and nothing else changes |
| `Program.Shader.SetVariablePrecision` | framework/Source/DSL/ShaderDSL.swift:183 | one object's precision is stored and nothing else changes |
| `Program.Shader.AddGlobal` | framework/Source/DSL/ShaderDSL.swift:99-104 | a global is appended exactly when no registered global has its name, otherwise the list is unchanged; global names stay distinct |
| `Program.Shader.GlobalVariable` | framework/Source/DSL/ShaderDSL.swift:356-404 | a container subscript builds a fresh global with the container's qualifier on every request and offers it to `add(global:)`; qualifier `.none` is a fault |
| `Program.Shader.LocalVariable` | framework/Source/DSL/ShaderDSL.swift:304-352 | a known name returns the stored object and changes nothing (a fault if it is of another class); a new name appends exactly one local of the requested kind; a later lookup of the name finds the same object |
| `Program.Shader.NewStatement` | framework/Source/DSL/Statement.swift:18-25 | the constructed statement is appended to the arena with the flags `Construct` leaves; nothing is registered |
| `Program.Shader.Register` | framework/Source/DSL/ShaderOperators.swift:80-90 | a statement goes to the left variable's function, else to the shader's current function, and is a fault when the variable has neither function nor shader |
| `Program.Shader.Assign` | framework/Source/DSL/ShaderOperators.swift:77-91 | `==` builds the assignment (consuming the flag) and registers it by that rule; a statement on the left, or an orphaned variable, is a fault |
| `Program.Shader.AddAssign` | framework/Source/DSL/ShaderOperators.swift:93-107 | `+=` appends an addAndAssign statement without a first assignment, registered by the same rule, and changes no variable |
| `Program.Shader.AssignInt` | framework/Source/DSL/ShaderOperators.swift:109-112 | `gint == Int` is exactly `lhs == gint(value: n)`: the new constant, the constructed assignment (consuming the flag) and its registration by the rule of `==`; an orphaned left side is a fault that changes nothing; the new statement renders `<target> = <decimal n>` |
| `Program.Shader.Multiply` | framework/Source/DSL/ShaderOperators.swift:121-123 | `vec2 * gfloat` appends a multiplication statement that no function receives |
| `Program.Shader.Subtract` | framework/Source/DSL/ShaderOperators.swift:125-127 | `vec2 - statement` appends a subtraction statement that no function receives |
| `Program.Shader.Add` | framework/Source/DSL/ShaderOperators.swift:129-131 | `vec2 + statement` appends an addition statement that no function receives |
| `Program.Shader.MultiplyByNumber` | framework/Source/DSL/ShaderOperators.swift:133-136 | `vec2 * Double` wraps the number in a gfloat constant and multiplies by it |
| `Program.Shader.MultiplyStatementByNumber` | framework/Source/DSL/ShaderOperators.swift:138-141 | `statement * Double` wraps the number in a gfloat constant and multiplies by it |
| `Program.Shader.Texture2DCall` | framework/Source/DSL/ShaderDSL.swift:437-446 | `texture2D` appends a texture2D statement over the sampler and the coordinates |
| `Program.Shader.Vec2FromFloats` | framework/Source/DSL/ShaderDSL.swift:473-477 | `vec2(_:_:)` appends a vec2 that refers to the two gfloat objects |
| `Program.Shader.Vec4XY` | framework/Source/DSL/ShaderOperators.swift:6-12 | `xy` is a fresh vec2 named `<referenceValue>.xy` with the vec4's type tag, function, qualifier and shader; the vec4's missing value or scope is a fault |
| `Program.Shader.Count` | framework/Source/DSL/ShaderArray.swift:26-34 | the stored count is the number the declaration reference shows |
| `Program.Shader.Indices` | framework/Source/DSL/ShaderArray.swift:36-42 | `startIndex` is 0 and `endIndex` is the number of elements |
| `Program.Shader.SetCount` | framework/Source/DSL/ShaderArray.swift:31-33 | the count setter stores the count and leaves the elements and everything else alone |
| `Program.Shader.Element` | framework/Source/DSL/ShaderArray.swift:52-74 | the index getter builds a fresh gfloat or vec2 named `<name>[<position>]` in the array's scope; a nameless array or another element type is a fault |
| `Program.Shader.SetElement` | framework/Source/DSL/ShaderArray.swift:75-77 | the index setter replaces only that position and keeps the count; a position out of range is a fault |
| `Program.Shader.Slice` | framework/Source/DSL/ShaderArray.swift:80-83 | the range getter builds a new nameless array of those elements; an invalid range is a fault |
| `Program.Shader.SetSlice` | framework/Source/DSL/ShaderArray.swift:84-86 | the range setter replaces those elements with the source's, keeping the count; an invalid range is a fault |
| `Program.Shader.FunctionDescription` | framework/Source/DSL/ShaderDSL.swift:288-300 | the loop computes exactly the function text |
| `Program.Shader.GlobalsDescription` | framework/Source/DSL/ShaderDSL.swift:117-125 | the loop computes exactly the globals section |
| `Program.Shader.FunctionsDescription` | framework/Source/DSL/ShaderDSL.swift:127-130 | the loop computes exactly the functions section |
| `Program.Shader.Description` | framework/Source/DSL/ShaderDSL.swift:115-134 | `description` is the globals section, one newline and the functions section, a function of the state that changes nothing |

## Left out

- `framework/Source/Operations/GaussianBlur.swift` is not part of this model. That covers its blur mathematics, GPU compilation, bundle I/O and shader preprocessing.
- The text of Float and Double literals: a `FloatLit` carries the text Swift would print, and the model never computes it.
- `print` diagnostics: `Shader.addStatement` without a current function only prints, and the model changes nothing.
- The missing-operand guards of the three renderers cannot be reached, because `Statement.init` takes non-optional operands. Operands are therefore not optional in the model.
- Weak references: an object is never freed while the shader holds it, so the back-references are plain ids.
- The closures of `makeFunction` and `buildShader` are not modelled as values. `buildShader` is a new `Shader` followed by the closure's builder calls.
- Swift's generics and `Collection` conformance: `index(after:)`, `index(before:)` and the `as! Element` cast on an array element are not modelled.
- The unused `shader: String` field of `Shader` is not modelled.
- Outside code may assign the stored properties `name`, `realValue`, `x`, `y`, `xReference`, `yReference` and `uniformInitialValue` after construction. Those setters are not modelled, because the DSL itself never assigns them. Of the variable's settable properties, only `precision` (`SetVariablePrecision`) is modelled.
- A vec4 with an initial value is nameless, so its `= vec4(<d>;` declaration is reached only through a name assigned from outside the DSL. The model keeps the text as written but nothing in the builder reaches it.
- Integer width: Swift's `Int` is 64-bit, while the model's integers are unbounded. No builder operation does arithmetic on them.
