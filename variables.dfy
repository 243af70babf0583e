/** The variable and value model of the shader DSL: value types, qualifiers,
    precisions, one `Var` record per Swift variable object (gint, gfloat,
    vec2, vec4, sampler2D, ShaderArray), the initialisers that build them,
    and the pure text a variable contributes on its own: its declaration
    line and its declaration reference. The text a variable renders inside
    an expression can name other variables and is in module Statements. */
module Variables {
  import opened Wrappers
  import opened Text

  /** `Shader.ValueType`; its raw value is the GLSL type name. */
  datatype ValueType = IntType | FloatType | Vec2Type | Vec3Type | Vec4Type | Sampler2DType

  function TypeText(t: ValueType): (s: string)
    ensures |s| > 0 && Free(s, ' ') && Free(s, '\n')
  {
    match t
    case IntType => "int"
    case FloatType => "float"
    case Vec2Type => "vec2"
    case Vec3Type => "vec3"
    case Vec4Type => "vec4"
    case Sampler2DType => "sampler2D"
  }

  /** `Variable.Qualifier`; `NoQualifier` is Swift's `.none`. */
  datatype Qualifier = NoQualifier | Uniform | Attribute | Varying | BuiltIn

  function QualifierText(q: Qualifier): (s: string)
    ensures |s| > 0 && Free(s, ' ') && Free(s, '\n')
  {
    match q
    case NoQualifier => "none"
    case Uniform => "uniform"
    case Attribute => "attribute"
    case Varying => "varying"
    case BuiltIn => "builtIn"
  }

  /** Only built-in variables (declared by the shading language itself) are left undeclared. */
  function IsDeclared(q: Qualifier): (b: bool)
    ensures b <==> q != BuiltIn
  {
    match q
    case BuiltIn => false
    case _ => true
  }

  /** `Shader.Precision`; its raw value is the GLSL precision qualifier. */
  datatype Precision = Low | Medium | High

  function PrecisionText(p: Precision): (s: string)
    ensures |s| > 0 && Free(s, ' ') && Free(s, '\n')
  {
    match p
    case Low => "lowp"
    case Medium => "mediump"
    case High => "highp"
  }

  /** A Swift `Float` or `Double`, represented by the text Swift's string
      interpolation writes for it; the model never computes that text. */
  datatype FloatLit = FloatLit(text: string)

  /** The literal `0` as Swift prints a `Float`. */
  const ZeroFloat := FloatLit("0.0")

  /** Which Swift class a variable object belongs to, with that class's own fields.
      Ids are positions in the owning shader's arena of variables. */
  datatype VarKind =
    | GInt(intValue: Option<int>)
    | GFloat(floatValue: Option<FloatLit>)
    | Vec2(x: Option<FloatLit>, y: Option<FloatLit>, xReference: Option<nat>, yReference: Option<nat>)
    | Vec4(uniformInitialValue: Option<FloatLit>)
    | Sampler2D
    | ShaderArray(elements: seq<nat>, count: int)

  /** A `Shader.Variable` object. `inShader` is the weak `shader` back-reference
      (there is one shader per arena) and `function` the weak `function`
      back-reference, as an index into the shader's functions. */
  datatype Var = Var(
    name: Option<string>,
    precision: Option<Precision>,
    qualifier: Qualifier,
    vtype: ValueType,
    needsDeclarationForAssignment: bool,
    needsDeclarationBeforeAssignment: bool,
    inShader: bool,
    func: Option<nat>,
    kind: VarKind)

  /** The builder misuses on which the Swift code calls fatalError (or traps). */
  datatype Fault =
    | GlobalWithoutQualifier
    | MissingScope
    | NamelessDeclaration
    | MissingValue
    | ValueNotImplemented
    | NotAssignable
    | StatementNotDeclarable
    | OrphanedStatement
    | NamelessArraySubscript
    | MissingElementInit
    | WrongKind
    | IndexOutOfRange

  // ---------------------------------------------------------------------
  // Initialisers

  /** The global initialiser: refuses `.none`; a global is never declared inline. */
  function GlobalInit(name: string, t: ValueType, q: Qualifier, kind: VarKind): (r: Result<Var, Fault>)
    ensures r.Failure? <==> q == NoQualifier
    ensures r.Failure? ==> r.error == GlobalWithoutQualifier
    ensures r.Success? ==> r.value.name == Some(name) && r.value.vtype == t && r.value.qualifier == q
    ensures r.Success? ==> !r.value.needsDeclarationForAssignment && !r.value.needsDeclarationBeforeAssignment
    ensures r.Success? ==> r.value.inShader && r.value.func.None? && r.value.precision.None?
    ensures r.Success? ==> r.value.kind == kind
  {
    if q == NoQualifier then Failure(GlobalWithoutQualifier)
    else Success(Var(Some(name), None, q, t, false, false, true, None, kind))
  }

  /** The function-local initialiser: no qualifier, no shader back-reference,
      and declared at its first assignment. */
  function LocalInit(name: string, t: ValueType, f: nat, kind: VarKind): (v: Var)
    ensures v.name == Some(name) && v.vtype == t && v.qualifier == NoQualifier && v.kind == kind
    ensures v.needsDeclarationForAssignment && !v.needsDeclarationBeforeAssignment
    ensures v.func == Some(f) && !v.inShader && v.precision.None?
  {
    Var(Some(name), None, NoQualifier, t, true, false, false, Some(f), kind)
  }

  /** The convenience initialiser: a local when a function is given, otherwise
      a global, which needs a shader. */
  function ScopedInit(name: string, t: ValueType, func: Option<nat>, q: Qualifier,
                      inShader: bool, kind: VarKind): (r: Result<Var, Fault>)
    ensures r.Failure? <==> func.None? && (!inShader || q == NoQualifier)
    ensures r.Failure? && !inShader ==> r.error == MissingScope
    ensures r.Success? ==> r.value.name == Some(name) && r.value.vtype == t && r.value.kind == kind
    ensures r.Success? ==> r.value.func == func
    ensures r.Success? ==> r.value.needsDeclarationForAssignment == func.Some?
    ensures r.Success? ==> r.value.qualifier == (if func.Some? then NoQualifier else q)
  {
    if func.Some? then Success(LocalInit(name, t, func.value, kind))
    else if !inShader then Failure(MissingScope)
    else GlobalInit(name, t, q, kind)
  }

  /** The constant initialiser `init(type:)`: nameless and unscoped. The
      first-assignment flag keeps its default, true. */
  function ConstantInit(t: ValueType, kind: VarKind): (v: Var)
    ensures v.name.None? && v.qualifier == NoQualifier && v.vtype == t && v.kind == kind
    ensures !v.inShader && v.func.None? && v.needsDeclarationForAssignment
  {
    Var(None, None, NoQualifier, t, true, false, false, None, kind)
  }

  /** `gint(value:)`. */
  function IntConstant(n: int): (v: Var)
    ensures v.name.None? && v.vtype == IntType && v.kind == GInt(Some(n))
  {
    ConstantInit(IntType, GInt(Some(n)))
  }

  /** `gfloat(value:)`, which the source tags with type `.int`. */
  function FloatConstant(d: FloatLit): (v: Var)
    ensures v.name.None? && v.vtype == IntType && v.kind == GFloat(Some(d))
  {
    ConstantInit(IntType, GFloat(Some(d)))
  }

  /** `vec2(x:y:)` from two numbers; `vec2()` is `Vec2Literal(ZeroFloat, ZeroFloat)`. */
  function Vec2Literal(x: FloatLit, y: FloatLit): (v: Var)
    ensures v.name.None? && v.vtype == Vec2Type && v.kind == Vec2(Some(x), Some(y), None, None)
  {
    ConstantInit(Vec2Type, Vec2(Some(x), Some(y), None, None))
  }

  /** `vec2(_:_:)` from two gfloat variables, kept by reference. */
  function Vec2Pair(x: nat, y: nat): (v: Var)
    ensures v.name.None? && v.vtype == Vec2Type && v.kind == Vec2(None, None, Some(x), Some(y))
  {
    ConstantInit(Vec2Type, Vec2(None, None, Some(x), Some(y)))
  }

  /** `vec4(_:)` from one number. */
  function Vec4Constant(d: FloatLit): (v: Var)
    ensures v.name.None? && v.vtype == Vec4Type && v.kind == Vec4(Some(d))
  {
    ConstantInit(Vec4Type, Vec4(Some(d)))
  }

  /** `ShaderArray(elements:)`: keeps the elements, leaves the count at 0 and the type at `.vec2`. */
  function ArrayOfElements(es: seq<nat>): (v: Var)
    ensures v.name.None? && v.vtype == Vec2Type && v.kind == ShaderArray(es, 0)
  {
    ConstantInit(Vec2Type, ShaderArray(es, 0))
  }

  /** `ShaderArray(arrayLiteral:)`: discards the supplied elements. */
  function ArrayLiteral(es: seq<nat>): (v: Var)
    ensures v.name.None? && v.vtype == Vec2Type && v.kind == ShaderArray([], 0)
  {
    ConstantInit(Vec2Type, ShaderArray([], 0))
  }

  // ---------------------------------------------------------------------
  // Declaration text

  /** The name as it appears in a declaration: arrays add `[count]`. */
  function NameToken(v: Var): string
    requires v.name.Some?
  {
    if v.kind.ShaderArray? then v.name.value + "[" + IntText(v.kind.count) + "]"
    else v.name.value
  }

  /** The precision word, present only in the embedded (GLES) profile and only when set. */
  function PrecisionWords(v: Var, gles: bool): seq<string>
  {
    if gles && v.precision.Some? then [PrecisionText(v.precision.value)] else []
  }

  /** `Variable.declaration`: the words `<qualifier> [<precision>] <type> <name>;`
      separated by single spaces. */
  function BaseDeclaration(v: Var, gles: bool): Result<Option<string>, Fault>
  {
    if !IsDeclared(v.qualifier) then Success(None)
    else if v.name.None? then Failure(NamelessDeclaration)
    else Success(Some(Join([QualifierText(v.qualifier)] + PrecisionWords(v, gles)
                           + [TypeText(v.vtype), v.name.value + ";"], ' ')))
  }

  /** `vec4.declaration`: with an initial value it writes `<name> = vec4(<value>;` (the
      source writes no closing parenthesis), otherwise the base declaration. */
  function Vec4Declaration(v: Var, gles: bool): Result<Option<string>, Fault>
    requires v.kind.Vec4?
  {
    if !IsDeclared(v.qualifier) then Success(None)
    else if v.name.None? then Failure(NamelessDeclaration)
    else if v.kind.uniformInitialValue.Some? then
      Success(Some(Join([QualifierText(v.qualifier)] + PrecisionWords(v, gles)
                        + [TypeText(v.vtype), v.name.value, "=",
                           "vec4(" + v.kind.uniformInitialValue.value.text + ";"], ' ')))
    else BaseDeclaration(v, gles)
  }

  /** `ShaderArray.declaration`: `<name>[<count>];` with the stored count, never the
      number of elements. */
  function ArrayDeclaration(v: Var, gles: bool): Result<Option<string>, Fault>
    requires v.kind.ShaderArray?
  {
    if !IsDeclared(v.qualifier) then Success(None)
    else if v.name.None? then Failure(NamelessDeclaration)
    else Success(Some(Join([QualifierText(v.qualifier)] + PrecisionWords(v, gles)
                           + [TypeText(v.vtype), v.name.value + "[" + IntText(v.kind.count) + "];"], ' ')))
  }

  /** `declaration`, dispatched on the variable's class as Swift's overriding does.
      Nothing is declared exactly for built-ins; a nameless variable that would
      be declared is a fault. */
  function Declaration(v: Var, gles: bool): (r: Result<Option<string>, Fault>)
    ensures (r.Success? && r.value.None?) <==> v.qualifier == BuiltIn
    ensures r.Failure? <==> (v.qualifier != BuiltIn && v.name.None?)
    ensures r.Failure? ==> r.error == NamelessDeclaration
  {
    match v.kind
    case Vec4(_) => Vec4Declaration(v, gles)
    case ShaderArray(_, _) => ArrayDeclaration(v, gles)
    case _ => BaseDeclaration(v, gles)
  }

  /** `Variable.declarationReference`: `[<precision>] <type> <name>`. */
  function BaseDeclarationReference(v: Var, gles: bool): Result<string, Fault>
  {
    if v.name.None? then Failure(NamelessDeclaration)
    else Success(Join(PrecisionWords(v, gles) + [TypeText(v.vtype), v.name.value], ' '))
  }

  /** `ShaderArray.declarationReference`: `[<precision>] <type> <name>[<count>]`. */
  function ArrayDeclarationReference(v: Var, gles: bool): Result<string, Fault>
    requires v.kind.ShaderArray?
  {
    if v.name.None? then Failure(NamelessDeclaration)
    else Success(Join(PrecisionWords(v, gles)
                      + [TypeText(v.vtype), v.name.value + "[" + IntText(v.kind.count) + "]"], ' '))
  }

  /** `declarationReference`, dispatched on the variable's class; a fault exactly for nameless variables. */
  function DeclarationReference(v: Var, gles: bool): (r: Result<string, Fault>)
    ensures r.Failure? <==> v.name.None?
    ensures r.Failure? ==> r.error == NamelessDeclaration
  {
    if v.kind.ShaderArray? then ArrayDeclarationReference(v, gles) else BaseDeclarationReference(v, gles)
  }

  // ---------------------------------------------------------------------
  // Properties of the declaration text

  lemma NameTokenFree(v: Var, sep: char)
    requires v.name.Some? && Free(v.name.value, sep) && sep != '[' && sep != ']' && sep != ';'
    requires sep == ' ' || sep == '\n'
    ensures Free(NameToken(v), sep) && Free(NameToken(v) + ";", sep)
  {
    if v.kind.ShaderArray? {
      var c := IntText(v.kind.count);
      assert Free(c, sep);
      assert Free(v.name.value + "[" + c, sep);
    }
  }

  /** Word by word, a declaration is `<qualifier> [<precision>] <type> <name>;`, the
      precision word appearing only under GLES with a precision set. */
  lemma DeclarationWords(v: Var, gles: bool)
    requires v.qualifier != BuiltIn && v.name.Some? && Free(v.name.value, ' ')
    requires !(v.kind.Vec4? && v.kind.uniformInitialValue.Some?)
    ensures Declaration(v, gles).Success? && Declaration(v, gles).value.Some?
    ensures Split(Declaration(v, gles).value.value, ' ')
            == [QualifierText(v.qualifier)] + PrecisionWords(v, gles) + [TypeText(v.vtype), NameToken(v) + ";"]
    ensures |Split(Declaration(v, gles).value.value, ' ')| == (if gles && v.precision.Some? then 4 else 3)
  {
    var ws := [QualifierText(v.qualifier)] + PrecisionWords(v, gles) + [TypeText(v.vtype), NameToken(v) + ";"];
    if v.kind.ShaderArray? {
      assert NameToken(v) + ";" == v.name.value + "[" + IntText(v.kind.count) + "];";
    }
    assert Declaration(v, gles).value.value == Join(ws, ' ');
    NameTokenFree(v, ' ');
    SplitJoin(ws, ' ');
  }

  /** Word by word, a declaration reference is `[<precision>] <type> <name>`. */
  lemma DeclarationReferenceWords(v: Var, gles: bool)
    requires v.name.Some? && Free(v.name.value, ' ')
    ensures DeclarationReference(v, gles).Success?
    ensures Split(DeclarationReference(v, gles).value, ' ')
            == PrecisionWords(v, gles) + [TypeText(v.vtype), NameToken(v)]
  {
    var ws := PrecisionWords(v, gles) + [TypeText(v.vtype), NameToken(v)];
    assert DeclarationReference(v, gles).value == Join(ws, ' ');
    NameTokenFree(v, ' ');
    SplitJoin(ws, ' ');
  }

  /** A declaration line is the qualifier, a space, the declaration reference and `;`. */
  lemma DeclarationQualifiesReference(v: Var, gles: bool)
    requires v.qualifier != BuiltIn && v.name.Some?
    requires !(v.kind.Vec4? && v.kind.uniformInitialValue.Some?)
    ensures Declaration(v, gles)
            == Success(Some(QualifierText(v.qualifier) + " " + DeclarationReference(v, gles).value + ";"))
  {
    var q, ws := QualifierText(v.qualifier), PrecisionWords(v, gles) + [TypeText(v.vtype), NameToken(v)];
    DeclarationIsJoin(v, gles);
    DeclarationReferenceIsJoin(v, gles);
    assert ws[..|ws| - 1] + [ws[|ws| - 1] + ";"] == PrecisionWords(v, gles) + [TypeText(v.vtype), NameToken(v) + ";"];
    JoinQualified(q, ws, ' ', ";");
    assert [q] + (ws[..|ws| - 1] + [ws[|ws| - 1] + ";"])
        == [q] + PrecisionWords(v, gles) + [TypeText(v.vtype), NameToken(v) + ";"];
  }

  lemma DeclarationIsJoin(v: Var, gles: bool)
    requires v.qualifier != BuiltIn && v.name.Some?
    requires !(v.kind.Vec4? && v.kind.uniformInitialValue.Some?)
    ensures Declaration(v, gles)
            == Success(Some(Join([QualifierText(v.qualifier)] + PrecisionWords(v, gles)
                                 + [TypeText(v.vtype), NameToken(v) + ";"], ' ')))
  {
    if v.kind.ShaderArray? {
      assert NameToken(v) + ";" == v.name.value + "[" + IntText(v.kind.count) + "];";
    }
  }

  lemma DeclarationReferenceIsJoin(v: Var, gles: bool)
    requires v.name.Some?
    ensures DeclarationReference(v, gles)
            == Success(Join(PrecisionWords(v, gles) + [TypeText(v.vtype), NameToken(v)], ' '))
  {
  }

  /** Neither the declaration nor the declaration reference depends on the assignment flags. */
  lemma DeclarationIgnoresFlags(v: Var, gles: bool, forAssignment: bool, beforeAssignment: bool)
    ensures Declaration(v.(needsDeclarationForAssignment := forAssignment,
                           needsDeclarationBeforeAssignment := beforeAssignment), gles)
            == Declaration(v, gles)
    ensures DeclarationReference(v.(needsDeclarationForAssignment := forAssignment,
                                    needsDeclarationBeforeAssignment := beforeAssignment), gles)
            == DeclarationReference(v, gles)
  {
  }

  /** An array declares its stored count, whatever elements it holds. */
  lemma ArrayDeclaresCount(v: Var, es: seq<nat>, gles: bool)
    requires v.kind.ShaderArray?
    ensures Declaration(v.(kind := ShaderArray(es, v.kind.count)), gles) == Declaration(v, gles)
    ensures DeclarationReference(v.(kind := ShaderArray(es, v.kind.count)), gles) == DeclarationReference(v, gles)
  {
  }

  /** Without an initial value a vec4 declares exactly as any other variable. */
  lemma Vec4WithoutValueIsBase(v: Var, gles: bool)
    requires v.kind == Vec4(None)
    ensures Declaration(v, gles) == BaseDeclaration(v, gles)
  {
  }

  /** Word by word, a vec4 with an initial value d declares as
      `<qualifier> [<precision>] <type> <name> = vec4(<d>;`, with no closing parenthesis. */
  lemma Vec4DeclarationWords(v: Var, gles: bool)
    requires v.qualifier != BuiltIn && v.name.Some? && Free(v.name.value, ' ')
    requires v.kind.Vec4? && v.kind.uniformInitialValue.Some? && Free(v.kind.uniformInitialValue.value.text, ' ')
    ensures Declaration(v, gles).Success? && Declaration(v, gles).value.Some?
    ensures Split(Declaration(v, gles).value.value, ' ')
            == [QualifierText(v.qualifier)] + PrecisionWords(v, gles)
               + [TypeText(v.vtype), v.name.value, "=", "vec4(" + v.kind.uniformInitialValue.value.text + ";"]
  {
    var d := v.kind.uniformInitialValue.value.text;
    var last := "vec4(" + d + ";";
    var ws := [QualifierText(v.qualifier)] + PrecisionWords(v, gles) + [TypeText(v.vtype), v.name.value, "=", last];
    forall i | 0 <= i < |last| ensures last[i] != ' ' {
      if 5 <= i < 5 + |d| { assert last[i] == d[i - 5]; }
    }
    SplitJoin(ws, ' ');
  }
}
