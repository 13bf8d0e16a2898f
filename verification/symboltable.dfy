/** Expression as a data holder: the postfix expression text and the six
    tables of declarations it is written over, with the lookups the tree
    builder uses.

    Every table lookup is QHash::value, so a missing key yields the
    default-constructed record, whose name is empty; "not found" is that
    empty name. */
module SymbolTable {
  import opened CodeEntity

  /** The inline constructor: every argument is stored unchanged and every
      omitted one is empty. */
  datatype Expression = Expression(
    expression: string := "",
    variables: map<string, VariableDecl> := map[],
    functions: map<string, FunctionDecl> := map[],
    unions: map<string, Aggregate> := map[],
    structures: map<string, Aggregate> := map[],
    classes: map<string, Aggregate> := map[],
    enums: map<string, EnumDecl> := map[])

  // ---------------------------------------------------------------------
  // Setters

  function SetExpression(e: Expression, text: string): (r: Expression)
    ensures r.expression == text
    ensures r.variables == e.variables && r.functions == e.functions && r.unions == e.unions
    ensures r.structures == e.structures && r.classes == e.classes && r.enums == e.enums
  {
    e.(expression := text)
  }

  function SetVariables(e: Expression, vars: map<string, VariableDecl>): (r: Expression)
    ensures r.variables == vars
    ensures r.expression == e.expression && r.functions == e.functions && r.unions == e.unions
    ensures r.structures == e.structures && r.classes == e.classes && r.enums == e.enums
  {
    e.(variables := vars)
  }

  function SetFunctions(e: Expression, funcs: map<string, FunctionDecl>): (r: Expression)
    ensures r.functions == funcs
    ensures r.expression == e.expression && r.variables == e.variables && r.unions == e.unions
    ensures r.structures == e.structures && r.classes == e.classes && r.enums == e.enums
  {
    e.(functions := funcs)
  }

  function SetUnions(e: Expression, unns: map<string, Aggregate>): (r: Expression)
    ensures r.unions == unns
    ensures r.expression == e.expression && r.variables == e.variables && r.functions == e.functions
    ensures r.structures == e.structures && r.classes == e.classes && r.enums == e.enums
  {
    e.(unions := unns)
  }

  function SetStructures(e: Expression, strucs: map<string, Aggregate>): (r: Expression)
    ensures r.structures == strucs
    ensures r.expression == e.expression && r.variables == e.variables && r.functions == e.functions
    ensures r.unions == e.unions && r.classes == e.classes && r.enums == e.enums
  {
    e.(structures := strucs)
  }

  function SetClasses(e: Expression, cls: map<string, Aggregate>): (r: Expression)
    ensures r.classes == cls
    ensures r.expression == e.expression && r.variables == e.variables && r.functions == e.functions
    ensures r.unions == e.unions && r.structures == e.structures && r.enums == e.enums
  {
    e.(classes := cls)
  }

  function SetEnums(e: Expression, enms: map<string, EnumDecl>): (r: Expression)
    ensures r.enums == enms
    ensures r.expression == e.expression && r.variables == e.variables && r.functions == e.functions
    ensures r.unions == e.unions && r.structures == e.structures && r.classes == e.classes
  {
    e.(enums := enms)
  }

  // ---------------------------------------------------------------------
  // Lookups by name

  function GetVarByName(e: Expression, name: string): (v: VariableDecl)
    ensures name in e.variables ==> v == e.variables[name]
    ensures name !in e.variables ==> v == VariableDecl()
  {
    VariableAt(e.variables, name)
  }

  function GetFuncByName(e: Expression, name: string): (f: FunctionDecl)
    ensures name in e.functions ==> f == e.functions[name]
    ensures name !in e.functions ==> f == FunctionDecl()
  {
    FunctionAt(e.functions, name)
  }

  function GetEnumByName(e: Expression, name: string): (d: EnumDecl)
    ensures name in e.enums ==> d == e.enums[name]
    ensures name !in e.enums ==> d == EnumDecl()
  {
    EnumAt(e.enums, name)
  }

  /** The aggregate tables laid over one another, unions at the bottom and
      classes on top: a name in several tables sees the topmost entry. */
  function Merged(e: Expression): map<string, Aggregate> {
    e.unions + e.structures + e.classes
  }

  /** getCustomTypeByName: the class of that name, else the structure, else
      the union, else the empty-named default. */
  function GetCustomTypeByName(e: Expression, typeName: string): (t: Aggregate)
    ensures t == AggregateAt(Merged(e), typeName)
    ensures typeName !in Merged(e) ==> t == Aggregate()
  {
    if typeName in e.classes then e.classes[typeName]
    else if typeName in e.structures then e.structures[typeName]
    else if typeName in e.unions then e.unions[typeName]
    else Aggregate()
  }

  /** Field lookup through a custom type: Union, Structure and Class are
      interchangeable; only the table precedence picks the aggregate. */
  function GetVariableByNameFromCustomData(e: Expression, varName: string, dataName: string): (v: VariableDecl)
    ensures dataName in e.classes ==> v == VariableAt(e.classes[dataName].variables, varName)
    ensures dataName !in e.classes && dataName in e.structures ==>
      v == VariableAt(e.structures[dataName].variables, varName)
    ensures dataName !in e.classes && dataName !in e.structures && dataName in e.unions ==>
      v == VariableAt(e.unions[dataName].variables, varName)
    ensures dataName !in Merged(e) ==> v == VariableDecl()
  {
    VariableAt(GetCustomTypeByName(e, dataName).variables, varName)
  }

  /** Method lookup through a custom type, with the same precedence. */
  function GetFunctionByNameFromCustomData(e: Expression, funcName: string, dataName: string): (f: FunctionDecl)
    ensures dataName in e.classes ==> f == FunctionAt(e.classes[dataName].functions, funcName)
    ensures dataName !in e.classes && dataName in e.structures ==>
      f == FunctionAt(e.structures[dataName].functions, funcName)
    ensures dataName !in e.classes && dataName !in e.structures && dataName in e.unions ==>
      f == FunctionAt(e.unions[dataName].functions, funcName)
    ensures dataName !in Merged(e) ==> f == FunctionDecl()
  {
    FunctionAt(GetCustomTypeByName(e, dataName).functions, funcName)
  }

  /** isEnumValue: `value` is a key of the values of the enumeration named
      `enumName`; an unknown enumeration has no values. */
  function IsEnumValue(e: Expression, value: string, enumName: string): (b: bool)
    ensures b <==> enumName in e.enums && value in e.enums[enumName].values
  {
    value in GetEnumByName(e, enumName).values
  }

  /** isCustomTypeWithFields: the name finds an aggregate whose own name is
      not empty. */
  function IsCustomTypeWithFields(e: Expression, s: string): (b: bool)
    ensures b <==> s in Merged(e) && Merged(e)[s].name != ""
  {
    GetCustomTypeByName(e, s).name != ""
  }

  /** isEnum: the name finds an enumeration whose own name is not empty. */
  function IsEnum(e: Expression, s: string): (b: bool)
    ensures b <==> s in e.enums && e.enums[s].name != ""
  {
    GetEnumByName(e, s).name != ""
  }

  /** getOperationTypeByStr: the kind the operator table records for the
      symbol, or None for a symbol it does not hold. */
  function GetOperationTypeByStr(ops: OperationTable, s: string): (t: OperationType)
    ensures s in ops ==> t == ops[s].opType
    ensures s !in ops ==> t == NoOperation
  {
    if s in ops then ops[s].opType else NoOperation
  }

  // ---------------------------------------------------------------------
  // Properties

  /** The precedence of getCustomTypeByName, case by case. */
  lemma CustomTypePrecedence(e: Expression, n: string)
    ensures n in e.classes ==> GetCustomTypeByName(e, n) == e.classes[n]
    ensures n !in e.classes && n in e.structures ==> GetCustomTypeByName(e, n) == e.structures[n]
    ensures n !in e.classes && n !in e.structures && n in e.unions ==>
      GetCustomTypeByName(e, n) == e.unions[n]
    ensures n !in e.classes && n !in e.structures && n !in e.unions ==>
      GetCustomTypeByName(e, n).name == ""
  {
    var t := GetCustomTypeByName(e, n);
    assert t == AggregateAt(Merged(e), n);
    if n in e.classes {
      assert Merged(e)[n] == e.classes[n];
    } else if n in e.structures {
      assert Merged(e)[n] == e.structures[n];
    } else if n in e.unions {
      assert Merged(e)[n] == e.unions[n];
    } else {
      assert n !in Merged(e);
    }
  }

  /** A setter followed by the matching lookup answers from the new table,
      and leaves every other table's lookups as they were. */
  lemma SetThenGet(e: Expression, vars: map<string, VariableDecl>, funcs: map<string, FunctionDecl>, n: string)
    ensures GetVarByName(SetVariables(e, vars), n) == VariableAt(vars, n)
    ensures GetFuncByName(SetVariables(e, vars), n) == GetFuncByName(e, n)
    ensures GetFuncByName(SetFunctions(e, funcs), n) == FunctionAt(funcs, n)
    ensures GetCustomTypeByName(SetFunctions(e, funcs), n) == GetCustomTypeByName(e, n)
  {
    assert Merged(SetFunctions(e, funcs)) == Merged(e);
  }
}
