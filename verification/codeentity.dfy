/** The vocabulary an expression is written over: entity kinds, operator
    kinds and arities, and the declared variables, functions, aggregates
    (class, structure, union) and enumerations.

    Every record has the constructor defaults of the C++ declarations, so
    `VariableDecl()` is the empty-named value that a failed hash lookup
    yields. `OperationType::None` is spelt `NoOperation` here because `None`
    already names the empty Option. */
module CodeEntity {

  datatype EntityType =
    | Operation
    | Const
    | Variable
    | Function
    | CustomTypeWithFields
    | Enum
    | Undefined

  datatype OperationArity = Unary | Binary

  datatype OperationType =
    | PrefixIncrement | PrefixDecrement | ArrayAccess | FieldAccess
    | PointerFieldAccess | Dereference | AddressOf | UnaryMinus | Not
    | And | Or | Multiplication | Division | Modulus | Addition
    | Concatenation | Subtraction | LessThan | GreaterThan
    | LessThanOrEqual | GreaterThanOrEqual | Equal | NotEqual
    | ModulusAssignment | DivisionAssignment | MultiplicationAssignment
    | SubtractionAssignment | AdditionAssignment | Assignment
    | PostfixDecrement | PostfixIncrement | StaticMemberAccess
    | NotLessThan | NotLessThanOrEqual | NotGreaterThan
    | NotGreaterThanOrEqual | PointerIndexAccess | SubtractionSequence
    | DivisionSequence | SingleIncrement | SingleDecrement | FunctionCall
    | NoOperation

  /** What the operator table records for one operator symbol. A
      value-initialised OperatorInfo (what QHash::value answers for a
      missing key) has the first enumerators of both enums. */
  datatype OperatorInfo = OperatorInfo(
    arity: OperationArity := Unary,
    opType: OperationType := PrefixIncrement)

  /** The operator table, keyed by the operator's symbol text. Its contents
      are not part of this model; every operation that needs it takes it as
      a parameter. */
  type OperationTable = map<string, OperatorInfo>

  datatype VariableDecl = VariableDecl(
    name: string := "",
    typeName: string := "",
    description: string := "")

  datatype FunctionDecl = FunctionDecl(
    name: string := "",
    typeName: string := "",
    paramsCount: int := 0,
    description: string := "")

  /** CustomTypeWithFields. Union, Structure and Class derive from it and add
      no data, so one record serves all three; which table an aggregate sits
      in is the only thing that tells them apart. */
  datatype Aggregate = Aggregate(
    name: string := "",
    variables: map<string, VariableDecl> := map[],
    functions: map<string, FunctionDecl> := map[])

  datatype EnumDecl = EnumDecl(
    name: string := "",
    values: map<string, string> := map[])

  /** QHash::value: the stored entry, or the default-constructed one. */
  function VariableAt(m: map<string, VariableDecl>, key: string): (v: VariableDecl)
    ensures key in m ==> v == m[key]
    ensures key !in m ==> v.name == "" && v.typeName == "" && v.description == ""
  {
    if key in m then m[key] else VariableDecl()
  }

  function FunctionAt(m: map<string, FunctionDecl>, key: string): (f: FunctionDecl)
    ensures key in m ==> f == m[key]
    ensures key !in m ==> f.name == "" && f.typeName == "" && f.paramsCount == 0
  {
    if key in m then m[key] else FunctionDecl()
  }

  function AggregateAt(m: map<string, Aggregate>, key: string): (a: Aggregate)
    ensures key in m ==> a == m[key]
    ensures key !in m ==> a.name == "" && a.variables == map[] && a.functions == map[]
  {
    if key in m then m[key] else Aggregate()
  }

  function EnumAt(m: map<string, EnumDecl>, key: string): (e: EnumDecl)
    ensures key in m ==> e == m[key]
    ensures key !in m ==> e.name == "" && e.values == map[]
  {
    if key in m then m[key] else EnumDecl()
  }

  function OperatorAt(m: OperationTable, key: string): (o: OperatorInfo)
    ensures key in m ==> o == m[key]
    ensures key !in m ==> o.arity == Unary && o.opType == PrefixIncrement
  {
    if key in m then m[key] else OperatorInfo()
  }

  /** The constructors store their arguments verbatim and default every
      omitted one to empty (0 for the parameter count). */
  lemma ConstructorsStoreVerbatim(name: string, typeName: string, count: int, description: string)
    ensures VariableDecl(name, typeName, description).name == name
    ensures VariableDecl(name, typeName, description).typeName == typeName
    ensures VariableDecl(name, typeName, description).description == description
    ensures FunctionDecl(name, typeName, count, description).paramsCount == count
    ensures FunctionDecl(name, typeName, count, description).description == description
    ensures VariableDecl() == VariableDecl("", "", "")
    ensures FunctionDecl() == FunctionDecl("", "", 0, "")
    ensures FunctionDecl(name) == FunctionDecl(name, "", 0, "")
  {
  }
}
