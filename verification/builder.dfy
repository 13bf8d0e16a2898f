/** Expression::expressionToNodes: the postfix expression is split on
    spaces, each token is classified, and an operand stack of nodes is
    folded into one tree.

    The stack is a sequence whose last element is the top. Two things the
    source leaves undefined are made explicit: reading or popping an empty
    stack in the middle of the fold is the fault `StackUnderflow`, and the
    final pop of an empty stack (no operand at all) is the empty outcome
    `Success(None)`. */
module Builder {
  import opened Wrappers
  import opened Strings
  import opened CodeEntity
  import opened Lexical
  import opened Nodes
  import opened Errors
  import opened SymbolTable

  /** What the builder reads: the expression with its tables, the operator
      table, and whether QString::toFloat or QString::toDouble reads a token
      as a non-zero number (floating point is not part of this model). */
  datatype Context = Context(table: Expression, ops: OperationTable, nonZeroReal: string -> bool)

  /** How the fold stops early: an exception the source throws, or an empty
      stack read or popped in the middle of the fold. */
  datatype Fault = Raised(exception: TEException) | StackUnderflow(token: string)

  type Stack = seq<Node>

  // ---------------------------------------------------------------------
  // getEntityTypeByStr

  /** isConst: QString::toInt, toFloat or toDouble gives a non-zero value, so
      "0" is not a constant. */
  predicate IsConst(c: Context, s: string) {
    ToInt(s) != 0 || c.nonZeroReal(s)
  }

  /** getEntityTypeByStr: the tests in the source's order. isVariable
      throws InvalidSymbol instead of answering false, so the classifier
      never answers Undefined. */
  function Classify(c: Context, s: string): (r: Result<EntityType, TEException>)
    ensures r.Success? ==> r.value != Undefined
    ensures r.Failure? ==> r.error == Raise(InvalidSymbol, [s]) && !IsIdentifier(s)
  {
    if IsConst(c, s) then Success(Const)
    else if IsFunction(s) then Success(Function)
    else if IsCustomTypeWithFields(c.table, s) then Success(CustomTypeWithFields)
    else if IsEnum(c.table, s) then Success(Enum)
    else if GetOperationTypeByStr(c.ops, s) != NoOperation then Success(Operation)
    else if IsIdentifier(s) then Success(Variable)
    else Failure(Raise(InvalidSymbol, [s]))
  }

  /** The kinds in the order getEntityTypeByStr tries their tests. */
  const Priority: seq<EntityType> := [Const, Function, CustomTypeWithFields, Enum, Operation, Variable]

  /** The test of one kind, on its own. */
  predicate Passes(c: Context, s: string, k: EntityType) {
    match k
    case Const => IsConst(c, s)
    case Function => IsFunction(s)
    case CustomTypeWithFields => IsCustomTypeWithFields(c.table, s)
    case Enum => IsEnum(c.table, s)
    case Operation => GetOperationTypeByStr(c.ops, s) != NoOperation
    case Variable => IsIdentifier(s)
    case Undefined => false
  }

  /** The reference reading of a priority list: the first kind whose test
      passes, InvalidSymbol when none does. */
  function FirstPassing(c: Context, s: string, ks: seq<EntityType>): Result<EntityType, TEException> {
    if |ks| == 0 then Failure(Raise(InvalidSymbol, [s]))
    else if Passes(c, s, ks[0]) then Success(ks[0])
    else FirstPassing(c, s, ks[1..])
  }

  /** What the reference reading answers: a kind of the list whose test
      passes and before which no test passes, or failure exactly when no
      test passes. */
  lemma {:induction false} FirstPassingMeaning(c: Context, s: string, ks: seq<EntityType>)
    ensures var r := FirstPassing(c, s, ks);
      r.Success? ==> r.value in ks && Passes(c, s, r.value)
    ensures FirstPassing(c, s, ks).Failure? <==> forall i :: 0 <= i < |ks| ==> !Passes(c, s, ks[i])
    ensures var r := FirstPassing(c, s, ks);
      r.Success? ==>
        exists j :: 0 <= j < |ks| && ks[j] == r.value &&
          forall i :: 0 <= i < j ==> !Passes(c, s, ks[i])
    decreases |ks|
  {
    if |ks| > 0 {
      var tail := ks[1..];
      FirstPassingMeaning(c, s, tail);
      assert forall i :: 0 < i < |ks| ==> ks[i] == tail[i - 1];
      var r := FirstPassing(c, s, ks);
      if Passes(c, s, ks[0]) {
        assert ks[0] == r.value;
      } else if r.Success? {
        var j :| 0 <= j < |tail| && tail[j] == r.value &&
          forall i :: 0 <= i < j ==> !Passes(c, s, tail[i]);
        assert ks[j + 1] == r.value;
        assert forall i :: 0 <= i < j + 1 ==> !Passes(c, s, ks[i]) by {
          forall i | 0 <= i < j + 1 ensures !Passes(c, s, ks[i]) {
            if i > 0 { assert ks[i] == tail[i - 1]; }
          }
        }
      }
    }
  }

  lemma FirstPassingStep(c: Context, s: string, i: nat)
    requires i < |Priority|
    ensures FirstPassing(c, s, Priority[i..]) ==
      if Passes(c, s, Priority[i]) then Success(Priority[i]) else FirstPassing(c, s, Priority[i + 1..])
  {
    assert Priority[i..][0] == Priority[i] && Priority[i..][1..] == Priority[i + 1..];
  }

  /** The chain of tests and the priority walk agree on every word. */
  lemma ClassifyAgreesWithPriority(c: Context, s: string)
    ensures Classify(c, s) == FirstPassing(c, s, Priority)
  {
    assert Priority[0..] == Priority;
    FirstPassingStep(c, s, 0);
    if !IsConst(c, s) {
      AgreesFromFunction(c, s);
    }
  }

  lemma AgreesFromFunction(c: Context, s: string)
    requires !IsConst(c, s)
    ensures Classify(c, s) == FirstPassing(c, s, Priority[1..])
  {
    assert Priority[1] == Function;
    FirstPassingStep(c, s, 1);
    if !IsFunction(s) {
      AgreesFromAggregate(c, s);
    }
  }

  lemma AgreesFromAggregate(c: Context, s: string)
    requires !IsConst(c, s) && !IsFunction(s)
    ensures Classify(c, s) == FirstPassing(c, s, Priority[2..])
  {
    assert Priority[2] == CustomTypeWithFields;
    FirstPassingStep(c, s, 2);
    if !IsCustomTypeWithFields(c.table, s) {
      AgreesFromEnum(c, s);
    }
  }

  lemma AgreesFromEnum(c: Context, s: string)
    requires !IsConst(c, s) && !IsFunction(s) && !IsCustomTypeWithFields(c.table, s)
    ensures Classify(c, s) == FirstPassing(c, s, Priority[3..])
  {
    assert Priority[3] == Enum;
    FirstPassingStep(c, s, 3);
    if !IsEnum(c.table, s) {
      AgreesFromOperation(c, s);
    }
  }

  lemma AgreesFromOperation(c: Context, s: string)
    requires !IsConst(c, s) && !IsFunction(s) && !IsCustomTypeWithFields(c.table, s) && !IsEnum(c.table, s)
    ensures Classify(c, s) == FirstPassing(c, s, Priority[4..])
  {
    assert Priority[4] == Operation;
    FirstPassingStep(c, s, 4);
    assert Priority[5] == Variable;
    FirstPassingStep(c, s, 5);
    assert Priority[6..] == [];
  }

  /** The classifier answers a kind whose test passes and before which, in
      the source's order, no test passes; it fails exactly when no test
      passes. */
  lemma ClassifyTakesFirstPassing(c: Context, s: string)
    ensures Classify(c, s).Success? ==> Classify(c, s).value in Priority && Passes(c, s, Classify(c, s).value)
    ensures Classify(c, s).Failure? <==> forall i :: 0 <= i < |Priority| ==> !Passes(c, s, Priority[i])
    ensures Classify(c, s).Success? ==>
      exists j :: 0 <= j < |Priority| && Priority[j] == Classify(c, s).value &&
          forall i :: 0 <= i < j ==> !Passes(c, s, Priority[i])
  {
    ClassifyAgreesWithPriority(c, s);
    FirstPassingMeaning(c, s, Priority);
  }

  // ---------------------------------------------------------------------
  // Tokens

  /** A word of the expression with what getEntityTypeByStr answers for it.
      The source classifies each word inside its loop; classifying is pure
      and the fold stops at the first failing token before it looks at a
      later one, so classifying every word first builds the same tree and
      reports the same error (ExpressionToNodesLoop below classifies on the
      fly and agrees with the token-level fold). */
  datatype Token = Token(text: string, kind: Result<EntityType, TEException>)

  function Lex(c: Context, words: seq<string>): (ts: seq<Token>)
    ensures |ts| == |words|
    ensures forall k :: 0 <= k < |words| ==> ts[k].text == words[k]
  {
    if |words| == 0 then [] else [Token(words[0], Classify(c, words[0]))] + Lex(c, words[1..])
  }

  /** The words a token sequence was made from. */
  function Texts(ts: seq<Token>): (ws: seq<string>)
    ensures |ws| == |ts|
    ensures forall k :: 0 <= k < |ts| ==> ws[k] == ts[k].text
  {
    if |ts| == 0 then [] else [ts[0].text] + Texts(ts[1..])
  }

  /** Lexing keeps the words. */
  lemma LexKeepsWords(c: Context, ws: seq<string>)
    ensures Texts(Lex(c, ws)) == ws
  {
  }

  /** Every token carries its own word's class. */
  lemma {:induction false} LexAt(c: Context, ws: seq<string>, k: nat)
    requires k < |ws|
    ensures Lex(c, ws)[k] == Token(ws[k], Classify(c, ws[k]))
    decreases k
  {
    if k > 0 {
      LexAt(c, ws[1..], k - 1);
    }
  }

  /** A concatenation is lexed piece by piece. */
  lemma {:induction false} LexConcat(c: Context, a: seq<string>, b: seq<string>)
    ensures Lex(c, a + b) == Lex(c, a) + Lex(c, b)
    decreases |a|
  {
    if |a| > 0 {
      var head := [Token(a[0], Classify(c, a[0]))];
      assert (a + b)[0] == a[0] && (a + b)[1..] == a[1..] + b;
      LexConcat(c, a[1..], b);
      assert Lex(c, a + b) == head + (Lex(c, a[1..]) + Lex(c, b));
      assert head + (Lex(c, a[1..]) + Lex(c, b)) == (head + Lex(c, a[1..])) + Lex(c, b);
    } else {
      assert a + b == b;
    }
  }

  lemma LexThree(c: Context, x: string, y: string, z: string)
    ensures Lex(c, [x, y, z]) == [Token(x, Classify(c, x)), Token(y, Classify(c, y)), Token(z, Classify(c, z))]
  {
    LexAt(c, [x, y, z], 0);
    LexAt(c, [x, y, z], 1);
    LexAt(c, [x, y, z], 2);
  }

  // ---------------------------------------------------------------------
  // One token

  function Top(st: Stack): Node
    requires |st| > 0
  {
    st[|st| - 1]
  }

  /** An operator token. Two or more operands and a binary operator: pop
      right, then left. One operand and a unary operator, or the
      subtraction operator: pop it, and subtraction becomes unary minus.
      Otherwise fewer than two operands is MissingOperand, more than two is
      MissingOperations naming the top; exactly two with a unary operator
      pushes a node without children on top of both. */
  function OperationStep(c: Context, tok: string, st: Stack): (r: Result<Stack, Fault>)
    ensures r.Success? ==>
      |r.value| > 0 && Top(r.value).nodeType == Operation && Top(r.value).value == tok &&
      |r.value| <= |st| + 1 && r.value[..|r.value| - 1] == st[..|r.value| - 1]
    ensures r.Failure? ==>
      r.error == Raised(Raise(MissingOperand, [tok])) ||
      (|st| > 2 && r.error == Raised(Raise(MissingOperations, [Top(st).value])))
  {
    var n := |st|;
    var arity := OperatorAt(c.ops, tok).arity;
    var t := GetOperationTypeByStr(c.ops, tok);
    if n >= 2 && arity == Binary then
      Success(st[..n - 2] + [Node(Operation, tok, Some(st[n - 2]), Some(st[n - 1]), "", t)])
    else if n == 1 && (arity == Unary || t == Subtraction) then
      Success([Node(Operation, tok, Some(st[0]), None, "", if t == Subtraction then UnaryMinus else t)])
    else if n < 2 then Failure(Raised(Raise(MissingOperand, [tok])))
    else if n > 2 then Failure(Raised(Raise(MissingOperations, [st[n - 1].value])))
    else Success(st + [Node(Operation, tok, None, None, "", t)])
  }

  /** A variable token. Its declared type, when it has one; otherwise the
      type comes from the node on top of the stack and the next token: a
      field of the top node's type before ".", the top node's enumeration
      before "::". What is stored is the field's name, as the source does.
      A variable whose type stays empty is an UndefinedId. */
  function VariableStep(c: Context, tok: string, next: Option<string>, st: Stack): (r: Result<Stack, Fault>)
    ensures r.Success? ==>
      |r.value| == |st| + 1 && r.value[..|st|] == st &&
      Top(r.value).nodeType == Variable && Top(r.value).value == tok && Top(r.value).dataType != "" &&
      Taken(Top(r.value)) == 0
    ensures r.Failure? ==>
      r.error == Raised(Raise(UndefinedId, [tok])) || (|st| == 0 && r.error == StackUnderflow(tok))
  {
    var declared := GetVarByName(c.table, tok).typeName;
    if declared != "" then Success(st + [Leaf(Variable, tok, declared)])
    else if |st| == 0 then Failure(StackUnderflow(tok))
    else
      var top := Top(st);
      var inferred :=
        if next == Some(".") then GetVariableByNameFromCustomData(c.table, tok, top.dataType).name
        else if next == Some("::") then (if IsEnumValue(c.table, tok, top.value) then top.value else "")
        else "";
      if inferred != "" then Success(st + [Leaf(Variable, tok, inferred)])
      else Failure(Raised(Raise(UndefinedId, [tok])))
  }

  /** The data type the source settles on for a function-call token, when
      the stack can be read: the declared return type, else the name of the
      method of the top node's type before "." (looked up with the whole
      token, parentheses included), else empty. */
  function CallType(c: Context, tok: string, next: Option<string>, st: Stack): string
    requires |st| > 0 || GetFuncByName(c.table, CallName(tok)).typeName != ""
  {
    var declared := GetFuncByName(c.table, CallName(tok)).typeName;
    if declared != "" then declared
    else if next == Some(".") then GetFunctionByNameFromCustomData(c.table, tok, Top(st).dataType).name
    else ""
  }

  /** How many nodes a loop of `count` pops: none for a negative count. */
  function ArgCount(count: int): nat {
    if count < 0 then 0 else count
  }

  /** A function-call token "name(N)": with a known type and N equal to the
      declared parameter count, the top N nodes become the call's arguments
      in the order they were pushed. */
  function FunctionStep(c: Context, tok: string, next: Option<string>, st: Stack): (r: Result<Stack, Fault>)
    ensures r.Success? ==>
      var m := |r.value| - 1;
      m >= 0 && m <= |st| && r.value[..m] == st[..m] &&
      Top(r.value).nodeType == Function && Top(r.value).value == CallName(tok) &&
      Top(r.value).args == Args(st[m..]) && Top(r.value).left.None? && Top(r.value).right.None? &&
      |st[m..]| == ArgCount(GetFuncByName(c.table, CallName(tok)).paramsCount)
    ensures r.Failure? ==>
      r.error == Raised(Raise(UndefinedId, [CallName(tok)])) ||
      r.error == Raised(Raise(ParamsCountFunctionMissmatch, [tok])) ||
      r.error == StackUnderflow(tok)
  {
    var name := CallName(tok);
    var count := ToInt(CallDigits(tok));
    var decl := GetFuncByName(c.table, name);
    if decl.typeName == "" && |st| == 0 then Failure(StackUnderflow(tok))
    else if CallType(c, tok, next, st) == "" then Failure(Raised(Raise(UndefinedId, [name])))
    else if count != decl.paramsCount then Failure(Raised(Raise(ParamsCountFunctionMissmatch, [tok])))
    else if count < 0 then
      Success(st + [Node(Function, name, None, None, GetFuncByName(c.table, tok).typeName, NoOperation, Args([]))])
    else if count > |st| then Failure(StackUnderflow(tok))
    else
      var m := |st| - count;
      Success(st[..m] + [Node(Function, name, None, None, GetFuncByName(c.table, tok).typeName, NoOperation, Args(st[m..]))])
  }

  /** One token of the loop. An aggregate's name pushes nothing. */
  function TokenStep(c: Context, t: Token, next: Option<string>, st: Stack): Result<Stack, Fault> {
    match t.kind
    case Failure(e) => Failure(Raised(e))
    case Success(kind) =>
      match kind
      case Operation => OperationStep(c, t.text, st)
      case Const => Success(st + [Leaf(Const, t.text)])
      case Variable => VariableStep(c, t.text, next, st)
      case Enum => Success(st + [Leaf(Enum, t.text)])
      case Function => FunctionStep(c, t.text, next, st)
      case CustomTypeWithFields => Success(st)
      case Undefined => Success(st)
  }

  // ---------------------------------------------------------------------
  // The fold

  /** The word after position i, which the loop looks ahead to. */
  function NextAfter(ts: seq<Token>, i: nat): Option<string> {
    if i + 1 < |ts| then Some(ts[i + 1].text) else None
  }

  /** The loop after its first n tokens: the stack so far, or the fault
      that stopped it. */
  function Run(c: Context, ts: seq<Token>, n: nat): Result<Stack, Fault>
    requires n <= |ts|
  {
    if n == 0 then Success([])
    else match Run(c, ts, n - 1)
      case Failure(f) => Failure(f)
      case Success(st) => TokenStep(c, ts[n - 1], NextAfter(ts, n - 1), st)
  }

  /** After the last token: more than one node left is MissingOperations
      naming the top one; one node is the tree; none is the empty outcome. */
  function Finish(st: Stack): Result<Option<Node>, Fault> {
    if |st| > 1 then Failure(Raised(Raise(MissingOperations, [Top(st).value])))
    else if |st| == 1 then Success(Some(st[0]))
    else Success(None)
  }

  function Assemble(c: Context, ts: seq<Token>): Result<Option<Node>, Fault> {
    match Run(c, ts, |ts|)
    case Failure(f) => Failure(f)
    case Success(st) => Finish(st)
  }

  function ExpressionToNodes(c: Context): Result<Option<Node>, Fault> {
    Assemble(c, Lex(c, SplitOnSpace(c.table.expression)))
  }

  /** The source's loop: each word is classified when it is reached, with
      the next word at hand, and the first fault ends the loop. */
  method ExpressionToNodesLoop(c: Context) returns (r: Result<Option<Node>, Fault>)
    ensures r == ExpressionToNodes(c)
  {
    var words := SplitOnSpace(c.table.expression);
    ghost var ts := Lex(c, words);
    var st: Stack := [];
    var i := 0;
    while i < |words|
      invariant 0 <= i <= |words|
      invariant Run(c, ts, i) == Success(st)
    {
      var tok := Token(words[i], Classify(c, words[i]));
      var next := if i + 1 < |words| then Some(words[i + 1]) else None;
      var step := TokenStep(c, tok, next, st);
      assert Run(c, ts, i + 1) == step by {
        LexAt(c, words, i);
        assert ts[i] == tok && NextAfter(ts, i) == next;
        RunStep(c, ts, i, st);
      }
      if step.Failure? {
        FaultPersists(c, ts, i + 1, |ts|);
        return Failure(step.error);
      }
      st := step.value;
      i := i + 1;
    }
    r := Finish(st);
  }

  /** One more token: the step applied to the stack so far. */
  lemma RunStep(c: Context, ts: seq<Token>, n: nat, st: Stack)
    requires n < |ts| && Run(c, ts, n) == Success(st)
    ensures Run(c, ts, n + 1) == TokenStep(c, ts[n], NextAfter(ts, n), st)
  {
  }

  /** A constant token is pushed as a leaf and nothing else changes. */
  lemma PushConstant(c: Context, t: Token, next: Option<string>, st: Stack)
    requires t.kind == Success(Const)
    ensures TokenStep(c, t, next, st) == Success(st + [Leaf(Const, t.text)])
  {
  }

  /** A loop that ends with one node on the stack yields that node. */
  lemma AssembleSingle(c: Context, ts: seq<Token>, root: Node)
    requires Run(c, ts, |ts|) == Success([root])
    ensures Assemble(c, ts) == Success(Some(root))
  {
  }

  /** Once a token has failed the loop is over: every longer prefix
      reports the same fault. */
  lemma {:induction false} FaultPersists(c: Context, ts: seq<Token>, n: nat, m: nat)
    requires n <= m <= |ts| && Run(c, ts, n).Failure?
    ensures Run(c, ts, m) == Run(c, ts, n)
    decreases m - n
  {
    if m > n {
      FaultPersists(c, ts, n, m - 1);
    }
  }

  // ---------------------------------------------------------------------
  // Nodes are neither lost nor invented

  /** The number of nodes in all the trees on the stack. */
  function Total(st: Stack): nat {
    if |st| == 0 then 0 else Size(st[0]) + Total(st[1..])
  }

  /** How many new nodes a token brings: one for every token that pushes
      or combines, none for an aggregate's name. */
  function Adds(t: Token): nat {
    if t.kind.Success? && t.kind.value != CustomTypeWithFields && t.kind.value != Undefined then 1 else 0
  }

  function AddedBy(ts: seq<Token>): nat {
    if |ts| == 0 then 0 else AddedBy(ts[..|ts| - 1]) + Adds(ts[|ts| - 1])
  }

  lemma {:induction false} TotalConcat(a: Stack, b: Stack)
    ensures Total(a + b) == Total(a) + Total(b)
    decreases |a|
  {
    if |a| == 0 {
      assert a + b == b;
    } else {
      assert (a + b)[0] == a[0] && (a + b)[1..] == a[1..] + b;
      TotalConcat(a[1..], b);
    }
  }

  lemma {:induction false} ArgsSizeIsTotal(n: Node, xs: seq<Node>)
    requires forall i | 0 <= i < |xs| :: xs[i] < n
    ensures ArgsSize(n, xs) == Total(xs)
    decreases |xs|
  {
    if |xs| > 0 {
      ArgsSizeIsTotal(n, xs[1..]);
    }
  }

  /** A stack with its last two nodes apart. */
  lemma TotalLastTwo(st: Stack)
    requires |st| >= 2
    ensures Total(st) == Total(st[..|st| - 2]) + Size(st[|st| - 2]) + Size(st[|st| - 1])
  {
    var n := |st|;
    var pair := [st[n - 2], st[n - 1]];
    assert st == st[..n - 2] + pair;
    TotalConcat(st[..n - 2], pair);
    assert pair[1..] == [st[n - 1]] && [st[n - 1]][1..] == [];
  }

  lemma PushOne(st: Stack, x: Node)
    ensures Total(st + [x]) == Total(st) + Size(x)
  {
    TotalConcat(st, [x]);
  }

  /** An operator node takes as many subtrees off the stack as it holds,
      and brings one node of its own. */
  lemma OperationStepEffect(c: Context, tok: string, st: Stack)
    requires OperationStep(c, tok, st).Success?
    ensures var r := OperationStep(c, tok, st).value;
      |r| + Taken(Top(r)) == |st| + 1 && Total(r) == Total(st) + 1
  {
    var n := |st|;
    var r := OperationStep(c, tok, st).value;
    var arity := OperatorAt(c.ops, tok).arity;
    if n >= 2 && arity == Binary {
      TotalLastTwo(st);
      PushOne(st[..n - 2], Top(r));
    } else if n == 1 && (arity == Unary || GetOperationTypeByStr(c.ops, tok) == Subtraction) {
      assert Total(st) == Size(st[0]);
      assert Total(r) == Size(Top(r));
    } else {
      PushOne(st, Top(r));
    }
  }

  /** A node holding the stack's top trees as its arguments replaces them. */
  lemma CallNodeEffect(st: Stack, r: Stack, m: nat)
    requires |r| == m + 1 && m <= |st| && r[..m] == st[..m]
    requires Top(r).left.None? && Top(r).right.None? && Top(r).args == Args(st[m..])
    ensures |r| + Taken(Top(r)) == |st| + 1 && Total(r) == Total(st) + 1
  {
    var top := Top(r);
    assert r == st[..m] + [top];
    assert forall i | 0 <= i < |st[m..]| :: st[m..][i] < top;
    ArgsSizeIsTotal(top, st[m..]);
    PushOne(st[..m], top);
    TotalConcat(st[..m], st[m..]);
    assert st[..m] + st[m..] == st;
  }

  /** A call node takes exactly its arguments off the stack and brings one
      node of its own. */
  lemma FunctionStepEffect(c: Context, tok: string, next: Option<string>, st: Stack)
    requires FunctionStep(c, tok, next, st).Success?
    ensures var r := FunctionStep(c, tok, next, st).value;
      |r| + Taken(Top(r)) == |st| + 1 && Total(r) == Total(st) + 1
  {
    var r := FunctionStep(c, tok, next, st).value;
    CallNodeEffect(st, r, |r| - 1);
  }

  /** A leaf pushed on top brings one node and takes none. */
  lemma LeafEffect(st: Stack, r: Stack)
    requires |r| == |st| + 1 && r[..|st|] == st && Taken(Top(r)) == 0
    ensures |r| + Taken(Top(r)) == |st| + 1 && Total(r) == Total(st) + 1
  {
    assert r == st + [Top(r)];
    assert Size(Top(r)) == 1;
    PushOne(st, Top(r));
  }

  /** Every successful step brings exactly one new node, taking as many
      trees off the stack as the new node holds; an aggregate's name leaves
      the stack as it was. */
  lemma StepEffect(c: Context, t: Token, next: Option<string>, st: Stack)
    requires TokenStep(c, t, next, st).Success?
    ensures var r := TokenStep(c, t, next, st).value;
      if Adds(t) == 0 then r == st
      else |r| > 0 && |r| + Taken(Top(r)) == |st| + 1 && Total(r) == Total(st) + 1
  {
    var r := TokenStep(c, t, next, st).value;
    var k := t.kind.value;
    if k == Operation {
      OperationStepEffect(c, t.text, st);
    } else if k == Function {
      FunctionStepEffect(c, t.text, next, st);
    } else if k == Variable {
      LeafEffect(st, r);
    } else if k == Const || k == Enum {
      assert r == st + [Leaf(k, t.text)];
      LeafEffect(st, r);
    }
  }

  /** Whatever the loop has built so far holds one node per token read
      that is not an aggregate's name. */
  lemma {:induction false} RunTotal(c: Context, ts: seq<Token>, n: nat)
    requires n <= |ts| && Run(c, ts, n).Success?
    ensures Total(Run(c, ts, n).value) == AddedBy(ts[..n])
    decreases n
  {
    if n > 0 {
      if Run(c, ts, n - 1).Success? {
        RunTotal(c, ts, n - 1);
        var st := Run(c, ts, n - 1).value;
        StepEffect(c, ts[n - 1], NextAfter(ts, n - 1), st);
        assert ts[..n][..n - 1] == ts[..n - 1] && ts[..n][n - 1] == ts[n - 1];
      }
    } else {
      assert ts[..0] == [];
    }
  }

  /** The tree holds exactly one node per word of the expression that is
      not an aggregate's name, and there is no tree exactly when no word
      brings a node. */
  lemma TreeSize(c: Context)
    requires ExpressionToNodes(c).Success?
    ensures var ts := Lex(c, SplitOnSpace(c.table.expression));
      var r := ExpressionToNodes(c).value;
      (r.Some? ==> Size(r.value) == AddedBy(ts)) && (r.None? <==> AddedBy(ts) == 0)
  {
    var ts := Lex(c, SplitOnSpace(c.table.expression));
    assert ts[..|ts|] == ts;
    RunTotal(c, ts, |ts|);
    var st := Run(c, ts, |ts|).value;
    if |st| == 1 {
      assert Total(st) == Size(st[0]);
    }
  }

  // ---------------------------------------------------------------------
  // One token, case by case

  /** A binary operator over two or more operands pops the top as its right
      operand and the node below as its left and pushes one node in their
      place; nothing further down changes. */
  lemma BinaryOperatorPopsTwo(c: Context, op: Token, next: Option<string>, st: Stack)
    requires op.kind == Success(Operation) && OperatorAt(c.ops, op.text).arity == Binary && |st| >= 2
    ensures var r := TokenStep(c, op, next, st);
      r.Success? && |r.value| == |st| - 1 && r.value[..|st| - 2] == st[..|st| - 2] &&
      Top(r.value) == Node(Operation, op.text, Some(st[|st| - 2]), Some(Top(st)), "", GetOperationTypeByStr(c.ops, op.text))
  {
    assert TokenStep(c, op, next, st) == OperationStep(c, op.text, st);
  }

  /** The subtraction operator over a single operand is unary minus with
      that operand on the left. */
  lemma SubtractionOnOneOperandIsUnaryMinus(c: Context, op: Token, next: Option<string>, x: Node)
    requires op.kind == Success(Operation) && GetOperationTypeByStr(c.ops, op.text) == Subtraction
    ensures TokenStep(c, op, next, [x]) == Success([Node(Operation, op.text, Some(x), None, "", UnaryMinus)])
  {
    assert TokenStep(c, op, next, [x]) == OperationStep(c, op.text, [x]);
  }

  /** A unary operator takes a lone operand; over exactly two it pushes a
      node without children on top of both, and over more than two it is
      MissingOperations naming the top. */
  lemma UnaryOperatorOperands(c: Context, op: Token, next: Option<string>, st: Stack)
    requires op.kind == Success(Operation) && OperatorAt(c.ops, op.text).arity == Unary
    ensures var t := GetOperationTypeByStr(c.ops, op.text);
      |st| == 1 ==> (TokenStep(c, op, next, st) ==
        Success([Node(Operation, op.text, Some(st[0]), None, "", if t == Subtraction then UnaryMinus else t)]))
    ensures |st| == 2 ==> (TokenStep(c, op, next, st) ==
      Success(st + [Node(Operation, op.text, None, None, "", GetOperationTypeByStr(c.ops, op.text))]))
    ensures |st| > 2 ==> TokenStep(c, op, next, st) == Failure(Raised(Raise(MissingOperations, [Top(st).value])))
  {
    assert TokenStep(c, op, next, st) == OperationStep(c, op.text, st);
  }

  /** An operator is MissingOperand exactly when the stack is empty, or
      holds one operand and the operator is binary and not subtraction. */
  lemma MissingOperandExactly(c: Context, op: Token, next: Option<string>, st: Stack)
    requires op.kind == Success(Operation)
    ensures TokenStep(c, op, next, st) == Failure(Raised(Raise(MissingOperand, [op.text]))) <==>
      |st| == 0 ||
      (|st| == 1 && OperatorAt(c.ops, op.text).arity == Binary && GetOperationTypeByStr(c.ops, op.text) != Subtraction)
  {
    assert TokenStep(c, op, next, st) == OperationStep(c, op.text, st);
  }

  /** How a variable gets its type: the declared one; otherwise, with a
      node on top of the stack, the name of the field of the top node's
      type before ".", or the top node's enumeration when the variable is
      one of its values before "::"; anything else is an UndefinedId. */
  lemma VariableTyping(c: Context, v: Token, next: Option<string>, st: Stack)
    requires v.kind == Success(Variable)
    ensures var declared := GetVarByName(c.table, v.text).typeName;
      declared != "" ==> TokenStep(c, v, next, st) == Success(st + [Leaf(Variable, v.text, declared)])
    ensures GetVarByName(c.table, v.text).typeName == "" && |st| == 0 ==>
      TokenStep(c, v, next, st) == Failure(StackUnderflow(v.text))
    ensures GetVarByName(c.table, v.text).typeName == "" && |st| > 0 && next == Some(".") ==>
      var field := GetVariableByNameFromCustomData(c.table, v.text, Top(st).dataType).name;
      TokenStep(c, v, next, st) ==
        if field != "" then Success(st + [Leaf(Variable, v.text, field)])
        else Failure(Raised(Raise(UndefinedId, [v.text])))
    ensures GetVarByName(c.table, v.text).typeName == "" && |st| > 0 && next == Some("::") ==>
      TokenStep(c, v, next, st) ==
        if Top(st).value != "" && IsEnumValue(c.table, v.text, Top(st).value) then
          Success(st + [Leaf(Variable, v.text, Top(st).value)])
        else Failure(Raised(Raise(UndefinedId, [v.text])))
    ensures GetVarByName(c.table, v.text).typeName == "" && |st| > 0 && next != Some(".") && next != Some("::") ==>
      TokenStep(c, v, next, st) == Failure(Raised(Raise(UndefinedId, [v.text])))
  {
    assert TokenStep(c, v, next, st) == VariableStep(c, v.text, next, st);
  }

  /** A call with a declared return type: a numeral other than the declared
      parameter count is ParamsCountFunctionMissmatch; otherwise that many
      nodes leave the top of the stack and become the arguments, in the
      order they were pushed. The node's data type is looked up with the
      whole token, parentheses included. */
  lemma FunctionPopsArguments(c: Context, f: Token, next: Option<string>, st: Stack)
    requires f.kind == Success(Function) && GetFuncByName(c.table, CallName(f.text)).typeName != ""
    ensures var count := ToInt(CallDigits(f.text));
      count != GetFuncByName(c.table, CallName(f.text)).paramsCount ==>
        TokenStep(c, f, next, st) == Failure(Raised(Raise(ParamsCountFunctionMissmatch, [f.text])))
    ensures var count := ToInt(CallDigits(f.text));
      count == GetFuncByName(c.table, CallName(f.text)).paramsCount && 0 <= count <= |st| ==>
        TokenStep(c, f, next, st) == Success(st[..|st| - count] +
          [Node(Function, CallName(f.text), None, None, GetFuncByName(c.table, f.text).typeName, NoOperation,
            Args(st[|st| - count..]))])
  {
    assert TokenStep(c, f, next, st) == FunctionStep(c, f.text, next, st);
    assert CallType(c, f.text, next, st) == GetFuncByName(c.table, CallName(f.text)).typeName;
  }

  // ---------------------------------------------------------------------
  // Whole expressions

  predicate IsToken(t: string) {
    |t| > 0 && Lacks(t, ' ')
  }

  predicate AllTokens(words: seq<string>) {
    forall k :: 0 <= k < |words| ==> IsToken(words[k])
  }

  lemma TokensAppend(xs: seq<string>, x: string)
    requires AllTokens(xs) && IsToken(x)
    ensures AllTokens(xs + [x])
  {
    assert forall k :: 0 <= k < |xs| ==> (xs + [x])[k] == xs[k];
  }

  lemma ThreeTokens(x: string, y: string, z: string)
    requires IsToken(x) && IsToken(y) && IsToken(z)
    ensures AllTokens([x, y, z])
  {
  }

  /** An expression written as words joined by single spaces is built from
      exactly those words. */
  lemma FromJoinedTokens(c: Context, words: seq<string>)
    requires AllTokens(words) && c.table.expression == Join(words, " ")
    ensures ExpressionToNodes(c) == Assemble(c, Lex(c, words))
  {
    SplitJoinRoundTrip(words);
  }

  /** The leaves pushed for a run of constant words, in order. */
  function Constants(xs: seq<string>): (ns: Stack)
    ensures |ns| == |xs|
    ensures forall k :: 0 <= k < |xs| ==> ns[k] == Leaf(Const, xs[k])
  {
    if |xs| == 0 then [] else [Leaf(Const, xs[0])] + Constants(xs[1..])
  }

  /** The first n tokens are constants. */
  predicate ConstantsBefore(ts: seq<Token>, n: nat) {
    n <= |ts| && forall k :: 0 <= k < n ==> ts[k].kind == Success(Const)
  }

  /** Words that read as non-zero numbers lex as constants. */
  lemma LexConstants(c: Context, ws: seq<string>, n: nat)
    requires n <= |ws| && forall k :: 0 <= k < n ==> IsConst(c, ws[k])
    ensures ConstantsBefore(Lex(c, ws), n) && Texts(Lex(c, ws)) == ws
  {
    LexKeepsWords(c, ws);
    forall k | 0 <= k < n
      ensures Lex(c, ws)[k].kind == Success(Const)
    {
      LexAt(c, ws, k);
    }
  }

  lemma ConstantsSnoc(xs: seq<string>, n: nat)
    requires 0 < n <= |xs|
    ensures Constants(xs[..n]) == Constants(xs[..n - 1]) + [Leaf(Const, xs[n - 1])]
  {
  }

  /** Constant tokens are pushed one by one, in order. */
  lemma {:induction false} PushConstants(c: Context, ts: seq<Token>, n: nat)
    requires ConstantsBefore(ts, n)
    ensures Run(c, ts, n) == Success(Constants(Texts(ts)[..n]))
    decreases n
  {
    if n > 0 {
      var xs := Texts(ts);
      var before := Constants(xs[..n - 1]);
      var leaf := Leaf(Const, ts[n - 1].text);
      ConstantsSnoc(xs, n);
      PushConstants(c, ts, n - 1);
      assert Run(c, ts, n) == Success(before + [leaf]) by {
        RunStep(c, ts, n - 1, before);
        PushConstant(c, ts[n - 1], NextAfter(ts, n - 1), before);
      }
    }
  }

  /** The token after a run of constants meets them all on the stack. */
  lemma StepAfterConstants(c: Context, ts: seq<Token>, n: nat)
    requires n < |ts| && ConstantsBefore(ts, n)
    ensures Run(c, ts, n + 1) == TokenStep(c, ts[n], NextAfter(ts, n), Constants(Texts(ts)[..n]))
  {
    PushConstants(c, ts, n);
    RunStep(c, ts, n, Constants(Texts(ts)[..n]));
  }

  /** "1 1 +": a binary operator over two constants is the whole tree. */
  lemma BinaryOfTwoConstants(c: Context, a: string, b: string, op: string)
    requires IsToken(a) && IsToken(b) && IsToken(op) && IsConst(c, a) && IsConst(c, b)
    requires Classify(c, op) == Success(Operation) && OperatorAt(c.ops, op).arity == Binary
    requires c.table.expression == Join([a, b, op], " ")
    ensures ExpressionToNodes(c) ==
      Success(Some(Node(Operation, op, Some(Leaf(Const, a)), Some(Leaf(Const, b)), "", GetOperationTypeByStr(c.ops, op))))
  {
    ThreeTokens(a, b, op);
    LexThree(c, a, b, op);
    BinaryOfTwoConstantTokens(c, Lex(c, [a, b, op]));
    FromJoinedTokens(c, [a, b, op]);
  }

  lemma BinaryOfTwoConstantTokens(c: Context, ts: seq<Token>)
    requires |ts| == 3 && ConstantsBefore(ts, 2)
    requires ts[2].kind == Success(Operation) && OperatorAt(c.ops, ts[2].text).arity == Binary
    ensures Assemble(c, ts) == Success(Some(Node(Operation, ts[2].text,
      Some(Leaf(Const, ts[0].text)), Some(Leaf(Const, ts[1].text)), "", GetOperationTypeByStr(c.ops, ts[2].text))))
  {
    var st := [Leaf(Const, ts[0].text), Leaf(Const, ts[1].text)];
    PushConstants(c, ts, 2);
    assert Constants(Texts(ts)[..2]) == st;
    BinaryOperatorPopsTwo(c, ts[2], None, st);
  }

  /** "1 2 3 4 5 sum(5)": a call over as many constants as it declares takes
      all of them as arguments, in the order written. */
  lemma FunctionOverConstants(c: Context, xs: seq<string>, f: string)
    requires AllTokens(xs) && IsToken(f) && forall k :: 0 <= k < |xs| ==> IsConst(c, xs[k])
    requires Classify(c, f) == Success(Function) && GetFuncByName(c.table, CallName(f)).typeName != ""
    requires ToInt(CallDigits(f)) == |xs| == GetFuncByName(c.table, CallName(f)).paramsCount
    requires c.table.expression == Join(xs + [f], " ")
    ensures ExpressionToNodes(c) == Success(Some(
      Node(Function, CallName(f), None, None, GetFuncByName(c.table, f).typeName, NoOperation, Args(Constants(xs)))))
  {
    TokensAppend(xs, f);
    CallAfterConstantWords(c, xs, f);
    FromJoinedTokens(c, xs + [f]);
  }

  lemma CallAfterConstantWords(c: Context, xs: seq<string>, f: string)
    requires forall k :: 0 <= k < |xs| ==> IsConst(c, xs[k])
    requires Classify(c, f) == Success(Function) && GetFuncByName(c.table, CallName(f)).typeName != ""
    requires ToInt(CallDigits(f)) == |xs| == GetFuncByName(c.table, CallName(f)).paramsCount
    ensures Assemble(c, Lex(c, xs + [f])) == Success(Some(
      Node(Function, CallName(f), None, None, GetFuncByName(c.table, f).typeName, NoOperation, Args(Constants(xs)))))
  {
    var ws := xs + [f];
    var ts := Lex(c, ws);
    assert forall k :: 0 <= k < |xs| ==> ws[k] == xs[k];
    LexConstants(c, ws, |xs|);
    LexAt(c, ws, |xs|);
    assert ts[|ts| - 1] == Token(f, Success(Function));
    assert Texts(ts)[..|ts| - 1] == xs;
    CallAfterConstants(c, ts);
  }

  lemma CallAfterConstants(c: Context, ts: seq<Token>)
    requires |ts| > 0 && ConstantsBefore(ts, |ts| - 1)
    requires ts[|ts| - 1].kind == Success(Function)
    requires GetFuncByName(c.table, CallName(ts[|ts| - 1].text)).typeName != ""
    requires ToInt(CallDigits(ts[|ts| - 1].text)) == |ts| - 1 == GetFuncByName(c.table, CallName(ts[|ts| - 1].text)).paramsCount
    ensures var f := ts[|ts| - 1].text;
      Assemble(c, ts) == Success(Some(Node(Function, CallName(f), None, None,
        GetFuncByName(c.table, f).typeName, NoOperation, Args(Constants(Texts(ts)[..|ts| - 1])))))
  {
    var f := ts[|ts| - 1].text;
    CallTakesAll(c, ts);
    AssembleSingle(c, ts, Node(Function, CallName(f), None, None,
      GetFuncByName(c.table, f).typeName, NoOperation, Args(Constants(Texts(ts)[..|ts| - 1]))));
  }

  /** The call pops every constant before it, leaving itself alone on the
      stack. */
  lemma CallTakesAll(c: Context, ts: seq<Token>)
    requires |ts| > 0 && ConstantsBefore(ts, |ts| - 1)
    requires ts[|ts| - 1].kind == Success(Function)
    requires GetFuncByName(c.table, CallName(ts[|ts| - 1].text)).typeName != ""
    requires ToInt(CallDigits(ts[|ts| - 1].text)) == |ts| - 1 == GetFuncByName(c.table, CallName(ts[|ts| - 1].text)).paramsCount
    ensures var f := ts[|ts| - 1].text;
      Run(c, ts, |ts|) == Success([Node(Function, CallName(f), None, None,
        GetFuncByName(c.table, f).typeName, NoOperation, Args(Constants(Texts(ts)[..|ts| - 1])))])
  {
    var n := |ts| - 1;
    var f := ts[n].text;
    var args := Constants(Texts(ts)[..n]);
    var call := Node(Function, CallName(f), None, None, GetFuncByName(c.table, f).typeName, NoOperation, Args(args));
    StepAfterConstants(c, ts, n);
    FunctionPopsArguments(c, ts[n], NextAfter(ts, n), args);
    assert args[..|args| - n] == [] && args[|args| - n..] == args;
    assert TokenStep(c, ts[n], NextAfter(ts, n), args) == Success([] + [call]);
    assert [] + [call] == [call];
  }

  /** Operands with no operator: MissingOperations naming the last one. */
  lemma LeftoverOperands(c: Context, xs: seq<string>)
    requires AllTokens(xs) && |xs| >= 2 && forall k :: 0 <= k < |xs| ==> IsConst(c, xs[k])
    requires c.table.expression == Join(xs, " ")
    ensures ExpressionToNodes(c) == Failure(Raised(Raise(MissingOperations, [xs[|xs| - 1]])))
  {
    LeftoverWords(c, xs);
    FromJoinedTokens(c, xs);
  }

  lemma LeftoverWords(c: Context, xs: seq<string>)
    requires |xs| >= 2 && forall k :: 0 <= k < |xs| ==> IsConst(c, xs[k])
    ensures Assemble(c, Lex(c, xs)) == Failure(Raised(Raise(MissingOperations, [xs[|xs| - 1]])))
  {
    LexConstants(c, xs, |xs|);
    LeftoverTokens(c, Lex(c, xs));
  }

  lemma LeftoverTokens(c: Context, ts: seq<Token>)
    requires |ts| >= 2 && ConstantsBefore(ts, |ts|)
    ensures Assemble(c, ts) == Failure(Raised(Raise(MissingOperations, [ts[|ts| - 1].text])))
  {
    PushConstants(c, ts, |ts|);
    assert Texts(ts)[..|ts|] == Texts(ts);
    FinishConstants(Texts(ts));
  }

  lemma FinishConstants(xs: seq<string>)
    requires |xs| >= 2
    ensures Finish(Constants(xs)) == Failure(Raised(Raise(MissingOperations, [xs[|xs| - 1]])))
  {
    assert Top(Constants(xs)).value == xs[|xs| - 1];
  }

  /** "1 1 $": a word no test accepts stops the build with InvalidSymbol,
      whatever came before it and whatever follows. */
  lemma InvalidSymbolStops(c: Context, xs: seq<string>, bad: string, rest: seq<string>)
    requires AllTokens(xs + [bad] + rest) && forall k :: 0 <= k < |xs| ==> IsConst(c, xs[k])
    requires forall i :: 0 <= i < |Priority| ==> !Passes(c, bad, Priority[i])
    requires c.table.expression == Join(xs + [bad] + rest, " ")
    ensures ExpressionToNodes(c) == Failure(Raised(Raise(InvalidSymbol, [bad])))
  {
    ClassifyTakesFirstPassing(c, bad);
    InvalidWordAfterConstants(c, xs, bad, rest);
    FromJoinedTokens(c, xs + [bad] + rest);
  }

  lemma InvalidWordAfterConstants(c: Context, xs: seq<string>, bad: string, rest: seq<string>)
    requires forall k :: 0 <= k < |xs| ==> IsConst(c, xs[k])
    requires Classify(c, bad).Failure?
    ensures Assemble(c, Lex(c, xs + [bad] + rest)) == Failure(Raised(Raise(InvalidSymbol, [bad])))
  {
    var ws := xs + [bad] + rest;
    assert ws[|xs|] == bad;
    assert forall k :: 0 <= k < |xs| ==> ws[k] == xs[k];
    LexConstants(c, ws, |xs|);
    LexAt(c, ws, |xs|);
    InvalidAfterConstants(c, Lex(c, ws), |xs|);
  }

  lemma InvalidAfterConstants(c: Context, ts: seq<Token>, n: nat)
    requires n < |ts| && ConstantsBefore(ts, n) && ts[n].kind.Failure?
    ensures Assemble(c, ts) == Failure(Raised(ts[n].kind.error))
  {
    StepAfterConstants(c, ts, n);
    FaultPersists(c, ts, n + 1, |ts|);
  }

  lemma {:induction false} BlankSplitsToNothing(s: string)
    requires forall i :: 0 <= i < |s| ==> s[i] == ' '
    ensures SplitOnSpace(s) == []
    decreases |s|
  {
    if |s| > 0 {
      BlankSplitsToNothing(s[1..]);
    }
  }

  /** An empty or blank expression pushes nothing; the final pop of the
      empty stack, undefined in the source, is read as no tree. */
  lemma BlankExpression(c: Context)
    requires forall i :: 0 <= i < |c.table.expression| ==> c.table.expression[i] == ' '
    ensures ExpressionToNodes(c) == Success(None)
  {
    BlankSplitsToNothing(c.table.expression);
  }

  /** An aggregate's name on its own pushes nothing, so the build ends
      with the same pop of an empty stack, read as no tree rather than an
      error. */
  lemma LoneTypeNameBuildsNothing(c: Context, name: string)
    requires IsToken(name) && Classify(c, name) == Success(CustomTypeWithFields)
    requires c.table.expression == name
    ensures ExpressionToNodes(c) == Success(None)
  {
    LexAt(c, [name], 0);
    LoneTypeNameTokens(c, Lex(c, [name]));
    FromJoinedTokens(c, [name]);
  }

  lemma LoneTypeNameTokens(c: Context, ts: seq<Token>)
    requires |ts| == 1 && ts[0].kind == Success(CustomTypeWithFields)
    ensures Assemble(c, ts) == Success(None)
  {
    assert Run(c, ts, 1) == Success([]);
  }

  /** "tostring(1)" against a declared count of 2: the mismatch is
      reported before any operand is looked at. */
  lemma ParamsCountMismatch(c: Context, xs: seq<string>, f: string)
    requires AllTokens(xs + [f]) && forall k :: 0 <= k < |xs| ==> IsConst(c, xs[k])
    requires Classify(c, f) == Success(Function) && GetFuncByName(c.table, CallName(f)).typeName != ""
    requires ToInt(CallDigits(f)) != GetFuncByName(c.table, CallName(f)).paramsCount
    requires c.table.expression == Join(xs + [f], " ")
    ensures ExpressionToNodes(c) == Failure(Raised(Raise(ParamsCountFunctionMissmatch, [f])))
  {
    MismatchAfterConstantWords(c, xs, f);
    FromJoinedTokens(c, xs + [f]);
  }

  lemma MismatchAfterConstantWords(c: Context, xs: seq<string>, f: string)
    requires forall k :: 0 <= k < |xs| ==> IsConst(c, xs[k])
    requires Classify(c, f) == Success(Function) && GetFuncByName(c.table, CallName(f)).typeName != ""
    requires ToInt(CallDigits(f)) != GetFuncByName(c.table, CallName(f)).paramsCount
    ensures Assemble(c, Lex(c, xs + [f])) == Failure(Raised(Raise(ParamsCountFunctionMissmatch, [f])))
  {
    var ws := xs + [f];
    assert forall k :: 0 <= k < |xs| ==> ws[k] == xs[k];
    LexConstants(c, ws, |xs|);
    LexAt(c, ws, |xs|);
    MismatchAfterConstants(c, Lex(c, ws));
  }

  lemma MismatchAfterConstants(c: Context, ts: seq<Token>)
    requires |ts| > 0 && ConstantsBefore(ts, |ts| - 1)
    requires ts[|ts| - 1].kind == Success(Function)
    requires GetFuncByName(c.table, CallName(ts[|ts| - 1].text)).typeName != ""
    requires ToInt(CallDigits(ts[|ts| - 1].text)) != GetFuncByName(c.table, CallName(ts[|ts| - 1].text)).paramsCount
    ensures Assemble(c, ts) == Failure(Raised(Raise(ParamsCountFunctionMissmatch, [ts[|ts| - 1].text])))
  {
    var n := |ts| - 1;
    StepAfterConstants(c, ts, n);
    FunctionPopsArguments(c, ts[n], NextAfter(ts, n), Constants(Texts(ts)[..n]));
  }

  /** "newApple sort .": a variable without a declared type before "."
      takes the name of the field of the object's type. */
  lemma FieldAccess(c: Context, obj: string, field: string, dot: string)
    requires dot == "."
    requires IsToken(obj) && IsToken(field)
    requires Classify(c, obj) == Success(Variable) && GetVarByName(c.table, obj).typeName != ""
    requires Classify(c, field) == Success(Variable) && GetVarByName(c.table, field).typeName == ""
    requires GetVariableByNameFromCustomData(c.table, field, GetVarByName(c.table, obj).typeName).name != ""
    requires Classify(c, dot) == Success(Operation) && OperatorAt(c.ops, dot).arity == Binary
    requires c.table.expression == Join([obj, field, dot], " ")
    ensures var objType := GetVarByName(c.table, obj).typeName;
      ExpressionToNodes(c) == Success(Some(Node(Operation, dot,
        Some(Leaf(Variable, obj, objType)),
        Some(Leaf(Variable, field, GetVariableByNameFromCustomData(c.table, field, objType).name)),
        "", GetOperationTypeByStr(c.ops, dot))))
  {
    ThreeTokens(obj, field, dot);
    LexThree(c, obj, field, dot);
    FieldAccessTokens(c, Lex(c, [obj, field, dot]));
    FromJoinedTokens(c, [obj, field, dot]);
  }

  lemma FieldAccessTokens(c: Context, ts: seq<Token>)
    requires |ts| == 3
    requires ts[0].kind == Success(Variable) && GetVarByName(c.table, ts[0].text).typeName != ""
    requires ts[1].kind == Success(Variable) && GetVarByName(c.table, ts[1].text).typeName == ""
    requires GetVariableByNameFromCustomData(c.table, ts[1].text, GetVarByName(c.table, ts[0].text).typeName).name != ""
    requires ts[2].text == "." && ts[2].kind == Success(Operation) && OperatorAt(c.ops, ts[2].text).arity == Binary
    ensures var objType := GetVarByName(c.table, ts[0].text).typeName;
      Assemble(c, ts) == Success(Some(Node(Operation, ts[2].text,
        Some(Leaf(Variable, ts[0].text, objType)),
        Some(Leaf(Variable, ts[1].text, GetVariableByNameFromCustomData(c.table, ts[1].text, objType).name)),
        "", GetOperationTypeByStr(c.ops, ts[2].text))))
  {
    var objType := GetVarByName(c.table, ts[0].text).typeName;
    var first := Leaf(Variable, ts[0].text, objType);
    var second := Leaf(Variable, ts[1].text, GetVariableByNameFromCustomData(c.table, ts[1].text, objType).name);
    ObjectThenField(c, ts);
    BinaryOperatorPopsTwo(c, ts[2], None, [first, second]);
    assert Run(c, ts, 3) == TokenStep(c, ts[2], None, [first, second]);
  }

  lemma ObjectThenField(c: Context, ts: seq<Token>)
    requires |ts| == 3
    requires ts[0].kind == Success(Variable) && GetVarByName(c.table, ts[0].text).typeName != ""
    requires ts[1].kind == Success(Variable) && GetVarByName(c.table, ts[1].text).typeName == ""
    requires GetVariableByNameFromCustomData(c.table, ts[1].text, GetVarByName(c.table, ts[0].text).typeName).name != ""
    requires ts[2].text == "."
    ensures var objType := GetVarByName(c.table, ts[0].text).typeName;
      Run(c, ts, 2) == Success([
        Leaf(Variable, ts[0].text, objType),
        Leaf(Variable, ts[1].text, GetVariableByNameFromCustomData(c.table, ts[1].text, objType).name)])
  {
    var objType := GetVarByName(c.table, ts[0].text).typeName;
    var first := Leaf(Variable, ts[0].text, objType);
    VariableTyping(c, ts[0], NextAfter(ts, 0), []);
    RunStep(c, ts, 0, []);
    assert Run(c, ts, 1) == Success([first]);
    VariableTyping(c, ts[1], NextAfter(ts, 1), [first]);
    assert NextAfter(ts, 1) == Some(".") && Top([first]) == first;
    RunStep(c, ts, 1, [first]);
    assert [first] + [Leaf(Variable, ts[1].text, GetVariableByNameFromCustomData(c.table, ts[1].text, objType).name)]
      == [first, Leaf(Variable, ts[1].text, GetVariableByNameFromCustomData(c.table, ts[1].text, objType).name)];
  }

  /** "Fruit Sort ::": a value of an enumeration before "::" takes the
      enumeration's name as its type. */
  lemma EnumValueAccess(c: Context, en: string, val: string, scope: string)
    requires scope == "::"
    requires IsToken(en) && IsToken(val)
    requires Classify(c, en) == Success(Enum)
    requires Classify(c, val) == Success(Variable) && GetVarByName(c.table, val).typeName == ""
    requires IsEnumValue(c.table, val, en)
    requires Classify(c, scope) == Success(Operation) && OperatorAt(c.ops, scope).arity == Binary
    requires c.table.expression == Join([en, val, scope], " ")
    ensures ExpressionToNodes(c) == Success(Some(Node(Operation, scope,
      Some(Leaf(Enum, en)), Some(Leaf(Variable, val, en)), "", GetOperationTypeByStr(c.ops, scope))))
  {
    ThreeTokens(en, val, scope);
    LexThree(c, en, val, scope);
    EnumValueAccessTokens(c, Lex(c, [en, val, scope]));
    FromJoinedTokens(c, [en, val, scope]);
  }

  lemma EnumValueAccessTokens(c: Context, ts: seq<Token>)
    requires |ts| == 3
    requires ts[0].text != "" && ts[0].kind == Success(Enum)
    requires ts[1].kind == Success(Variable) && GetVarByName(c.table, ts[1].text).typeName == ""
    requires IsEnumValue(c.table, ts[1].text, ts[0].text)
    requires ts[2].text == "::" && ts[2].kind == Success(Operation) && OperatorAt(c.ops, ts[2].text).arity == Binary
    ensures Assemble(c, ts) == Success(Some(Node(Operation, ts[2].text,
      Some(Leaf(Enum, ts[0].text)), Some(Leaf(Variable, ts[1].text, ts[0].text)), "",
      GetOperationTypeByStr(c.ops, ts[2].text))))
  {
    var first := Leaf(Enum, ts[0].text);
    var second := Leaf(Variable, ts[1].text, ts[0].text);
    EnumThenValue(c, ts);
    BinaryOperatorPopsTwo(c, ts[2], None, [first, second]);
    assert Run(c, ts, 3) == TokenStep(c, ts[2], None, [first, second]);
  }

  lemma EnumThenValue(c: Context, ts: seq<Token>)
    requires |ts| == 3
    requires ts[0].text != "" && ts[0].kind == Success(Enum)
    requires ts[1].kind == Success(Variable) && GetVarByName(c.table, ts[1].text).typeName == ""
    requires IsEnumValue(c.table, ts[1].text, ts[0].text)
    requires ts[2].text == "::"
    ensures Run(c, ts, 2) == Success([Leaf(Enum, ts[0].text), Leaf(Variable, ts[1].text, ts[0].text)])
  {
    var first := Leaf(Enum, ts[0].text);
    RunStep(c, ts, 0, []);
    assert TokenStep(c, ts[0], NextAfter(ts, 0), []) == Success([] + [first]);
    assert [] + [first] == [first];
    VariableTyping(c, ts[1], NextAfter(ts, 1), [first]);
    assert NextAfter(ts, 1) == Some("::") && Top([first]) == first;
    RunStep(c, ts, 1, [first]);
    assert [first] + [Leaf(Variable, ts[1].text, ts[0].text)] == [first, Leaf(Variable, ts[1].text, ts[0].text)];
  }

  /** "oleg getAge(0) .": a method is looked up in the object's type with
      the whole token, parentheses included, so a type whose methods are
      keyed by plain names does not find it and the call is an UndefinedId
      naming the method. */
  lemma MethodCallLooksUpWholeToken(c: Context, obj: string, f: string, dot: string)
    requires dot == "."
    requires IsToken(obj) && IsToken(f) && IsToken(dot)
    requires Classify(c, obj) == Success(Variable) && GetVarByName(c.table, obj).typeName != ""
    requires Classify(c, f) == Success(Function) && GetFuncByName(c.table, CallName(f)).typeName == ""
    requires GetFunctionByNameFromCustomData(c.table, f, GetVarByName(c.table, obj).typeName).name == ""
    requires c.table.expression == Join([obj, f, dot], " ")
    ensures ExpressionToNodes(c) == Failure(Raised(Raise(UndefinedId, [CallName(f)])))
  {
    ThreeTokens(obj, f, dot);
    LexThree(c, obj, f, dot);
    MethodCallTokens(c, Lex(c, [obj, f, dot]));
    FromJoinedTokens(c, [obj, f, dot]);
  }

  lemma MethodCallTokens(c: Context, ts: seq<Token>)
    requires |ts| == 3
    requires ts[0].kind == Success(Variable) && GetVarByName(c.table, ts[0].text).typeName != ""
    requires ts[1].kind == Success(Function) && GetFuncByName(c.table, CallName(ts[1].text)).typeName == ""
    requires GetFunctionByNameFromCustomData(c.table, ts[1].text, GetVarByName(c.table, ts[0].text).typeName).name == ""
    requires ts[2].text == "."
    ensures Assemble(c, ts) == Failure(Raised(Raise(UndefinedId, [CallName(ts[1].text)])))
  {
    var first := Leaf(Variable, ts[0].text, GetVarByName(c.table, ts[0].text).typeName);
    VariableTyping(c, ts[0], NextAfter(ts, 0), []);
    assert Run(c, ts, 1) == Success([first]);
    assert NextAfter(ts, 1) == Some(".");
    assert CallType(c, ts[1].text, Some("."), [first]) == "";
    assert Run(c, ts, 2) == Failure(Raised(Raise(UndefinedId, [CallName(ts[1].text)])));
    FaultPersists(c, ts, 2, 3);
  }
}
