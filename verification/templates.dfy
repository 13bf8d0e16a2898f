/** ExpressionTranslator::Templates: the explanation template of each
    operation, a text naming the operands "{1}" and "{2}". Each entry is
    written as the form it takes, literal texts around numbered
    placeholders, so that the entry's text is its pieces put together. */
module Templates {
  import opened Strings
  import opened CodeEntity
  import opened Placeholders

  /** A template as written: literal text and numbered placeholders. */
  datatype Piece = Text(text: string) | Arg(n: nat)

  function PieceText(p: Piece): string {
    match p
    case Text(t) => t
    case Arg(n) => Canonical(n)
  }

  function Render(ps: seq<Piece>): string
    decreases |ps|
  {
    if |ps| == 0 then "" else PieceText(ps[0]) + Render(ps[1..])
  }

  /** The forms the entries take: a placeholder between two texts, two
      placeholders each after a text, and the same followed by a text and
      operand {1} again; a form that starts with a placeholder has an empty
      leading text. NoEntry stands for a missing key. */
  datatype Form =
    | NoEntry
    | Wrap(lead: string, x: nat, tail: string)
    | Infix(lead: string, x: nat, mid: string, y: nat)
    | Compound(lead: string, x: nat, mid: string, y: nat, tail: string)

  function Pieces(f: Form): seq<Piece> {
    match f
    case NoEntry => []
    case Wrap(lead, x, tail) => [Text(lead), Arg(x), Text(tail)]
    case Infix(lead, x, mid, y) => [Text(lead), Arg(x), Text(mid), Arg(y)]
    case Compound(lead, x, mid, y, tail) => [Text(lead), Arg(x), Text(mid), Arg(y), Text(tail), Arg(1)]
  }

  /** The entry of ExpressionTranslator::Templates for each operation; the
      operations without an entry get NoEntry, which renders as the empty
      text QHash::value answers for a missing key. */
  function Template(op: OperationType): Form {
    match op
    case Addition => Infix("sum of ", 1, " and ", 2)
    case Subtraction => Infix("difference of ", 1, " and ", 2)
    case And => Infix("", 1, " and ", 2)
    case Or => Infix("", 1, " or ", 2)
    case LessThanOrEqual => Infix("", 1, " is less than or equal to ", 2)
    case GreaterThan => Infix("", 1, " is greater than ", 2)
    case NotEqual => Infix("", 1, " is not equal to ", 2)
    case Equal => Infix("", 1, " is equal to ", 2)
    case LessThan => Infix("", 1, " is less than ", 2)
    case GreaterThanOrEqual => Infix("", 1, " is greater than or equal to ", 2)
    case Multiplication => Infix("product of ", 1, " and ", 2)
    case Division => Infix("quotient of ", 1, " and ", 2)
    case Modulus => Infix("remainder of ", 1, " divided by ", 2)
    case Not => Wrap("not ", 1, "")
    case UnaryMinus => Wrap("negation of ", 1, "")
    case AddressOf => Wrap("get the address of the element ", 1, "")
    case Dereference => Wrap("", 1, "")
    case ArrayAccess => Infix("element at index ", 2, " of array ", 1)
    case FieldAccess => Infix("", 1, "\U{2019}s ", 2)
    case PointerFieldAccess => Infix("", 1, "\U{2019}s ", 2)
    case StaticMemberAccess => Infix("", 1, "\U{2019}s ", 2)
    case PrefixIncrement => Wrap("increment ", 1, ", then get\U{2026}")
    case PostfixIncrement => Wrap("get\U{2026}, then increment ", 1, "")
    case PrefixDecrement => Wrap("decrement ", 1, ", then get\U{2026}")
    case PostfixDecrement => Wrap("get\U{2026}, then decrement ", 1, "")
    case Assignment => Infix("assign ", 2, " to ", 1)
    case AdditionAssignment => Compound("add ", 2, " to ", 1, " and assign the result to ")
    case SubtractionAssignment =>
      Compound("subtract ", 2, " from ", 1, " and assign the result to ")
    case MultiplicationAssignment =>
      Compound("multiply ", 1, " by ", 2, " and assign the result to ")
    case DivisionAssignment => Compound("divide ", 1, " by ", 2, " and assign the result to ")
    case ModulusAssignment => Compound("assign the remainder of ", 1, " divided by ", 2, " to ")
    case _ => NoEntry
  }

  function TemplateText(op: OperationType): string {
    Render(Pieces(Template(op)))
  }

  predicate IsBinaryKind(op: OperationType) {
    match op
    case Addition
      | Subtraction
      | And
      | Or
      | LessThanOrEqual
      | GreaterThan
      | NotEqual
      | Equal
      | LessThan
      | GreaterThanOrEqual
      | Multiplication
      | Division
      | Modulus
      | ArrayAccess
      | FieldAccess
      | PointerFieldAccess
      | StaticMemberAccess
      | Assignment
      | AdditionAssignment
      | SubtractionAssignment
      | MultiplicationAssignment
      | DivisionAssignment
      | ModulusAssignment => true
    case _ => false
  }

  predicate IsUnaryKind(op: OperationType) {
    match op
    case Not
      | UnaryMinus
      | AddressOf
      | Dereference
      | PrefixIncrement
      | PostfixIncrement
      | PrefixDecrement
      | PostfixDecrement => true
    case _ => false
  }

  /** Literal text holds no '{' and every placeholder number is a valid
      positive `int`. */
  predicate PieceOk(p: Piece) {
    match p
    case Text(t) => Lacks(t, '{')
    case Arg(n) => 1 <= n <= IntMax
  }

  predicate WellFormedPieces(ps: seq<Piece>)
    decreases |ps|
  {
    |ps| == 0 || (PieceOk(ps[0]) && WellFormedPieces(ps[1..]))
  }

  /** The highest placeholder number of a template, 0 when it has none. */
  function MaxArg(ps: seq<Piece>): nat
    decreases |ps|
  {
    if |ps| == 0 then 0
    else
      var m := MaxArg(ps[1..]);
      if ps[0].Arg? && ps[0].n > m then ps[0].n else m
  }

  predicate Mentions(ps: seq<Piece>, n: nat)
    decreases |ps|
  {
    |ps| > 0 && (ps[0] == Arg(n) || Mentions(ps[1..], n))
  }

  /** A template naming operands {1} and {2} and nothing higher. */
  predicate BinaryEntry(ps: seq<Piece>) {
    WellFormedPieces(ps) && Mentions(ps, 1) && Mentions(ps, 2) && MaxArg(ps) == 2
  }

  /** A template naming operand {1} only. */
  predicate UnaryEntry(ps: seq<Piece>) {
    WellFormedPieces(ps) && Mentions(ps, 1) && !Mentions(ps, 2) && MaxArg(ps) == 1
  }

  /** How the template measures take one more piece in front. */
  lemma PiecesCons(p: Piece, ps: seq<Piece>)
    ensures WellFormedPieces([p] + ps) <==> PieceOk(p) && WellFormedPieces(ps)
    ensures MaxArg([p] + ps) == if p.Arg? && p.n > MaxArg(ps) then p.n else MaxArg(ps)
    ensures forall n :: Mentions([p] + ps, n) <==> p == Arg(n) || Mentions(ps, n)
  {
    assert ([p] + ps)[1..] == ps;
  }

  /** The literal texts of a form hold no '{'. */
  predicate BraceFree(f: Form) {
    match f
    case NoEntry => true
    case Wrap(lead, _, tail) => Lacks(lead, '{') && Lacks(tail, '{')
    case Infix(lead, _, mid, _) => Lacks(lead, '{') && Lacks(mid, '{')
    case Compound(lead, _, mid, _, tail) => Lacks(lead, '{') && Lacks(mid, '{') && Lacks(tail, '{')
  }

  /** The placeholders of a two-operand form are {1} and {2} in some order. */
  predicate BothOperands(f: Form) {
    (f.Infix? || f.Compound?) && ((f.x == 1 && f.y == 2) || (f.x == 2 && f.y == 1))
  }

  lemma WrapEntry(lead: string, tail: string)
    requires Lacks(lead, '{') && Lacks(tail, '{')
    ensures UnaryEntry(Pieces(Wrap(lead, 1, tail)))
  {
    var t := [Text(tail)];
    PiecesCons(Text(tail), []);
    PiecesCons(Arg(1), t);
    PiecesCons(Text(lead), [Arg(1)] + t);
    assert Pieces(Wrap(lead, 1, tail)) == [Text(lead)] + ([Arg(1)] + t);
  }

  lemma InfixEntry(lead: string, x: nat, mid: string, y: nat)
    requires Lacks(lead, '{') && Lacks(mid, '{')
    requires (x == 1 && y == 2) || (x == 2 && y == 1)
    ensures BinaryEntry(Pieces(Infix(lead, x, mid, y)))
  {
    var t := [Arg(y)];
    PiecesCons(Arg(y), []);
    PiecesCons(Text(mid), t);
    PiecesCons(Arg(x), [Text(mid)] + t);
    PiecesCons(Text(lead), [Arg(x)] + ([Text(mid)] + t));
    assert Pieces(Infix(lead, x, mid, y)) == [Text(lead)] + ([Arg(x)] + ([Text(mid)] + t));
  }

  lemma CompoundEntry(lead: string, x: nat, mid: string, y: nat, tail: string)
    requires Lacks(lead, '{') && Lacks(mid, '{') && Lacks(tail, '{')
    requires (x == 1 && y == 2) || (x == 2 && y == 1)
    ensures BinaryEntry(Pieces(Compound(lead, x, mid, y, tail)))
  {
    var t := [Text(tail), Arg(1)];
    PiecesCons(Arg(1), []);
    PiecesCons(Text(tail), [Arg(1)]);
    assert [Text(tail)] + [Arg(1)] == t;
    PiecesCons(Arg(y), t);
    PiecesCons(Text(mid), [Arg(y)] + t);
    PiecesCons(Arg(x), [Text(mid)] + ([Arg(y)] + t));
    PiecesCons(Text(lead), [Arg(x)] + ([Text(mid)] + ([Arg(y)] + t)));
    assert Pieces(Compound(lead, x, mid, y, tail)) == [Text(lead)] + ([Arg(x)] + ([Text(mid)] + ([Arg(y)] + t)));
  }

  /** A form without '{' in its texts whose placeholders are {1} and {2}
      names both operands and nothing higher; one whose one placeholder is
      {1} names that operand only. */
  lemma FormEntry(f: Form)
    requires BraceFree(f)
    ensures BothOperands(f) ==> BinaryEntry(Pieces(f))
    ensures f.Wrap? && f.x == 1 ==> UnaryEntry(Pieces(f))
  {
    match f
    case NoEntry =>
    case Wrap(lead, x, tail) =>
      if x == 1 {
        WrapEntry(lead, tail);
      }
    case Infix(lead, x, mid, y) =>
      if BothOperands(f) {
        InfixEntry(lead, x, mid, y);
      }
    case Compound(lead, x, mid, y, tail) =>
      if BothOperands(f) {
        CompoundEntry(lead, x, mid, y, tail);
      }
  }

  /** Which operations have which form of entry, operation by operation:
      the binary kinds place {1} and {2}, the unary kinds wrap {1}, and
      the rest have no entry. */
  lemma TemplateShape(op: OperationType)
    ensures IsBinaryKind(op) <==> BothOperands(Template(op))
    ensures IsUnaryKind(op) <==> Template(op).Wrap? && Template(op).x == 1
    ensures !IsBinaryKind(op) && !IsUnaryKind(op) <==> Template(op) == NoEntry
  {
    match op
    case PrefixIncrement =>
    case PrefixDecrement =>
    case ArrayAccess =>
    case FieldAccess =>
    case PointerFieldAccess =>
    case Dereference =>
    case AddressOf =>
    case UnaryMinus =>
    case Not =>
    case And =>
    case Or =>
    case Multiplication =>
    case Division =>
    case Modulus =>
    case Addition =>
    case Concatenation =>
    case Subtraction =>
    case LessThan =>
    case GreaterThan =>
    case LessThanOrEqual =>
    case GreaterThanOrEqual =>
    case Equal =>
    case NotEqual =>
    case ModulusAssignment =>
    case DivisionAssignment =>
    case MultiplicationAssignment =>
    case SubtractionAssignment =>
    case AdditionAssignment =>
    case Assignment =>
    case PostfixDecrement =>
    case PostfixIncrement =>
    case StaticMemberAccess =>
    case NotLessThan =>
    case NotLessThanOrEqual =>
    case NotGreaterThan =>
    case NotGreaterThanOrEqual =>
    case PointerIndexAccess =>
    case SubtractionSequence =>
    case DivisionSequence =>
    case SingleIncrement =>
    case SingleDecrement =>
    case FunctionCall =>
    case NoOperation =>
  }

  /** The texts of the entries hold no '{', checked one entry at a time. */
  lemma AdditionBraceFree() ensures BraceFree(Template(Addition)) {}
  lemma SubtractionBraceFree() ensures BraceFree(Template(Subtraction)) {}
  lemma AndBraceFree() ensures BraceFree(Template(And)) {}
  lemma OrBraceFree() ensures BraceFree(Template(Or)) {}
  lemma LessThanOrEqualBraceFree() ensures BraceFree(Template(LessThanOrEqual)) {}
  lemma GreaterThanBraceFree() ensures BraceFree(Template(GreaterThan)) {}
  lemma NotEqualBraceFree() ensures BraceFree(Template(NotEqual)) {}
  lemma EqualBraceFree() ensures BraceFree(Template(Equal)) {}
  lemma LessThanBraceFree() ensures BraceFree(Template(LessThan)) {}
  lemma GreaterThanOrEqualBraceFree() ensures BraceFree(Template(GreaterThanOrEqual)) {}
  lemma MultiplicationBraceFree() ensures BraceFree(Template(Multiplication)) {}
  lemma DivisionBraceFree() ensures BraceFree(Template(Division)) {}
  lemma ModulusBraceFree() ensures BraceFree(Template(Modulus)) {}
  lemma NotBraceFree() ensures BraceFree(Template(Not)) {}
  lemma UnaryMinusBraceFree() ensures BraceFree(Template(UnaryMinus)) {}
  lemma AddressOfBraceFree() ensures BraceFree(Template(AddressOf)) {}
  lemma DereferenceBraceFree() ensures BraceFree(Template(Dereference)) {}
  lemma ArrayAccessBraceFree() ensures BraceFree(Template(ArrayAccess)) {}
  lemma FieldAccessBraceFree() ensures BraceFree(Template(FieldAccess)) {}
  lemma PointerFieldAccessBraceFree() ensures BraceFree(Template(PointerFieldAccess)) {}
  lemma StaticMemberAccessBraceFree() ensures BraceFree(Template(StaticMemberAccess)) {}
  lemma PrefixIncrementBraceFree() ensures BraceFree(Template(PrefixIncrement)) {}
  lemma PostfixIncrementBraceFree() ensures BraceFree(Template(PostfixIncrement)) {}
  lemma PrefixDecrementBraceFree() ensures BraceFree(Template(PrefixDecrement)) {}
  lemma PostfixDecrementBraceFree() ensures BraceFree(Template(PostfixDecrement)) {}
  lemma AssignmentBraceFree() ensures BraceFree(Template(Assignment)) {}
  lemma AdditionAssignmentBraceFree() ensures BraceFree(Template(AdditionAssignment)) {}
  lemma SubtractionAssignmentBraceFree() ensures BraceFree(Template(SubtractionAssignment)) {}
  lemma MultiplicationAssignmentBraceFree() ensures BraceFree(Template(MultiplicationAssignment)) {}
  lemma DivisionAssignmentBraceFree() ensures BraceFree(Template(DivisionAssignment)) {}
  lemma ModulusAssignmentBraceFree() ensures BraceFree(Template(ModulusAssignment)) {}

  lemma TemplateBraceFree(op: OperationType)
    ensures BraceFree(Template(op))
  {
    match op
    case Addition => AdditionBraceFree();
    case Subtraction => SubtractionBraceFree();
    case And => AndBraceFree();
    case Or => OrBraceFree();
    case LessThanOrEqual => LessThanOrEqualBraceFree();
    case GreaterThan => GreaterThanBraceFree();
    case NotEqual => NotEqualBraceFree();
    case Equal => EqualBraceFree();
    case LessThan => LessThanBraceFree();
    case GreaterThanOrEqual => GreaterThanOrEqualBraceFree();
    case Multiplication => MultiplicationBraceFree();
    case Division => DivisionBraceFree();
    case Modulus => ModulusBraceFree();
    case Not => NotBraceFree();
    case UnaryMinus => UnaryMinusBraceFree();
    case AddressOf => AddressOfBraceFree();
    case Dereference => DereferenceBraceFree();
    case ArrayAccess => ArrayAccessBraceFree();
    case FieldAccess => FieldAccessBraceFree();
    case PointerFieldAccess => PointerFieldAccessBraceFree();
    case StaticMemberAccess => StaticMemberAccessBraceFree();
    case PrefixIncrement => PrefixIncrementBraceFree();
    case PostfixIncrement => PostfixIncrementBraceFree();
    case PrefixDecrement => PrefixDecrementBraceFree();
    case PostfixDecrement => PostfixDecrementBraceFree();
    case Assignment => AssignmentBraceFree();
    case AdditionAssignment => AdditionAssignmentBraceFree();
    case SubtractionAssignment => SubtractionAssignmentBraceFree();
    case MultiplicationAssignment => MultiplicationAssignmentBraceFree();
    case DivisionAssignment => DivisionAssignmentBraceFree();
    case ModulusAssignment => ModulusAssignmentBraceFree();
    case _ =>
  }

  /** Every binary operation's text names {1} and {2} and nothing higher;
      every unary operation's text names {1} only; the rest have no entry. */
  lemma TemplateArity(op: OperationType)
    ensures IsBinaryKind(op) ==> BinaryEntry(Pieces(Template(op)))
    ensures IsUnaryKind(op) ==> UnaryEntry(Pieces(Template(op)))
    ensures !IsBinaryKind(op) && !IsUnaryKind(op) ==> TemplateText(op) == ""
  {
    TemplateShape(op);
    TemplateBraceFree(op);
    FormEntry(Template(op));
  }
}
