/** TEException: the error raised anywhere in the program, its kinds, its
    message templates, and the message text `what()` builds from them.

    The message is "Error: ", then `in "<file>" ` when a file name is set,
    then `in line N: ` when the line is positive, then the kind's template;
    when arguments are given, "{1}", "{2}", ... are replaced in the whole
    message one after the other. */
module Errors {
  import opened Strings
  import opened Placeholders

  datatype ErrorType =
    | InputFileNotFound
    | InputCopyFileCannotBeCreated
    | OutputFileCannotBeCreated
    | Parsing
    | MissingRootElemnt
    | UnexpectedElement
    | UnexpectedAttribute
    | MissingRequiredChildElement
    | MissingRequiredAttribute
    | DuplicateElement
    | DuplicateAttribute
    | EmptyElementValue
    | EmptyAttributeName
    | ParamsCountFunctionMissmatch
    | InputSizeExceeded
    | InputElementsExceeded
    | UndefinedId
    | InvalidSymbol
    | InputDataExprSizeExceeded
    | MissingOperand
    | MissingOperations
    | MultipleIncrementDecrement
    | NeverUsedElement
    | ParamsCountDescriptionDifference
    | NonUniqueName
    | InvalidName
    | UnidentifedType
    | InvalidType
    | InvalidParamsCount
    | MissingReplacementArguments
    | VariableWithVoidType

  /** The exception record: kind, file name, line and message arguments. */
  datatype TEException = TEException(
    errorType: ErrorType,
    filename: string,
    line: int,
    args: seq<string>)

  // ---------------------------------------------------------------------
  // The four constructors; the shorter ones delegate to the full one

  function Raise(errorType: ErrorType, args: seq<string> := []): (e: TEException)
    ensures e == TEException(errorType, "", 0, args)
  {
    RaiseAt(errorType, "", 0, args)
  }

  function RaiseInFile(errorType: ErrorType, filename: string, args: seq<string> := []): (e: TEException)
    ensures e == TEException(errorType, filename, 0, args)
  {
    RaiseAt(errorType, filename, 0, args)
  }

  function RaiseAtLine(errorType: ErrorType, line: int, args: seq<string> := []): (e: TEException)
    ensures e == TEException(errorType, "", line, args)
  {
    RaiseAt(errorType, "", line, args)
  }

  function RaiseAt(errorType: ErrorType, filename: string, line: int, args: seq<string> := []): TEException {
    TEException(errorType, filename, line, args)
  }

  /** getErrorType, getLine and getArgs give back what the constructor was
      given, with file name "" and line 0 when the constructor omits them. */
  lemma GettersReturnConstructorValues(k: ErrorType, f: string, n: int, a: seq<string>)
    ensures var e := RaiseAt(k, f, n, a); e.errorType == k && e.filename == f && e.line == n && e.args == a
    ensures var e := RaiseInFile(k, f, a); e.errorType == k && e.filename == f && e.line == 0 && e.args == a
    ensures var e := RaiseAtLine(k, n, a); e.errorType == k && e.filename == "" && e.line == n && e.args == a
    ensures var e := Raise(k, a); e.errorType == k && e.filename == "" && e.line == 0 && e.args == a
    ensures Raise(k).args == []
  {
  }

  // ---------------------------------------------------------------------
  // Message templates

  function Template(k: ErrorType): string {
    match k
    case InputFileNotFound =>
      "invalid input file path. The file may not exist or there is no read access."
    case InputCopyFileCannotBeCreated =>
      "Failed to create a copy of the file {1} in \"{2}\". There may be no write permissions"
    case OutputFileCannotBeCreated =>
      "Invalid output file path. The specified location may not exist or there are no write permissions."
    case Parsing =>
      "a syntax error was detected while processing an XML file."
    case MissingRootElemnt =>
      "The root element <root> is missing."
    case UnexpectedElement =>
      "the element got: <{1}>. The expected: {2}."
    case UnexpectedAttribute =>
      "the attribute got \"{1}\". The expected: {2}."
    case MissingRequiredChildElement =>
      "the element <{1}> is missing."
    case MissingRequiredAttribute =>
      "the attribute \"{1}\" is missing."
    case DuplicateElement =>
      "element \"{1}\" occurs more than the allowed number of times."
    case DuplicateAttribute =>
      "attribute <{1}> occurs more than the allowed number of times."
    case EmptyElementValue =>
      "the value of the <{1}> element is empty."
    case EmptyAttributeName =>
      "the value of the \"{1}\" attribute is empty."
    case ParamsCountFunctionMissmatch =>
      "the number of parameters specified in <expression> ({1}) does not match the specified number in <paramsCount> ({2}) for the \"{3}\" function."
    case InputSizeExceeded =>
      "the text value \"{1}\" exceeded the allowed length. Current - {2}, Expected - {3}."
    case InputElementsExceeded =>
      "the element <{1}> exceeds the allowed number of elements. Current count - {2}, Expected count - {3}."
    case UndefinedId =>
      "the identifier \"{1}\" is not defined in the value of the <expression> element."
    case InvalidSymbol =>
      "the value of the <expression> element contains an invalid character \"{1}\"."
    case MissingOperand =>
      OperationLacksOperands
    case MissingOperations =>
      OperandLacksOperation
    case MultipleIncrementDecrement =>
      "in the context of the <expression> element, the value of the \"{1}\" element cannot be incremented or decremented more than once."
    case NeverUsedElement =>
      "elements: {1} never occurs in element <expression>"
    case ParamsCountDescriptionDifference =>
      "the number of substitutions of sections in the <description> of the <function> element by the description of incoming arguments exceeds the value of the \"paramsCount\" attribute of the <function> element."
    case NonUniqueName =>
      "the value \"{1}\" of the attribute \"name\" for element <{2}> is not unique"
    case InvalidName =>
      "The \"{1}\" value of the \"name\" attribute must begin with a Latin letter or the special character \"_\" (underscore) and contain only Latin letters, numbers, and the special character \"_\" (underscore)."
    case UnidentifedType =>
      "the \"{1}\" value of the \"type\" attribute contains an unidentified type. The data type must be one of the supported types or it can be a user-defined data type described in the elements <unions>; <structures>; <classes>; <enums>."
    case InvalidType =>
      "The \"{1}\" value of the \"type\" attribute must begin with a Latin letter or the special character \"_\" (underscore) and contain only Latin letters, numbers, and the special character \"_\" (underscore)."
    case InvalidParamsCount =>
      "value \"{1}\" of the \"paramsCount\" attribute contains an invalid value. Expected: positive integer from 0 to 20 inclusive."
    case VariableWithVoidType =>
      "the variable \"{1}\" has an invalid data type \"void\". The \"void\" data type can only be used for functions."
    case InputDataExprSizeExceeded => UnknownError
    case MissingReplacementArguments => UnknownError
  }

  const UnknownError: string := "unknown error"

  /** The two texts about a lone operator and a lone operand; the earlier
      version has them under each other's kind. */
  const OperationLacksOperands: string :=
    "in the context of the <expression> element, the operation \"{1}\" lacks an operands."
  const OperandLacksOperation: string :=
    "in the context of the <expression> element, the operand \"{1}\" lacks an operation."

  /** The kinds the message switch has no case for share one text. */
  lemma KindsWithoutCase()
    ensures Template(InputDataExprSizeExceeded) == "unknown error"
    ensures Template(MissingReplacementArguments) == "unknown error"
  {
  }

  // ---------------------------------------------------------------------
  // replacePlaceholders

  /** The pairs ("{1}", args[0]), ("{2}", args[1]), ... */
  function CanonicalPairs(args: seq<string>): (pairs: seq<(string, string)>)
    ensures |pairs| == |args|
    ensures forall i :: 0 <= i < |args| ==> pairs[i] == (Canonical(i + 1), args[i])
  {
    seq(|args|, i requires 0 <= i < |args| => (Canonical(i + 1), args[i]))
  }

  lemma CanonicalPairsHaveKeys(args: seq<string>)
    ensures NonEmptyKeys(CanonicalPairs(args))
  {
  }

  /** For i = 1, 2, ..., |args| in turn, every "{i}" of the pattern (as it
      stands after the previous replacements) becomes args[i-1]. */
  function ReplacePlaceholders(pattern: string, args: seq<string>): string {
    CanonicalPairsHaveKeys(args);
    SeqReplace(pattern, CanonicalPairs(args))
  }

  /** The loop of the source, one QString::replace per argument. */
  method ReplacePlaceholdersLoop(pattern: string, args: seq<string>) returns (r: string)
    ensures r == ReplacePlaceholders(pattern, args)
  {
    var pairs := CanonicalPairs(args);
    CanonicalPairsHaveKeys(args);
    r := pattern;
    var i := 0;
    while i < |args|
      invariant 0 <= i <= |args|
      invariant SeqReplace(r, pairs[i..]) == SeqReplace(pattern, pairs)
    {
      assert pairs[i..][1..] == pairs[i + 1..];
      r := ReplaceAll(r, Canonical(i + 1), args[i]);
      i := i + 1;
    }
  }

  /** With no arguments the pattern is returned untouched. */
  lemma ReplaceNothing(pattern: string)
    ensures ReplacePlaceholders(pattern, []) == pattern
  {
  }

  /** Among the canonical pairs, "{n}" names args[n-1] when 1 <= n <= |args|
      and nothing otherwise. */
  lemma {:induction false} CanonicalLookup(args: seq<string>, n: nat)
    ensures 1 <= n <= |args| ==> Lookup(CanonicalPairs(args), Canonical(n)) == args[n - 1]
    ensures n == 0 || n > |args| ==> Lookup(CanonicalPairs(args), Canonical(n)) == Canonical(n)
  {
    var pairs := CanonicalPairs(args);
    forall i | 0 <= i < |pairs| && i + 1 != n
      ensures pairs[i].0 != Canonical(n)
    {
      if pairs[i].0 == Canonical(n) {
        CanonicalInjective(i + 1, n);
      }
    }
    if 1 <= n <= |args| {
      LookupFirst(pairs, n - 1, Canonical(n));
    }
  }

  /** Lookup answers the pair at `k` when no earlier pair has that text. */
  lemma {:induction false} LookupFirst(pairs: seq<(string, string)>, k: nat, t: string)
    requires k < |pairs| && pairs[k].0 == t
    requires forall i :: 0 <= i < k ==> pairs[i].0 != t
    ensures Lookup(pairs, t) == pairs[k].1
    decreases k
  {
    if k > 0 {
      LookupFirst(pairs[1..], k - 1, t);
    }
  }

  /** On a text whose every '{' opens a placeholder, and with arguments
      that hold no '{', the sequential replacement is one left-to-right
      pass in which "{n}" (n from 1 to |args|) becomes args[n-1], any other
      placeholder stays as it is, and nothing substituted is looked at
      again. */
  lemma ReplacePlaceholdersSubstitutes(pattern: string, args: seq<string>)
    requires WellBraced(pattern)
    requires forall i :: 0 <= i < |args| ==> Lacks(args[i], '{')
    ensures ReplacePlaceholders(pattern, args) == Substitute(pattern, CanonicalPairs(args))
  {
    CanonicalPairsArePlaceholders(args);
    SeqReplaceIsSubstitute(pattern, CanonicalPairs(args));
  }

  lemma CanonicalPairsArePlaceholders(args: seq<string>)
    requires forall i :: 0 <= i < |args| ==> Lacks(args[i], '{')
    ensures PlaceholderPairs(CanonicalPairs(args))
  {
    var pairs := CanonicalPairs(args);
    forall k | 0 <= k < |pairs|
      ensures IsPlaceholderText(pairs[k].0) && Lacks(pairs[k].1, '{')
    {
      CanonicalPairAt(args, k);
    }
  }

  lemma CanonicalPairAt(args: seq<string>, k: nat)
    requires k < |args| && Lacks(args[k], '{')
    ensures IsPlaceholderText(CanonicalPairs(args)[k].0) && Lacks(CanonicalPairs(args)[k].1, '{')
  {
    CanonicalIsPlaceholder(k + 1);
  }

  /** Placeholder by placeholder: "{n}" becomes the n-th argument when
      there is one and stays literal otherwise ("{0}" included), and the
      text around it is treated the same way. */
  lemma ReplacePlaceholderAt(x: string, n: nat, y: string, args: seq<string>)
    requires Lacks(x, '{') && WellBraced(y)
    requires forall i :: 0 <= i < |args| ==> Lacks(args[i], '{')
    ensures ReplacePlaceholders(x + (Canonical(n) + y), args) ==
      x + ((if 1 <= n <= |args| then args[n - 1] else Canonical(n)) + ReplacePlaceholders(y, args))
  {
    var pairs := CanonicalPairs(args);
    var rest := Canonical(n) + y;
    CanonicalIsPlaceholder(n);
    WellBracedAfterPlaceholder(Canonical(n), y);
    WellBracedAfterPlain(x, rest);
    ReplacePlaceholdersSubstitutes(x + rest, args);
    ReplacePlaceholdersSubstitutes(y, args);
    SubstitutePlain(x, rest, pairs);
    SubstituteAtPlaceholder(Canonical(n), y, pairs);
    CanonicalLookup(args, n);
  }

  // ---------------------------------------------------------------------
  // what()

  /** "Error: ", then the file and line parts that are set. */
  function Location(e: TEException): (r: string)
    ensures |r| >= 7 && r[..7] == "Error: "
    ensures Lacks(e.filename, '{') ==> Lacks(r, '{')
  {
    var file := if e.filename != "" then "in \"" + e.filename + "\" " else "";
    var line := if e.line > 0 then "in line " + NatToString(e.line) + ": " else "";
    var r := "Error: " + file + line;
    assert r[..7] == "Error: ";
    assert Lacks(e.filename, '{') ==> Lacks(r, '{') by {
      if Lacks(e.filename, '{') {
        NumeralLacksBrace(if e.line > 0 then e.line else 0);
        forall j | 0 <= j < |r| ensures r[j] != '{' {
          if 7 <= j < 7 + |file| {
            assert r[j] == file[j - 7];
          } else if 7 + |file| <= j {
            assert r[j] == line[j - 7 - |file|];
          }
        }
      }
    }
    r
  }

  lemma NumeralLacksBrace(n: nat)
    ensures Lacks(NatToString(n), '{')
  {
  }

  function What(e: TEException): string {
    var message := Location(e) + Template(e.errorType);
    if |e.args| > 0 then ReplacePlaceholders(message, e.args) else message
  }

  /** Without arguments the template's placeholders are left as they are. */
  lemma WhatWithoutArgs(e: TEException)
    requires e.args == []
    ensures What(e) == Location(e) + Template(e.errorType)
  {
  }

  /** The replacement runs over the whole message, but the location part
      has no '{' when the file name has none, so only the template can
      change: the message is the location followed by the template with
      its placeholders replaced. */
  lemma {:induction false} WhatIsLocationThenMessage(e: TEException)
    requires Lacks(e.filename, '{')
    ensures What(e) == Location(e) + ReplacePlaceholders(Template(e.errorType), e.args)
  {
    var loc := Location(e);
    CanonicalPairsHaveKeys(e.args);
    SeqReplaceSkipsPrefix(loc, Template(e.errorType), CanonicalPairs(e.args));
  }

  /** Sequential replacement of keys starting with '{' leaves a leading
      text without '{' untouched. */
  lemma {:induction false} SeqReplaceSkipsPrefix(x: string, y: string, pairs: seq<(string, string)>)
    requires NonEmptyKeys(pairs) && Lacks(x, '{')
    requires forall k :: 0 <= k < |pairs| ==> pairs[k].0[0] == '{'
    ensures SeqReplace(x + y, pairs) == x + SeqReplace(y, pairs)
    decreases |pairs|
  {
    if |pairs| > 0 {
      ReplaceAllSkipsPrefix(x, y, pairs[0].0, pairs[0].1);
      SeqReplaceSkipsPrefix(x, ReplaceAll(y, pairs[0].0, pairs[0].1), pairs[1..]);
    }
  }

  /** Every message opens with "Error: ". */
  lemma WhatStartsWithError(e: TEException)
    ensures |What(e)| >= 7 && What(e)[..7] == "Error: "
  {
    var msg := Location(e) + Template(e.errorType);
    var rest := msg[7..];
    assert msg == "Error: " + rest by {
      assert msg[..7] == Location(e)[..7];
    }
    if |e.args| > 0 {
      KeepsErrorPrefix(rest, e.args);
    }
  }

  lemma KeepsErrorPrefix(rest: string, args: seq<string>)
    ensures var r := ReplacePlaceholders("Error: " + rest, args);
      |r| >= 7 && r[..7] == "Error: "
  {
    var pairs := CanonicalPairs(args);
    CanonicalPairsHaveKeys(args);
    assert Lacks("Error: ", '{');
    SeqReplaceSkipsPrefix("Error: ", rest, pairs);
    var tail := SeqReplace(rest, pairs);
    assert ("Error: " + tail)[..7] == "Error: ";
  }

  /** A file name is shown, quoted, exactly when one is set, and a line
      number exactly when it is positive. */
  lemma LocationParts(e: TEException)
    ensures e.filename != "" <==> |Location(e)| >= 11 && Location(e)[7..11] == "in \""
    ensures e.filename != "" ==> Location(e)[11..11 + |e.filename|] == e.filename
    ensures e.line > 0 ==>
      var tail := "in line " + NatToString(e.line) + ": ";
      |Location(e)| >= |tail| && Location(e)[|Location(e)| - |tail|..] == tail
    ensures e.filename == "" && e.line <= 0 ==> Location(e) == "Error: "
  {
    var loc := Location(e);
    var file := if e.filename != "" then "in \"" + e.filename + "\" " else "";
    var line := if e.line > 0 then "in line " + NatToString(e.line) + ": " else "";
    assert loc == "Error: " + file + line;
    if e.filename == "" && e.line > 0 {
      assert loc[7..11] == "in l";
    }
  }
}
