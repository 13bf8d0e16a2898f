/** The earlier TEException that sits at the top of the repository: the
    same record and kinds, but a message that puts the line number only
    after a quoted file name, an older set of texts, and no replacement of
    placeholders (the arguments are kept but never used). Its kind
    `Parssing` is the `Parsing` kind here. */
module LegacyErrors {
  import opened Strings
  import opened Errors

  function LegacyTemplate(k: ErrorType): string {
    match k
    case InputFileNotFound =>
      "invalid input file path. The file may not exist or there is no read access."
    case InputCopyFileCannotBeCreated =>
      ""
    case OutputFileCannotBeCreated =>
      "invalid output file path. The specified location may not exist or there are no write permissions."
    case Parsing =>
      "a syntax error was detected while processing an XML file."
    case MissingRootElemnt =>
      "The root element <root> is missing."
    case UnexpectedElement =>
      "the element got: <{1}>. The expected: {2}."
    case UnexpectedAttribute =>
      "the attribute got \"{1}\". The expected: {2}."
    case MissingRequiredChildElement =>
      "the element <{1}> is missing."
    case MissingRequiredAttribute =>
      "the attribute \"{1}\" is missing."
    case DuplicateElement =>
      "element \"{1}\" occurs more than the allowed number of times."
    case DuplicateAttribute =>
      "attribute <{1}> occurs more than the allowed number of times."
    case EmptyElementValue =>
      "the value of the <{1}> element is empty."
    case EmptyAttributeName =>
      "the value of the \"{1}\" attribute is empty."
    case ParamsCountFunctionMissmatch =>
      "the number of parameters specified in <expression> ({1}) does not match the specified number in <paramsCount> ({2}) for the \"{3}\" function."
    case InputSizeExceeded =>
      "the text value \"{1}\" exceeded the allowed length. Current - {2}, Expected - {3}."
    case UndefinedId =>
      "the identifier \"{1}\" is not defined in the value of the <expression> element."
    case InvalidSymbol =>
      "the value of the <expression> element contains an invalid character \"{1}\"."
    case MissingOperand =>
      OperandLacksOperation
    case MissingOperations =>
      OperationLacksOperands
    case MultipleIncrementDecrement =>
      "in the context of the <expression> element, the value of the \"{1}\" element cannot be incremented or decremented more than once."
    case NeverUsedElement =>
      "element with name \"{1}\" never occurs in element <expression>"
    case ParamsCountDescriptionDifference =>
      "the number of substitutions of sections in the <description> of the <function> element by the description of incoming arguments exceeds the value of the \"paramsCount\" attribute of the <function> element."
    case NonUniqueName =>
      "the value \"{1}\" of the attribute \"name\" for element <{2}> is not unique"
    case InvalidName =>
      "The \"{1}\" value of the \"name\" attribute must begin with a Latin letter or the special character \"_\" (underscore) and contain only Latin letters, numbers, and the special character \"_\" (underscore)."
    case UnidentifedType =>
      "the \"{1}\" value of the \"type\" attribute contains an unidentified type. The data type must be one of the supported types or it can be a user-defined data type described in the elements <unions>; <structures>; <classes>; <enums>."
    case InvalidParamsCount =>
      "value \"{1}\" of the \"paramsCount\" attribute contains an invalid value. Expected: positive integer from 0 to 20 inclusive."
    case _ => UnknownError
  }

  /** "Error: ", then, only when a file name is set, the quoted name, the
      line when it is positive, and ": ". */
  function LegacyLocation(e: TEException): (r: string)
    ensures |r| >= 7 && r[..7] == "Error: "
  {
    var file := if e.filename != "" then
      "\"" + e.filename + "\"" + (if e.line > 0 then " line " + NatToString(e.line) else "") + ": "
    else "";
    var r := "Error: " + file;
    assert r[..7] == "Error: ";
    r
  }

  function LegacyWhat(e: TEException): string {
    LegacyLocation(e) + LegacyTemplate(e.errorType)
  }

  /** Without a file name the message says nothing of the line. */
  lemma LegacyLineNeedsFile(e: TEException)
    requires e.filename == ""
    ensures LegacyLocation(e) == "Error: "
    ensures LegacyWhat(e) == LegacyWhat(e.(line := 0))
  {
    assert LegacyLocation(e) == LegacyLocation(e.(line := 0)) == "Error: ";
  }

  /** The arguments never reach the message: placeholders stay literal
      whatever is passed. */
  lemma LegacyIgnoresArgs(e: TEException, args: seq<string>)
    ensures LegacyWhat(e.(args := args)) == LegacyWhat(e)
  {
  }

  /** With neither file nor line, and no arguments, both versions open
      the same way and differ only in the kind's text. */
  lemma BareMessagesAgree(e: TEException)
    requires e.filename == "" && e.line <= 0 && e.args == []
    requires LegacyTemplate(e.errorType) == Template(e.errorType)
    ensures LegacyWhat(e) == What(e)
  {
  }

  /** The two texts about operands and operations traded places between
      the versions. */
  lemma OperandTextsSwapped()
    ensures LegacyTemplate(MissingOperand) == Template(MissingOperations)
    ensures LegacyTemplate(MissingOperations) == Template(MissingOperand)
  {
  }

  /** Kinds the older switch has no case for. */
  lemma LegacyKindsWithoutCase()
    ensures LegacyTemplate(InputElementsExceeded) == "unknown error"
    ensures LegacyTemplate(InvalidType) == "unknown error"
    ensures LegacyTemplate(VariableWithVoidType) == "unknown error"
    ensures LegacyTemplate(InputDataExprSizeExceeded) == "unknown error"
    ensures LegacyTemplate(MissingReplacementArguments) == "unknown error"
  {
  }

  /** The older text for a copy that cannot be created is empty: the
      message stops after the location. */
  lemma LegacyCopyFailureIsBlank(e: TEException)
    requires e.errorType == InputCopyFileCannotBeCreated
    ensures LegacyWhat(e) == LegacyLocation(e)
  {
  }

  /** A file name and a positive line appear as `"<file>" line N: `. */
  lemma LegacyLocationWithFile(e: TEException)
    requires e.filename != ""
    ensures e.line > 0 ==>
      LegacyLocation(e) == "Error: \"" + e.filename + "\" line " + NatToString(e.line) + ": "
    ensures e.line <= 0 ==> LegacyLocation(e) == "Error: \"" + e.filename + "\": "
  {
  }
}
