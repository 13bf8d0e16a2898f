# textExplanationsOnEng, modelled in Dafny

textExplanationsOnEng reads a C++ expression in postfix notation, together
with the declarations it uses (variables, functions, unions, structures,
classes, enumerations) from an XML file, and explains the expression in
English. This project models the core of that program:

- `Expression`, the data holder: its tables and the lookups into them.
- `expressionToNodes`, the stack machine that builds the expression tree
  from the space-separated tokens. It includes the token classifier
  `getEntityTypeByStr`, with `isConst`, `isFunction`, `isIdentifier`,
  `isCustomTypeWithFields` and `isEnum`.
- `ExpressionNode`: its equality and its text dump.
- `ExpressionTranslator`: the table of explanation templates and
  `getExplanation`, which fills the numbered placeholders `{n}`.
- `TEException`: the error kinds, the message of each kind and the
  replacement of placeholders in it. Both the current version and the
  older one at the top of the repository are modelled.
- The checks of `ExpressionXmlParser` on names, descriptions, attributes
  and child elements.
- `removeConsecutiveDuplicates`, which drops a word that repeats the word
  just before it.

Each module is one file: Wrappers, Strings, CodeEntity, SymbolTable,
Lexical, Duplicates, Nodes, Placeholders, Templates, Translator,
Explanations, ExplanationRows, Errors, LegacyErrors, Builder and
XmlValidation.

Some conventions apply throughout:

- A thrown exception is a `Failure` carrying the `TEException` record.
- A missing key in a `QHash` yields the default record, whose name is
  empty, as `QHash::value` does.
- Pointers become values: an absent child is `None`.
- A `QString` length is a count of UTF-16 code units
  (`Strings.Utf16Length`): a character beyond U+FFFF counts twice.
- `QString::replace` is `Strings.ReplaceAll`. It replaces every
  non-overlapping occurrence from left to right and never rescans what it
  inserted.
- The placeholder pattern `\{\s*(\d+)\s*\}` is matched by
  `Placeholders.PlaceholderAt`, and its global match by `Placeholders.Scan`.

The program's operator table `OperationMap` is only declared in the
sources. It is therefore a parameter of the builder. So is the
floating-point half of `isConst`.

## Model

| member | source | states |
|---|---|---|
| CodeEntity.VariableAt | expression.cpp:30-33 | QHash::value on the variable table: the stored record for a present key, and an empty name, type and description for a missing one |
| CodeEntity.FunctionAt | expression.cpp:45-48 | the stored function for a present key; for a missing key an empty name and type and a parameter count of 0 |
| CodeEntity.AggregateAt | textExplanationsOnEng/codeentity.h:117-130 | the stored aggregate for a present key; for a missing key an empty name and no fields or methods |
| CodeEntity.EnumAt | expression.cpp:105-108 | the stored enumeration for a present key; for a missing key an empty name and no values |
| CodeEntity.OperatorAt | expression.cpp:211 | OperationMap.value: the entry for a known symbol, and for an unknown one the default OperatorInfo, which is unary with the first enumerator PrefixIncrement |
| CodeEntity.ConstructorsStoreVerbatim | codeentity.cpp:3-6 | the Variable and Function constructors store each argument unchanged; omitted ones are empty or 0 |
| SymbolTable.SetExpression | expression.cpp:10-13 | the expression text is replaced and every table is unchanged |
| SymbolTable.SetVariables | expression.cpp:25-28 | the variable table is replaced and everything else is unchanged |
| SymbolTable.SetFunctions | expression.cpp:40-43 | the function table is replaced and everything else is unchanged |
| SymbolTable.SetUnions | expression.cpp:55-58 | the union table is replaced and everything else is unchanged |
| SymbolTable.SetStructures | expression.cpp:70-73 | the structure table is replaced and everything else is unchanged |
| SymbolTable.SetClasses | expression.cpp:85-88 | the class table is replaced and everything else is unchanged |
| SymbolTable.SetEnums | expression.cpp:100-103 | the enumeration table is replaced and everything else is unchanged |
| SymbolTable.GetVarByName | expression.cpp:30-33 | the declared variable, or the empty default when the name is not declared |
| SymbolTable.GetFuncByName | expression.cpp:45-48 | the declared function, or the empty default |
| SymbolTable.GetEnumByName | expression.cpp:105-108 | the declared enumeration, or the empty default |
| SymbolTable.GetCustomTypeByName | expression.cpp:131-144 | the lookup in the three aggregate tables laid over one another, classes on top and unions at the bottom; the empty default when no table has the name |
| SymbolTable.CustomTypePrecedence | expression.cpp:134-142 | case by case: the class wins over the structure, which wins over the union, and a name in none of them gives an empty name |
| SymbolTable.GetVariableByNameFromCustomData | expression.cpp:110-115 | the field of the class, else of the structure, else of the union of that name; the empty default when the type is unknown |
| SymbolTable.GetFunctionByNameFromCustomData | expression.cpp:117-122 | the method, with the same precedence; the empty default when the type is unknown |
| SymbolTable.IsEnumValue | expression.cpp:124-129 | true exactly when the enumeration is declared and has that value among its keys |
| SymbolTable.IsCustomTypeWithFields | expression.cpp:353-360 | true exactly when some aggregate table has the name and its record's name is non-empty |
| SymbolTable.IsEnum | expression.cpp:362-369 | true exactly when the enumeration table has the name and its record's name is non-empty |
| SymbolTable.GetOperationTypeByStr | expression.cpp:385-392 | the kind recorded for a known symbol, and None for an unknown one |
| SymbolTable.SetThenGet | expression.cpp:25-48 | a setter followed by a lookup answers from the new table and leaves the lookups of the other tables as they were |
| Strings.ToInt | expression.cpp:334 | QString::toInt: surrounding white space (QChar::isSpace) is skipped; the rest read as a signed decimal in the 32-bit range, 0 for anything else, so any non-zero result is exactly the value of the trimmed numeral |
| Strings.ToIntOfNat | expression.cpp:272 | the decimal numeral of a number within the 32-bit range reads back with toInt as that number |
| Strings.ToIntSkipsWhiteSpace | expression.cpp:334 | white space before and after a text does not change what toInt reads from it |
| Strings.ToIntSpacedRows | expression.cpp:334 | " 5" and "5\t", tokens that splitting on ' ' can produce, both read as 5 |
| Strings.TrimMeaning | expression.cpp:334 | the text toInt reads is the slice left once the white space at both ends is cut, and no white space remains at either of its ends |
| Strings.TrimSurrounded | expression.cpp:334 | white space wrapped around a text whose ends are not white space is cut exactly back to that text |
| Strings.Utf16Length | expressionxmlparser.cpp:61 | QString::length counts UTF-16 code units: between one and two per character, and zero only for the empty text |
| Strings.Utf16LengthConcat | expressionxmlparser.cpp:61 | the code-unit length of a concatenation is the sum of the lengths |
| Strings.Utf16LengthOfBmp | expressionxmlparser.cpp:61 | code units and characters agree exactly when no character lies beyond U+FFFF |
| Strings.NatToStringRoundTrip | textExplanationsOnEng/teexception.cpp:182 | QString::number of a natural number is a digit string whose value is that number |
| Strings.NatToStringInjective | textExplanationsOnEng/teexception.cpp:182 | different numbers give different decimal texts, so different argument positions give different placeholders |
| Strings.SplitKeepsContent | expression.cpp:196 | split on ' ' with empty parts skipped: the tokens together hold exactly the non-space characters, in order |
| Strings.SplitJoinRoundTrip | expression.cpp:196 | splitting tokens joined by single spaces gives back the same tokens, when every token is non-empty and has no space |
| Strings.ReplaceAllAtFront | textExplanationsOnEng/expressiontranslator.cpp:58 | QString::replace: an occurrence at the start is replaced and scanning resumes after it |
| Strings.ReplaceAllSkipsPrefix | textExplanationsOnEng/expressiontranslator.cpp:58 | text with no character that can start an occurrence passes through the replacement untouched |
| Strings.ReplaceAllStep | textExplanationsOnEng/expressiontranslator.cpp:58 | without an occurrence at the start, the first character is copied and scanning moves on by one |
| Lexical.FunctionTokenParts | expression.cpp:270-273 | a call token splits at its first '(' into an identifier and a non-empty numeral, and is exactly name "(" numeral ")" |
| Lexical.FunctionTokenFromParts | textExplanationsOnEng/expression.h:117 | every identifier followed by a parenthesised numeral is a call token, and the split gives back that name and numeral (the round trip of FunctionTokenParts) |
| Lexical.IdentifierRows | tests/test_isidentifier.cpp:22-34 | all thirteen rows of the identifier test: Latin letters, '_' and later digits are accepted; "", a leading digit, '$' and a Cyrillic letter are rejected |
| Lexical.FunctionRowsAccepted | tests/test_isfunction.cpp:22-23 | "factorial(1)" and "helloWorld(0)" are call tokens, split into their names and the numerals "1" and "0" |
| Lexical.FunctionRowTwoArguments | tests/test_isfunction.cpp:24 | "sum(3,4)" is not a call token |
| Lexical.FunctionRowWordArgument | tests/test_isfunction.cpp:25 | "printf(oleg)" is not a call token |
| Lexical.FunctionRowSpacedName | tests/test_isfunction.cpp:26 | "helloWorld (0)" is not a call token |
| Lexical.FunctionRowNoName | tests/test_isfunction.cpp:27 | "(3)" is not a call token |
| Lexical.FunctionRowNoParentheses | tests/test_isfunction.cpp:28-29 | neither "helloWorld" nor "" is a call token |
| Lexical.FunctionRowCyrillicName | tests/test_isfunction.cpp:30 | a call with a Cyrillic name is not a call token |
| Lexical.NonNumeralArgument | textExplanationsOnEng/expression.h:117 | any text between the parentheses with a non-digit makes the token no call |
| Lexical.NonIdentifierName | textExplanationsOnEng/expression.h:117 | a text before the first '(' that is no identifier makes the token no call |
| Duplicates.RenderRuns | textExplanationsOnEng/expression.h:161 | cutting a text into alternating word and gap runs and gluing them back gives the text |
| Duplicates.RunsRender | textExplanationsOnEng/expression.h:161 | the converse round trip: well-formed alternating runs glued and cut again are the same runs |
| Duplicates.RemoveDuplicatesUnchangedIff | textExplanationsOnEng/expression.h:161 | the text comes back unchanged exactly when no word repeats, ignoring case, the word before it |
| Duplicates.RemoveDuplicatesIdempotent | textExplanationsOnEng/expression.h:161 | removing duplicates twice is the same as removing them once |
| Duplicates.CollapseNeverGrows | textExplanationsOnEng/expression.h:161 | the result is never longer than the input |
| Duplicates.CollapseKeeps | textExplanationsOnEng/expression.h:161 | a word followed by a gap and a different word: both words and the gap stay |
| Duplicates.CollapseDrops | textExplanationsOnEng/expression.h:161 | a word followed by a gap and the same word, ignoring case: the gap and the repeat go |
| Duplicates.DistinctNeighboursKept | textExplanationsOnEng/expression.h:161 | words joined by one gap, each different from its neighbour, come back unchanged |
| Duplicates.RepeatsOfFirstCollapse | textExplanationsOnEng/expression.h:161 | words joined by one gap, all the same as the first ignoring case, collapse to the first word |
| Duplicates.RowSingleWord | tests/test_removeduplicates.cpp:31-39 | a single word and the empty string come back unchanged |
| Duplicates.RowRepeatNotSeparated | tests/test_removeduplicates.cpp:87-89 | "wordword", a word written twice with nothing between, is one word and stays |
| Duplicates.RowRepeatedWord | tests/test_removeduplicates.cpp:42-44 | "word word" gives "word" |
| Duplicates.RowRepeatedWordOtherCase | tests/test_removeduplicates.cpp:47-49 | in "Word word" the two spellings differ, yet the second is dropped as a repeat and the first spelling is kept |
| Duplicates.RowCommaSeparated | tests/test_removeduplicates.cpp:82-84 | a repeat after ", " is dropped together with the separator |
| Duplicates.RowThreeTimes | tests/test_removeduplicates.cpp:52-54 | three repeats in mixed case give the first word |
| Duplicates.RowRepeatFarApart | tests/test_removeduplicates.cpp:57-59 | a repeat with another word between is kept |
| Duplicates.RowRepeatOneApart | tests/test_removeduplicates.cpp:62-64 | a repeat separated by one other word is kept |
| Duplicates.RowPrefixWords | tests/test_removeduplicates.cpp:67-74 | a word that is a prefix of its neighbour, either way round, is kept |
| Duplicates.RowDistinctWords | tests/test_removeduplicates.cpp:77-79 | distinct words come back unchanged |
| Nodes.EqualIsEquality | expressionnode.cpp:47-68 | the recursive operator== holds exactly when the two trees are equal values: it compares every field, children and argument lists included, and nothing else |
| Nodes.ArgsEqualIsEquality | expressionnode.cpp:70-82 | compareFunctionArgs holds exactly when the two argument lists are equal |
| Nodes.EqualReflexiveSymmetric | expressionnode.cpp:45-68 | operator== is reflexive and symmetric, and operator!= is its negation |
| Nodes.AbsentPartsDiffer | expressionnode.cpp:56-64 | an absent child never equals a present one, and a null argument list never equals an empty one |
| Nodes.CompareFunctionArgs | expressionnode.cpp:70-82 | the loop answers true exactly when the lists have the same length and are pairwise operator==, which is exactly list equality |
| Nodes.Label | expressionnode.cpp:17 | the label is never empty: an empty value shows as "Unknown" |
| Nodes.ToStringBalanced | expressionnode.cpp:13-44 | the dump adds parentheses only in matching pairs: when every value in the tree is balanced, so is the dump. Balanced means that every ")" closes an earlier "(" and every "(" is closed (Nodes.Balanced, a depth scan that rejects ")(") |
| Nodes.BalancedRejectsCrossed | expressionnode.cpp:13-44 | the balance the dump keeps is matching, not counting: "()" is balanced, while ")(" and "(" are not |
| Nodes.ToStringStartsWithLabel | expressionnode.cpp:13-44 | the dump starts with the node's label, and is the label alone exactly when the node has no child and no argument list to show |
| Placeholders.PlaceholderAt | textExplanationsOnEng/expressiontranslator.cpp:46 | a match of the pattern at the head of a text is a prefix that opens with '{', closes with '}', has no other '{' and captures a non-empty digit string |
| Placeholders.Scan | textExplanationsOnEng/expressiontranslator.cpp:47 | globalMatch: every match found is, by itself, one whole match of the pattern |
| Placeholders.SeqReplaceIsSubstitute | textExplanationsOnEng/expressiontranslator.cpp:49-63 | the replacements one after another equal one left-to-right pass, when every '{' opens a placeholder and no replacement holds '{' |
| Placeholders.NoBraceNoMatch | textExplanationsOnEng/expressiontranslator.cpp:47 | a text without '{' has no match |
| Placeholders.CanonicalIsPlaceholder | textExplanationsOnEng/teexception.cpp:182 | "{n}" is one whole match of the pattern, and captures the numeral of n |
| Placeholders.CanonicalInjective | textExplanationsOnEng/teexception.cpp:182 | different numbers give different placeholder texts |
| Templates.TemplateShape | textExplanationsOnEng/expressiontranslator.cpp:3-35 | operation by operation: the binary kinds have an entry naming {1} and {2}, the unary kinds an entry around {1}, and every other kind no entry |
| Templates.TemplateBraceFree | textExplanationsOnEng/expressiontranslator.cpp:3-35 | no entry has '{' outside its placeholders |
| Templates.TemplateArity | textExplanationsOnEng/expressiontranslator.cpp:3-35 | every binary entry names {1} and {2} and nothing higher, every unary entry names {1} only, and a kind with no entry has the empty text |
| Translator.GetExplanationLoop | textExplanationsOnEng/expressiontranslator.cpp:42-64 | the loop of the source, over the matches of the original description, computes GetExplanation |
| Translator.GetExplanationSucceedsIff | textExplanationsOnEng/expressiontranslator.cpp:52-61 | the explanation succeeds exactly when every match names an argument; otherwise it raises MissingReplacementArguments with the pattern as it stood, and no file and no line |
| Translator.ExplainSucceedsIff | textExplanationsOnEng/expressiontranslator.cpp:50-61 | the loop from any match on succeeds exactly when every remaining match names an argument |
| Translator.ExplainStep | textExplanationsOnEng/expressiontranslator.cpp:51-61 | one turn: replace every occurrence of the match with its argument and go on, or raise with the current pattern |
| Translator.FirstMatchUnresolved | textExplanationsOnEng/expressiontranslator.cpp:61 | when the first match names no argument, the error carries the untouched description |
| Translator.NoMatchUnchanged | textExplanationsOnEng/expressiontranslator.cpp:47-50 | a description with no match comes back as it is, whatever the arguments |
| Translator.ExplainIsSeqReplace | textExplanationsOnEng/expressiontranslator.cpp:55-58 | a successful loop is the sequence of QString::replace calls, one per match, each with its argument |
| Translator.GetExplanationSinglePass | textExplanationsOnEng/expressiontranslator.cpp:42-64 | the corrected explanation: it succeeds exactly when every match of the description names an argument, and then every match is replaced by that argument at once (Substitute with the match-to-argument pairs), so inserted text is never read again; otherwise it raises MissingReplacementArguments with the whole description |
| Translator.SequentialIsSinglePass | textExplanationsOnEng/expressiontranslator.cpp:42-64 | the source and the single pass agree, in success and in text, on descriptions whose every '{' opens a placeholder with arguments free of '{' |
| Translator.FillSucceedsIff | textExplanationsOnEng/expressiontranslator.cpp:52-61 | the single pass succeeds exactly when every match names an argument |
| Translator.FillIsSubstitution | textExplanationsOnEng/expressiontranslator.cpp:42-64 | the single pass succeeds exactly when every match resolves, and then equals substitution by the pairs of each match with its argument |
| Translator.SubstituteIsFill | textExplanationsOnEng/expressiontranslator.cpp:55-58 | the single pass is substitution by any pair list that looks up each match's argument |
| Explanations.TemplateExplanation | textExplanationsOnEng/expressiontranslator.cpp:42-64 | on a template of text and placeholders, the explanation succeeds exactly when the highest placeholder has an argument, and then each {n} reads as argument n when the arguments hold no '{' |
| Explanations.OperationExplanation | textExplanationsOnEng/expressiontranslator.cpp:3-35 | a binary operation's explanation needs two arguments and a unary one needs one; a kind with no entry explains as "" |
| Explanations.FillRendered | textExplanationsOnEng/expressiontranslator.cpp:42-64 | the single pass over a rendered template succeeds exactly when every placeholder has an argument, and then gives the instantiated template |
| Explanations.RenderWellBraced | textExplanationsOnEng/expressiontranslator.cpp:3-35 | every '{' of a rendered template opens one of its placeholders |
| Explanations.FillCanonical | textExplanationsOnEng/expressiontranslator.cpp:52-58 | the single pass reads {n} as argument n, and fails when there is no argument n |
| ExplanationRows.SinglePlaceholderRow | tests/test_getexplanation.cpp:57-66 | "{1}" with one argument gives that argument, whatever it is |
| ExplanationRows.NoPlaceholderRow | tests/test_getexplanation.cpp:69-72 | "hello" comes back unchanged |
| ExplanationRows.InvalidPlaceholderRow | tests/test_getexplanation.cpp:75-78 | "{hello}" is not a placeholder and comes back unchanged |
| ExplanationRows.TextAfterRow | tests/test_getexplanation.cpp:81-84 | "{1} world!" gives the argument followed by " world!" |
| ExplanationRows.EmptyRow | tests/test_getexplanation.cpp:87-90 | "" with no arguments gives "" |
| ExplanationRows.MissingArgumentsRow | tests/test_getexplanation.cpp:93-96 | "{1} {3}" with two arguments, the first "{2}": MissingReplacementArguments carrying the pattern "{2} {3}" as it stood when the loop stopped |
| ExplanationRows.MixedRow | tests/test_getexplanation.cpp:99-102 | as written, "{1} {2}" with ["{2}", b] gives b + " " + b |
| ExplanationRows.MixedSinglePassRow | tests/test_getexplanation.cpp:99-102 | the corrected single pass gives "{2} " + b, as the test row expects |
| ExplanationRows.SecondPlaceholderRow | tests/test_getexplanation.cpp:105-108 | "{2}" with two arguments gives the second one |
| ExplanationRows.TextBeforeRow | tests/test_getexplanation.cpp:111-114 | "hello{1}" gives "hello" followed by the argument |
| ExplanationRows.TextAdjacentRow | tests/test_getexplanation.cpp:117-120 | "{1}world!" gives the argument followed directly by the rest of the description, with nothing put in between |
| ExplanationRows.NestedRow | tests/test_getexplanation.cpp:123-126 | in "{3{2{1}}}" only "{1}" is a placeholder; the result keeps "{3{2" and "}}" around the first argument |
| ExplanationRows.ReversedRow | tests/test_getexplanation.cpp:129-132 | "{2} {1}" gives the second argument, a space, then the first |
| ExplanationRows.RepeatedRow | tests/test_getexplanation.cpp:135-138 | "{1} {1}" gives the argument twice |
| Errors.Raise | textExplanationsOnEng/teexception.cpp:18-21 | the constructor with arguments only: no file and line 0 |
| Errors.RaiseInFile | textExplanationsOnEng/teexception.cpp:8-11 | the constructor with a file name: line 0 |
| Errors.RaiseAtLine | textExplanationsOnEng/teexception.cpp:13-16 | the constructor with a line: no file name |
| Errors.GettersReturnConstructorValues | textExplanationsOnEng/teexception.cpp:162-175 | getErrorType, getLine and getArgs give back what each constructor was passed, and the default argument list is empty |
| Errors.KindsWithoutCase | textExplanationsOnEng/teexception.cpp:150-152 | the kinds the switch has no case for get "unknown error" |
| Errors.CanonicalPairs | textExplanationsOnEng/teexception.cpp:179-185 | the pairs the loop replaces: "{i+1}" with args[i], one per argument, in order |
| Errors.ReplacePlaceholdersLoop | textExplanationsOnEng/teexception.cpp:177-187 | the loop of the source computes ReplacePlaceholders |
| Errors.ReplaceNothing | textExplanationsOnEng/teexception.cpp:179 | with no arguments the pattern is returned untouched |
| Errors.CanonicalLookup | textExplanationsOnEng/teexception.cpp:179-185 | "{n}" stands for args[n-1] when 1 <= n <= the number of arguments, and for itself otherwise |
| Errors.ReplacePlaceholdersSubstitutes | textExplanationsOnEng/teexception.cpp:177-187 | on a text whose every '{' opens a placeholder, with arguments free of '{', the sequential replacement is one left-to-right pass |
| Errors.ReplacePlaceholderAt | textExplanationsOnEng/teexception.cpp:177-187 | placeholder by placeholder: "{n}" becomes the n-th argument when there is one and stays literal otherwise |
| Errors.Location | textExplanationsOnEng/teexception.cpp:55-59 | the message opens with "Error: ", and the location adds no '{' of its own |
| Errors.LocationParts | textExplanationsOnEng/teexception.cpp:57-59 | `in "<file>" ` follows "Error: " exactly when a file name is set, `in line N: ` ends the location when the line is positive, and with neither the location is "Error: " alone |
| Errors.WhatWithoutArgs | textExplanationsOnEng/teexception.cpp:155-157 | without arguments the kind's text is appended with its placeholders untouched |
| Errors.WhatIsLocationThenMessage | textExplanationsOnEng/teexception.cpp:53-160 | the replacement runs over the whole message but only ever changes the kind's text, when the file name has no '{' |
| Errors.WhatStartsWithError | textExplanationsOnEng/teexception.cpp:55 | every message opens with "Error: ", whatever the arguments |
| LegacyErrors.LegacyLocation | teexception.cpp:25-29 | the older message also opens with "Error: " |
| LegacyErrors.LegacyLocationWithFile | teexception.cpp:27-28 | with a file name: the quoted name, " line N" only when the line is positive, then ": " |
| LegacyErrors.LegacyLineNeedsFile | teexception.cpp:27-29 | without a file name the line is never shown |
| LegacyErrors.LegacyIgnoresArgs | teexception.cpp:116-121 | the arguments never reach the older message; placeholders stay literal |
| LegacyErrors.OperandTextsSwapped | teexception.cpp:84-89 | the texts for MissingOperand and MissingOperations are each other's in the two versions |
| LegacyErrors.LegacyKindsWithoutCase | teexception.cpp:111-113 | the kinds the older switch has no case for get "unknown error" |
| LegacyErrors.BareMessagesAgree | teexception.cpp:23-121 | with no file, no line and no arguments the two versions differ only where the kind's texts differ |
| LegacyErrors.LegacyCopyFailureIsBlank | teexception.cpp:36-37 | the older text for a copy that cannot be created is empty, so the message ends after the location |
| Builder.Classify | expression.cpp:316-327 | a classified token never has kind Undefined; the only failure is InvalidSymbol with the token, raised for a token that is no identifier |
| Builder.ClassifyAgreesWithPriority | expression.cpp:316-327 | the classifier takes the first kind in the order Const, Function, CustomTypeWithFields, Enum, Operation, Variable whose test passes |
| Builder.ClassifyTakesFirstPassing | expression.cpp:316-349 | the answer is the first kind, in the source's order, whose test passes: it passes and every kind before it fails; the classifier fails exactly when no test passes |
| Builder.FirstPassingMeaning | expression.cpp:319-325 | the chain of else-ifs: the chosen kind is in the list and passes, every kind before it fails, and the chain fails exactly when every kind fails |
| Builder.OperationStep | expression.cpp:206-233 | an operator token pushes one Operation node for that token on top of the untouched rest of the stack; it fails only with MissingOperand for the token, or with MissingOperations for the top value when more than two operands wait |
| Builder.BinaryOperatorPopsTwo | expression.cpp:211-215 | a binary operator over two or more operands pops the top two as right and left |
| Builder.SubtractionOnOneOperandIsUnaryMinus | expression.cpp:217-221 | subtraction over a single operand becomes UnaryMinus over that operand |
| Builder.UnaryOperatorOperands | expression.cpp:217-232 | a unary operator takes a lone operand as its left child; over exactly two operands no branch applies and a node without children is pushed on top of both; over more it raises MissingOperations naming the top |
| Builder.MissingOperandExactly | expression.cpp:211-226 | an operator fails with MissingOperand exactly when the stack is empty, or holds one operand and the operator is binary and not subtraction |
| Builder.PushConstant | expression.cpp:235-237 | a constant pushes a leaf with its text |
| Builder.VariableStep | expression.cpp:239-263 | a variable pushes one Variable leaf (no children, no argument list) with a non-empty data type on the untouched stack, or fails with UndefinedId for the token (or underflow when it needs the top of an empty stack) |
| Builder.VariableTyping | expression.cpp:241-262 | the data type is the declared one, else the name of the field record found in the top node's type before "." (as line 250 stores it), else the enumeration's name before "::" when the token is one of its values; an empty stack at that point is underflow |
| Builder.FunctionStep | expression.cpp:268-305 | a call pops its ToInt(numeral) arguments in order and pushes one Function node without children, named by the text before '(' and holding them as its argument list; it fails with ParamsCountFunctionMissmatch for the token, or UndefinedId for the name |
| Builder.FunctionPopsArguments | expression.cpp:292-301 | with a known return type: a numeral other than paramsCount raises the mismatch, and otherwise exactly that many nodes are taken off the top, keeping their order, and become the arguments of one Function node; its data type is looked up under the whole token |
| Builder.OperationStepEffect | expression.cpp:206-232 | an operator node takes off the stack exactly as many trees as it holds as children, and brings one node of its own |
| Builder.FunctionStepEffect | expression.cpp:268-305 | a call node takes off the stack exactly the trees it holds as arguments, and brings one node of its own |
| Builder.StepEffect | expression.cpp:202-308 | every successful token step adds exactly one node to the forest on the stack, and removes as many trees as the new node holds; an aggregate's name leaves the stack as it was |
| Builder.RunTotal | expression.cpp:202-308 | after any number of tokens, the trees on the stack hold one node per token read that is not an aggregate's name |
| Builder.TreeSize | expression.cpp:194-314 | a built tree has exactly one node per word that is not an aggregate's name, and there is no tree exactly when no word brings a node |
| Builder.FaultPersists | expression.cpp:202-308 | once a token fails, the run stops with that failure |
| Builder.RunStep | expression.cpp:202-204 | one turn of the token loop applies the step of the token's kind to the current stack |
| Builder.AssembleSingle | expression.cpp:313 | a run that leaves exactly one node returns that node as the root |
| Builder.ExpressionToNodesLoop | expression.cpp:194-314 | the loop of the source, classifying each token as it comes, computes ExpressionToNodes |
| Builder.LexConcat | expression.cpp:202-204 | classifying tokens one by one distributes over concatenation |
| Builder.BinaryOfTwoConstants | tests/test_getexplanationinen.cpp:66-68 | "1 1 +": one Operation node with the two constants as left and right |
| Builder.FunctionOverConstants | tests/test_getexplanationinen.cpp:375-384 | "1 2 3 4 5 sum(5)": one Function node "sum" with the five constants as arguments in order |
| Builder.LeftoverOperands | expression.cpp:311-312 | two or more operands with no operator: MissingOperations with the last operand |
| Builder.InvalidSymbolStops | tests/test_getexplanationinen.cpp:474-483 | a token that passes no test, such as "$" after constants, stops the build with InvalidSymbol |
| Builder.BlankExpression | tests/test_getexplanationinen.cpp:363-372 | an expression of spaces only pushes nothing; the final pop of the empty stack, undefined behaviour in the code, is modelled as success with no tree |
| Builder.LoneTypeNameBuildsNothing | tests/test_getexplanationinen.cpp:315-350 | a lone aggregate name pushes nothing; the final pop of the empty stack, undefined behaviour in the code, is modelled as success with no tree |
| Builder.ParamsCountMismatch | tests/test_getexplanationinen.cpp:462-471 | a call whose numeral differs from the declared count raises ParamsCountFunctionMissmatch with the token |
| Builder.FieldAccess | tests/test_getexplanationinen.cpp:240-255 | "object field .": one "." node with the object as left child and the field as right child; the field's data type is the name of the field record found in the object's aggregate, as expression.cpp:250 stores it |
| Builder.EnumValueAccess | tests/test_getexplanationinen.cpp:287-300 | "Enum Value ::": the value is typed by its enumeration, and "::" joins them |
| Builder.MethodCallLooksUpWholeToken | tests/test_getexplanationinen.cpp:424-460 | "object method(0) .": the method is looked up under the whole token, is not found, and the build raises UndefinedId with the name |
| XmlValidation.MaxLengthsSpelled | expressionxmlparser.h:15-16 | the limits 32 and 256 appear in messages as "32" and "256" |
| XmlValidation.AttributeValue | expressionxmlparser.cpp:60 | a missing attribute reads as "" |
| XmlValidation.ParseName | expressionxmlparser.cpp:58-79 | the name is accepted, unchanged, exactly when it is an identifier of at most 32 UTF-16 code units; otherwise the error is EmptyAttributeName exactly for an empty or missing name, InputSizeExceeded ["name", length, "32"] at the element's line exactly for one over 32 code units, and InvalidName exactly for the rest. InvalidName is raised at the line with no argument when the first character is bad, so its message keeps "{1}", and with the name as argument when a later character is bad. EmptyAttributeName has no line |
| XmlValidation.ParseNameLoop | expressionxmlparser.cpp:58-79 | the loop over the characters computes ParseName |
| XmlValidation.IdentifierLengthIsCharacterCount | expressionxmlparser.cpp:61-79 | a name that passes is plain ASCII, so its code-unit length is its number of characters |
| XmlValidation.NameOfSupplementaryCharacters | expressionxmlparser.cpp:61-62 | a name of 17 characters beyond U+FFFF is 34 code units: InputSizeExceeded ["name", "34", "32"], not InvalidName |
| XmlValidation.ParseDescription | expressionxmlparser.cpp:81-90 | accepted exactly when non-empty and at most 256 UTF-16 code units; EmptyElementValue, or InputSizeExceeded ["description", length in code units, "256"] |
| XmlValidation.DescriptionOfSupplementaryCharacters | expressionxmlparser.cpp:86-88 | 200 characters beyond U+FFFF are 400 code units: InputSizeExceeded ["description", "400", "256"] |
| XmlValidation.CountDirectChildren | expressionxmlparser.cpp:182-194 | at most the number of children, and 0 exactly when no direct child element has the tag |
| XmlValidation.CountDirectChildrenLoop | expressionxmlparser.cpp:182-194 | the loop over the child nodes computes CountDirectChildren |
| XmlValidation.ValidateAttributes | expressionxmlparser.cpp:111-122 | passes exactly when every attribute is allowed; otherwise reports the first offender with the allowed names joined by "; " |
| XmlValidation.ValidateChildElements | expressionxmlparser.cpp:124-145 | passes exactly when every child element is allowed and within its count; otherwise reports the first offender as UnexpectedElement or DuplicateElement |
| XmlValidation.RepeatedTagIsRejected | expressionxmlparser.cpp:135-141 | a tag allowed once that occurs twice makes the check fail |
| XmlValidation.ValidateRequiredAttributes | expressionxmlparser.cpp:147-158 | passes exactly when every required attribute is present; otherwise names the first one missing |
| XmlValidation.ValidateRequiredChildElements | expressionxmlparser.cpp:160-180 | passes exactly when every required child is present; otherwise names the first one missing |
| XmlValidation.ValidateElement | expressionxmlparser.cpp:97-109 | passes exactly when the attribute and child checks pass and, when asked, the required checks too |

## Left out

- The explanation renderer (`ToExplanation`, `argsToDescr`), `ToQstring`, the XML reading of the declarations (`readDataFromXML`, `parseEnums` and the like) and `main`: they are outside the modelled core, and file and DOM I/O are replaced by plain values (`XmlValidation.Element`).
- `isConst` for floating point: `toFloat` and `toDouble` are not modelled; whether a token reads as a non-zero real is a parameter of the builder's context. The `toInt` half is modelled, over the 32-bit range.
- `OperationMap`: only declared in the sources, so it is a parameter of the builder. A missing symbol reads as the default entry, as `QHash::value` gives.
- `QHash` iteration order: the allowed child elements, whose keys appear joined in the UnexpectedElement message, are an ordered list.
- XmlValidation.ValidateAttributes: `QDomNamedNodeMap` has no defined order, so an element's attributes are a list in whatever order that map yields them, which need not be document order. When two attributes are unexpected, "the first" means first in that list.
- Builder.VariableStep: `QStack::top` and `pop` on an empty stack are undefined behaviour in the source. The model reports them as a distinct `StackUnderflow` fault, and the final pop of an empty stack at expression.cpp:313 as success with no tree. That pop is reached by the empty or blank expression (Builder.BlankExpression) and by an expression whose only words are aggregate names (Builder.LoneTypeNameBuildsNothing).
- Builder.ExpressionToNodes: the model classifies all tokens before folding over them. Classification depends only on the token, so this gives the same result as classifying in the loop, which Builder.ExpressionToNodesLoop proves.
- Lexical: `isIdentifier`, `isFunction` and `removeConsecutiveDuplicates` have only their declarations in textExplanationsOnEng/expression.h. Their bodies are not part of this model, so they are defined by the rules their callers and test rows require, over ASCII letters and digits and ASCII case folding.
- Builder.VariableStep: for a field reached through ".", expression.cpp:250 stores the field record's `name` as the node's data type, and expression.cpp:284 does the same for a method. The model keeps this as written. It is not reported as a finding, because no modelled output shows the difference.
- XmlValidation.ParseName: `QChar::isDigit` accepts every Unicode decimal digit; the model accepts the ASCII digits only.
- LegacyErrors: the `ErrorType` enumeration of the older version is not part of this model. The older code is modelled over the current enumeration, with `Parssing` read as `Parsing`.
- Templates.TemplateShape: the template texts themselves are in the table `Templates.Template`. The lemmas state their shape (which placeholders, no stray '{'), not each English sentence.
- Where the code and its tests disagree, the model follows the code:
  - tests/test_getexplanation.cpp:63-66 expects "{1}" for an empty argument; the code gives "".
  - tests/test_getexplanation.cpp:99-102 expects "{2} hello"; the code gives "hello hello" (see Findings).
  - tests/test_getexplanationinen.cpp:462-471 expects MissingOperand; the code raises ParamsCountFunctionMissmatch before any operand is taken.
  - tests/test_getexplanationinen.cpp:424-460 expect method calls to be explained; the code looks the method up under the whole token "getAge(0)" and raises UndefinedId.
  - tests/test_getexplanationinen.cpp:315-350 expect UndefinedId for a lone aggregate name; the code pushes nothing and then pops the empty stack at expression.cpp:313, which is undefined behaviour. The model reports this as success with no tree.
- test_toexplanation.cpp and the rest of the explanation text are not modelled, because the renderer is not.

## Findings

| source | as written | input that shows it | evidently intended | confidence | as-written member | corrected member |
|---|---|---|---|---|---|---|
| textExplanationsOnEng/expressiontranslator.cpp:58 | each match is replaced everywhere in the current pattern, one after another, so an argument that itself holds a later placeholder gets replaced again | description "{1} {2}" with arguments ["{2}", "hello"] | "{2} hello": every placeholder of the original is replaced once, and inserted text is not re-read (the expectation at tests/test_getexplanation.cpp:99-102) | not executed | ExplanationRows.MixedRow | Translator.GetExplanationSinglePass |

ExplanationRows.MixedRow shows that the source gives "hello hello" on this
input, and ExplanationRows.MixedSinglePassRow that the corrected single pass
gives "{2} hello". Translator.SequentialIsSinglePass proves that the two
agree whenever no argument holds '{'. Translator.FillSucceedsIff proves that
the single pass fails in exactly the same cases as the source.
